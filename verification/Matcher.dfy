/**
  What the boundary matcher and the line-end tests of the multipart parser can and cannot
  see: the matcher recognises exactly the boundaries that begin at idle places, and which
  places are idle follows from the bytes before them; the mask tests look at two pairs of
  bits in the last four bytes.
 */
module Matcher {
  import opened Bits
  import opened Extractor

  // The boundary matcher

  lemma BoundaryBytes()
    ensures |BOUNDARY| == 20 && |CONTENT_LENGTH| == 15
    ensures forall i :: 0 <= i < 20 ==> BOUNDARY[i] < 128 && (BOUNDARY[i] == '-' as byte <==> i < 2)
    ensures forall i :: 0 <= i < 20 ==> BOUNDARY[i] != '\n' as byte && BOUNDARY[i] != '\r' as byte
  {
    var s := "--boundarydonotcross";
    assert |s| == 20;
    assert forall i :: 0 <= i < 20 ==> s[i] < 128 as char && (s[i] == '-' <==> i < 2) && s[i] != '\n' && s[i] != '\r';
    assert BOUNDARY == Ascii(s);
  }

  /** The position of the matcher after `f`, or |BOUNDARY| for good once it has fired. */
  function Follow(pos: nat, f: seq<byte>): (r: nat)
    requires pos <= |BOUNDARY|
    ensures r <= |BOUNDARY|
    decreases |f|
  {
    if f == [] then pos
    else
      var p := Follow(pos, f[..|f| - 1]);
      if p == |BOUNDARY| then p else Compare(BOUNDARY, p, f[|f| - 1])
  }

  predicate Fires(f: seq<byte>) {
    Follow(0, f) == |BOUNDARY|
  }

  ghost predicate OccursAt(f: seq<byte>, i: nat) {
    i + |BOUNDARY| <= |f| && forall k :: 0 <= k < |BOUNDARY| ==> f[i + k] == BOUNDARY[k]
  }

  ghost predicate Contains(f: seq<byte>) {
    exists i: nat :: OccursAt(f, i)
  }

  lemma CompareCases(p: nat, b: byte)
    requires p < |BOUNDARY|
    ensures Compare(BOUNDARY, p, b) == if BOUNDARY[p] == b then p + 1 else 0
  {
  }

  lemma {:induction false} FollowConcat(pos: nat, a: seq<byte>, b: seq<byte>)
    requires pos <= |BOUNDARY|
    ensures Follow(pos, a + b) == Follow(Follow(pos, a), b)
    decreases |b|
  {
    if b == [] {
      assert a + b == a;
    } else {
      FollowConcat(pos, a, b[..|b| - 1]);
      assert (a + b)[..|a + b| - 1] == a + b[..|b| - 1];
    }
  }

  lemma {:induction false} FollowBoundary(n: nat)
    requires n <= |BOUNDARY|
    ensures Follow(0, BOUNDARY[..n]) == n
  {
    if n > 0 {
      FollowBoundary(n - 1);
      assert BOUNDARY[..n][..n - 1] == BOUNDARY[..n - 1];
    }
  }

  // When it fires

  /** The first place where the matcher fires. */
  lemma {:induction false} FiringPoint(f: seq<byte>) returns (m: nat)
    requires Fires(f)
    ensures 0 < m <= |f| && Fires(f[..m]) && !Fires(f[..m - 1])
    decreases |f|
  {
    var n := |f| - 1;
    if Fires(f[..n]) {
      m := FiringPoint(f[..n]);
      assert f[..n][..m] == f[..m] && f[..n][..m - 1] == f[..m - 1];
    } else {
      m := |f|;
      assert f[..m] == f;
    }
  }

  lemma PrefixDoesNotFire(f: seq<byte>, n: nat)
    requires n <= |f| && !Fires(f)
    ensures !Fires(f[..n])
  {
    assert f == f[..n] + f[n..];
    FollowConcat(0, f[..n], f[n..]);
    StaysFired(f[n..]);
  }

  lemma {:induction false} StaysFired(f: seq<byte>)
    ensures Follow(|BOUNDARY|, f) == |BOUNDARY|
    decreases |f|
  {
    if f != [] {
      StaysFired(f[..|f| - 1]);
    }
  }

  /** From `j` on, the bytes before `i` are a beginning of the boundary, or all of it. */
  ghost predicate Part(f: seq<byte>, j: nat, i: nat) {
    j < i <= |f| && i - j <= |BOUNDARY| && forall k :: j <= k < i ==> f[k] == BOUNDARY[k - j]
  }

  /**
    Idle places, by the bytes alone: `i` is idle unless it is inside, or at the end of, a
    beginning of the boundary that begins at an idle place.
   */
  ghost predicate Idle(f: seq<byte>, i: nat)
    requires i <= |f|
    decreases i
  {
    forall j: nat :: Part(f, j, i) ==> !Idle(f, j)
  }

  /** A boundary at an idle place. */
  ghost predicate Recognised(f: seq<byte>) {
    exists i: nat :: OccursAt(f, i) && Idle(f, i)
  }

  /** `Follow` without taking prefixes. */
  function Position(f: seq<byte>, i: nat): (p: nat)
    requires i <= |f|
    ensures p <= |BOUNDARY|
  {
    if i == 0 then 0
    else
      var p := Position(f, i - 1);
      if p == |BOUNDARY| then p else if BOUNDARY[p] == f[i - 1] then p + 1 else 0
  }

  lemma {:induction false} PositionIsFollow(f: seq<byte>, i: nat)
    requires i <= |f|
    ensures Position(f, i) == Follow(0, f[..i])
  {
    hide BOUNDARY;
    if i > 0 {
      PositionIsFollow(f, i - 1);
      assert f[..i][..i - 1] == f[..i - 1];
    }
  }

  lemma {:induction false} FiredForGood(f: seq<byte>, j: nat, i: nat)
    requires j <= i <= |f| && Position(f, j) == |BOUNDARY|
    ensures Position(f, i) == |BOUNDARY|
  {
    hide BOUNDARY;
    if j < i {
      FiredForGood(f, j, i - 1);
    }
  }

  /** From an idle position the matcher follows the boundary. */
  lemma {:induction false} FollowPart(f: seq<byte>, j: nat, i: nat)
    requires Part(f, j, i) && Position(f, j) == 0
    ensures Position(f, i) == i - j
    decreases i
  {
    hide BOUNDARY;
    if j < i - 1 {
      FollowPart(f, j, i - 1);
    }
  }

  lemma PartLonger(f: seq<byte>, j: nat, i: nat)
    requires j < i <= |f| && i - j <= |BOUNDARY| && f[i - 1] == BOUNDARY[i - 1 - j]
    requires j < i - 1 ==> Part(f, j, i - 1)
    ensures Part(f, j, i)
  {
    hide BOUNDARY;
  }

  /** Before it has fired, the matcher stands at the beginning exactly in the idle places. */
  lemma {:induction false} IdleIff(f: seq<byte>, i: nat)
    requires i <= |f| && Position(f, i) < |BOUNDARY|
    ensures Position(f, i) == 0 <==> Idle(f, i)
    ensures var p := Position(f, i); p > 0 ==> p <= i && Part(f, i - p, i) && Idle(f, i - p)
    decreases i, 1
  {
    if Position(f, i) == 0 {
      IdleAtStart(f, i);
    } else {
      Standing(f, i);
    }
    hide Position, Part;
  }

  lemma {:induction false} IdleAtStart(f: seq<byte>, i: nat)
    requires i <= |f| && Position(f, i) == 0
    ensures Idle(f, i)
    decreases i, 0
  {
    forall j: nat | Part(f, j, i) ensures !Idle(f, j) {
      hide Position;
      if Position(f, j) == |BOUNDARY| {
        FiredForGood(f, j, i);
        PositionBound(f, i);
      } else {
        PositionBound(f, j);
        IdleIff(f, j);
        if Position(f, j) == 0 {
          FollowPart(f, j, i);
        }
      }
    }
  }

  lemma PositionBound(f: seq<byte>, i: nat)
    requires i <= |f|
    ensures Position(f, i) <= |BOUNDARY|
  {
  }

  /** Where the matcher stands, that much of the boundary has been seen, beginning at an idle place. */
  lemma {:induction false} Standing(f: seq<byte>, i: nat)
    requires i <= |f| && Position(f, i) > 0 && (i > 0 ==> Position(f, i - 1) < |BOUNDARY|)
    ensures var p := Position(f, i); p <= i && Part(f, i - p, i) && Idle(f, i - p)
    decreases i, 0
  {
    hide BOUNDARY, Idle, Part;
    var p := Position(f, i);
    assert i > 0 && p == Position(f, i - 1) + 1 && BOUNDARY[p - 1] == f[i - 1];
    hide Position;
    IdleIff(f, i - 1);
    PartLonger(f, i - p, i);
  }

  /** When it fires the last 20 bytes are the boundary, and they begin at an idle place; and only then it fires. */
  lemma FiresAt(f: seq<byte>, m: nat)
    requires 0 < m <= |f| && Position(f, m - 1) < |BOUNDARY|
    ensures Position(f, m) == |BOUNDARY|
       <==> |BOUNDARY| <= m && OccursAt(f, m - |BOUNDARY|) && Idle(f, m - |BOUNDARY|)
  {
    hide BOUNDARY, Position, Part, OccursAt, Idle;
    var n := |BOUNDARY|;
    if Position(f, m) == n {
      Standing(f, m);
      PartIsOccurrence(f, m - n);
    }
    if n <= m && OccursAt(f, m - n) && Idle(f, m - n) {
      FiresBehind(f, m - n);
    }
  }

  lemma PartIsOccurrence(f: seq<byte>, i: nat)
    ensures Part(f, i, i + |BOUNDARY|) <==> OccursAt(f, i)
  {
    BoundaryBytes();
    if Part(f, i, i + |BOUNDARY|) {
      forall k | 0 <= k < |BOUNDARY| ensures f[i + k] == BOUNDARY[k] {
        assert f[i + k] == BOUNDARY[i + k - i];
      }
    }
  }

  lemma FiresBehind(f: seq<byte>, i: nat)
    requires OccursAt(f, i) && Idle(f, i)
    ensures Position(f, i + |BOUNDARY|) == |BOUNDARY|
  {
    var m := i + |BOUNDARY|;
    PartIsOccurrence(f, i);
    PositionBound(f, i);
    hide Position, Part, OccursAt;
    if Position(f, i) == |BOUNDARY| {
      FiredForGood(f, i, m);
    } else {
      IdleIff(f, i);
      FollowPart(f, i, m);
    }
  }

  lemma {:induction false} FiringPlace(f: seq<byte>, i: nat) returns (m: nat)
    requires i <= |f| && Position(f, i) == |BOUNDARY|
    ensures 0 < m <= i && Position(f, m) == |BOUNDARY| && Position(f, m - 1) < |BOUNDARY|
  {
    if Position(f, i - 1) == |BOUNDARY| {
      m := FiringPlace(f, i - 1);
    } else {
      m := i;
    }
  }

  /** The matcher fires exactly if a boundary begins at an idle place. */
  lemma FiresIff(f: seq<byte>)
    ensures Fires(f) <==> Recognised(f)
  {
    hide BOUNDARY;
    PositionIsFollow(f, |f|);
    assert f[..|f|] == f;
    if Fires(f) {
      var m := FiringPlace(f, |f|);
      FiresAt(f, m);
    }
    forall i: nat | OccursAt(f, i) && Idle(f, i) ensures Fires(f) {
      FiresBehind(f, i);
      FiredForGood(f, i + |BOUNDARY|, |f|);
    }
  }

  /**
    What the matcher has seen: it stands behind a beginning of the boundary that begins at an
    idle place, and it has fired exactly if the boundary began at one.
   */
  lemma MatcherIsSound(f: seq<byte>)
    ensures Follow(0, f) == |BOUNDARY| <==> Recognised(f)
    ensures var p := Follow(0, f); 0 < p < |BOUNDARY| ==> p <= |f| && Part(f, |f| - p, |f|) && Idle(f, |f| - p)
    ensures Follow(0, f) < |BOUNDARY| ==> (Follow(0, f) == 0 <==> Idle(f, |f|))
  {
    hide BOUNDARY, Recognised, Position, Part, Idle;
    FiresIff(f);
    PositionIsFollow(f, |f|);
    assert f[..|f|] == f;
    if Follow(0, f) < |BOUNDARY| {
      IdleIff(f, |f|);
    }
  }

  /** A byte makes the matcher fire exactly if it completes a boundary that began at an idle place. */
  lemma FiringByte(f: seq<byte>)
    requires f != [] && !Fires(f[..|f| - 1])
    ensures Fires(f) <==> |BOUNDARY| <= |f| && OccursAt(f, |f| - |BOUNDARY|) && Idle(f, |f| - |BOUNDARY|)
  {
    hide BOUNDARY, Position, Idle, OccursAt, Follow;
    PositionIsFollow(f, |f|);
    PositionIsFollow(f, |f| - 1);
    PositionBound(f, |f| - 1);
    assert f[..|f|] == f;
    FiresAt(f, |f|);
  }

  /** A frame without the boundary does not make the matcher fire. */
  lemma NoBoundaryNoFire(f: seq<byte>)
    requires !Contains(f)
    ensures !Fires(f) && !Recognised(f)
  {
    FiresIff(f);
  }

  // Which places are idle

  /** Behind a byte that the boundary does not have. */
  lemma IdleBehindForeign(f: seq<byte>, i: nat)
    requires i <= |f| && (i == 0 || f[i - 1] !in BOUNDARY)
    ensures Idle(f, i)
  {
    hide BOUNDARY;
  }

  ghost predicate Dashes(f: seq<byte>, i: nat, r: nat) {
    i + r <= |f| && forall k :: i <= k < i + r ==> f[k] == '-' as byte
  }

  /** The end of a beginning of the boundary is a dash in the first two places only. */
  lemma PartEndsInDash(f: seq<byte>, j: nat, i: nat)
    requires Part(f, j, i) && f[i - 1] == '-' as byte
    ensures i - j <= 2
  {
    BoundaryBytes();
  }

  lemma PartOfDashes(f: seq<byte>, i: nat, n: nat)
    requires 1 <= n <= 2 && Dashes(f, i, n)
    ensures Part(f, i, i + n)
  {
    BoundaryBytes();
    hide BOUNDARY;
  }

  /**
    Behind a whole run of dashes: every third place is idle, counted from the byte before the
    run if that is idle, and otherwise from the first dash.
   */
  lemma {:induction false} IdleBehindDashes(f: seq<byte>, i: nat, r: nat)
    requires i + r <= |f| && Dashes(f, i, r) && (i == 0 || f[i - 1] != '-' as byte)
    ensures Idle(f, i + r) <==> EveryThird(r, Idle(f, i))
  {
    hide *;
    FirstThirds(Idle(f, i));
    if r > 0 {
      BehindDash(f, i, r);
      FewerDashes(f, i, r, r - 1);
      IdleBehindDashes(f, i, r - 1);
      if r > 1 {
        FewerDashes(f, i, r, r - 2);
        IdleBehindDashes(f, i, r - 2);
        NextThird(r, Idle(f, i));
      }
    }
  }

  lemma FewerDashes(f: seq<byte>, i: nat, r: nat, q: nat)
    requires Dashes(f, i, r) && q <= r
    ensures Dashes(f, i, q)
  {
  }

  predicate EveryThird(r: nat, first: bool) {
    r % 3 == if first then 0 else 1
  }

  lemma FirstThirds(first: bool)
    ensures EveryThird(0, first) == first && EveryThird(1, first) == !first
  {
  }

  lemma NextThird(r: nat, first: bool)
    requires r > 1
    ensures EveryThird(r, first) <==> !EveryThird(r - 1, first) && !EveryThird(r - 2, first)
  {
  }

  lemma BehindDash(f: seq<byte>, i: nat, r: nat)
    requires Dashes(f, i, r) && (i == 0 || f[i - 1] != '-' as byte) && r > 0
    ensures Idle(f, i + r) <==> !Idle(f, i + r - 1) && (r > 1 ==> !Idle(f, i + r - 2))
  {
    var e := i + r;
    PartOfDashes(f, e - 1, 1);
    if r > 1 {
      PartOfDashes(f, e - 2, 2);
    }
    forall j: nat | Part(f, j, e) ensures j == e - 1 || (r > 1 && j == e - 2) {
      PartEndsInDash(f, j, e);
      PartBegins(f, j, e);
    }
    hide Part, Dashes;
  }

  lemma PartBegins(f: seq<byte>, j: nat, i: nat)
    requires Part(f, j, i)
    ensures f[j] == '-' as byte
  {
    BoundaryBytes();
    hide BOUNDARY;
  }

  /** Behind an idle place the boundary is always recognised, and a foreign byte makes one anywhere. */
  lemma MatcherIsComplete(f: seq<byte>, b: byte)
    requires !Fires(f) && b !in BOUNDARY
    ensures Follow(0, f + [b]) == 0
    ensures forall n :: 0 <= n <= |BOUNDARY| ==> Follow(0, f + [b] + BOUNDARY[..n]) == n
  {
    assert (f + [b])[..|f|] == f;
    CompareCases(Follow(0, f), b);
    forall n | 0 <= n <= |BOUNDARY| ensures Follow(0, f + [b] + BOUNDARY[..n]) == n {
      FollowConcat(0, f + [b], BOUNDARY[..n]);
      FollowBoundary(n);
    }
  }

  /** In particular behind the line end that the server sends. */
  lemma BehindLineEnd(f: seq<byte>)
    requires !Fires(f)
    ensures Follow(0, f + Ascii("\r\n")) == 0
    ensures forall n :: 0 <= n <= |BOUNDARY| ==> Follow(0, f + Ascii("\r\n") + BOUNDARY[..n]) == n
  {
    BoundaryBytes();
    assert Ascii("\r\n") == ['\r' as byte] + ['\n' as byte];
    assert f + Ascii("\r\n") == f + ['\r' as byte] + ['\n' as byte];
    hide BOUNDARY, Ascii, Follow;
    MatcherIsComplete(f, '\r' as byte);
    MatcherIsComplete(f + ['\r' as byte], '\n' as byte);
  }

  /** Without a fallback: a content that begins with `r` dashes and the boundary is recognised for every third `r` only. */
  lemma DashesAndBoundary(r: nat)
    ensures var f := seq(r, _ => '-' as byte) + BOUNDARY; Contains(f) && (Fires(f) <==> r % 3 == 0)
  {
    var f := seq(r, _ => '-' as byte) + BOUNDARY;
    assert OccursAt(f, r) && Dashes(f, 0, r);
    IdleBehindForeign(f, 0);
    IdleBehindDashes(f, 0, r);
    FiresIff(f);
    forall i: nat | OccursAt(f, i) ensures i == r {
      OnlyOccurrence(r, f, i);
    }
    hide BOUNDARY, OccursAt, Idle, Fires;
  }

  lemma OnlyOccurrence(r: nat, f: seq<byte>, i: nat)
    requires f == seq(r, _ => '-' as byte) + BOUNDARY && OccursAt(f, i)
    ensures i == r
  {
    BoundaryBytes();
    hide BOUNDARY;
    assert f[i + 0] == BOUNDARY[0] && f[i + 1] == BOUNDARY[1] && f[i + 2] == BOUNDARY[2];
  }

  // The line-end tests

  /** The bits of CR, and of LF, in a byte. */
  predicate HasCr(b: byte) {
    b % 2 == 1 && (b / 4) % 2 == 1 && (b / 8) % 2 == 1
  }

  predicate HasLf(b: byte) {
    (b / 2) % 2 == 1 && (b / 8) % 2 == 1
  }

  /** Four bytes side by side. */
  ghost predicate HoldsBytes(w: Word, a: byte, b: byte, c: byte, d: byte) {
    w == FromNat(a as nat, 8) + FromNat(b as nat, 8) + FromNat(c as nat, 8) + FromNat(d as nat, 8)
  }

  lemma EmptyRegister()
    ensures HoldsBytes(Zeros(32), 0, 0, 0, 0)
  {
    ToNatOfFromNat(0, 8);
    ModUnique(0, Pow2(8), 0, 0);
    ToNatZeros(8);
    ToNatInjective(FromNat(0, 8), Zeros(8));
  }

  /** A byte shifts the register; one from 128 on is a negative char and sets all bits before it as well. */
  lemma PushShifts(w: Word, a: byte, b: byte, c: byte, d: byte, e: byte)
    requires HoldsBytes(w, a, b, c, d)
    ensures e < 128 ==> HoldsBytes(PushByte(w, e), b, c, d, e)
    ensures e >= 128 ==> HoldsBytes(PushByte(w, e), 255, 255, 255, e)
  {
    WideByte(e);
    AllOnes();
    hide FromNat, IntToWord;
    var x, high := FromNat(e as nat, 8), FromNat(b as nat, 8) + FromNat(c as nat, 8) + FromNat(d as nat, 8);
    assert ShiftLeft(w, 8) == high + Zeros(8);
    if e < 128 {
      OrLow(high, Zeros(24), x);
      assert OrBits(high, Zeros(24)) == high;
    } else {
      OrLow(high, Ones(24), x);
      assert OrBits(high, Ones(24)) == Ones(24) == Ones(8) + Ones(8) + Ones(8);
    }
  }

  lemma AllOnes()
    ensures FromNat(255, 8) == Ones(8)
  {
    assert Pow2(8) == 256;
    FromNatOnes(8);
  }

  lemma WideByte(b: byte)
    ensures IntToWord(b as nat) == Zeros(24) + FromNat(b as nat, 8)
  {
    FromNatSuffix(b as nat, 32, 8);
    FromNatPrefix(b as nat, 8, 24);
    assert Pow2(8) == 256;
    hide FromNat;
    var w := IntToWord(b as nat);
    assert w == w[..24] + w[24..];
  }

  /** The high bits are those of the quotient. */
  lemma {:induction false} FromNatPrefix(x: nat, m: nat, n: nat)
    ensures FromNat(x, n + m)[..n] == FromNat(x / Pow2(m), n)
    ensures x < Pow2(m) ==> FromNat(x, n + m)[..n] == Zeros(n)
  {
    if m == 0 {
      assert x / 1 == x;
      if x == 0 {
        ToNatOfFromNat(0, n);
        ModUnique(0, Pow2(n), 0, 0);
        ToNatZeros(n);
        ToNatInjective(FromNat(0, n), Zeros(n));
      }
    } else {
      FromNatPrefix(x / 2, m - 1, n);
      DivTwice(x, Pow2(m - 1));
      assert FromNat(x, n + m)[..n] == FromNat(x / 2, n + m - 1)[..n];
    }
  }

  lemma DivTwice(x: nat, p: nat)
    requires p >= 1
    ensures (x / 2) / p == x / (2 * p)
  {
    var q, r := (x / 2) / p, (x / 2) % p;
    DoubleProduct(q, p);
    assert x == q * (2 * p) + (2 * r + x % 2);
    MulCommutes(q, 2 * p);
    ModUnique(x, 2 * p, q, 2 * r + x % 2);
  }

  function OrBits(a: seq<bool>, b: seq<bool>): seq<bool>
    requires |a| == |b|
  {
    seq(|a|, i requires 0 <= i < |a| => a[i] || b[i])
  }

  lemma OrLow(high: seq<bool>, sign: seq<bool>, low: seq<bool>)
    requires |high| == |sign| == 24 && |low| == 8
    ensures Or(high + Zeros(8), sign + low) == OrBits(high, sign) + low
  {
  }

  lemma CrByte()
    ensures FromNat(13, 8) == [false, false, false, false, true, true, false, true]
  {
  }

  lemma LfByte()
    ensures FromNat(3338, 8) == [false, false, false, false, true, false, true, false]
  {
  }

  lemma MaskBytes()
    ensures Pow2(8) == 256 && Pow2(16) == 65536
  {
  }

  lemma MaskBits()
    ensures forall i :: 0 <= i < 32 ==> CRLF_MASK[i] == (i in {20, 21, 23, 28, 30})
  {
    CrByte();
    LfByte();
    MaskBytes();
    hide FromNat, Pow2;
    FromNatSuffix(3338, 32, 16);
    FromNatPrefix(3338, 16, 16);
    FromNatSuffix(3338, 16, 8);
    FromNatPrefix(3338, 8, 8);
    var half := FromNat(3338, 16);
    assert half == half[..8] + half[8..];
    assert CRLF_MASK == CRLF_MASK[..16] + CRLF_MASK[16..];
    assert CRLF_MASK == Zeros(16) + FromNat(13, 8) + FromNat(3338, 8);
  }

  lemma ByteBits(b: byte)
    ensures HasCr(b) <==> FromNat(b as nat, 8)[4] && FromNat(b as nat, 8)[5] && FromNat(b as nat, 8)[7]
    ensures HasLf(b) <==> FromNat(b as nat, 8)[4] && FromNat(b as nat, 8)[6]
  {
    var x := b as nat;
    assert FromNat(x, 8) == FromNat(x / 2, 7) + [x % 2 == 1];
    assert FromNat(x / 2, 7) == FromNat(x / 2 / 2, 6) + [(x / 2) % 2 == 1];
    assert FromNat(x / 2 / 2, 6) == FromNat(x / 2 / 2 / 2, 5) + [(x / 2 / 2) % 2 == 1];
    assert FromNat(x / 2 / 2 / 2, 5) == FromNat(x / 2 / 2 / 2 / 2, 4) + [(x / 2 / 2 / 2) % 2 == 1];
  }

  /** The mask tests on a register: two pairs of bytes with the bits of CR and LF. */
  lemma LineEndTests(w: Word, a: byte, b: byte, c: byte, d: byte)
    requires HoldsBytes(w, a, b, c, d)
    ensures IsCrlf(w) <==> HasCr(c) && HasLf(d)
    ensures IsCrlfCrlf(w) <==> HasCr(a) && HasLf(b) && HasCr(c) && HasLf(d)
  {
    MaskBits();
    ByteBits(a);
    ByteBits(b);
    ByteBits(c);
    ByteBits(d);
    hide FromNat, HasCr, HasLf, IsCrlf;
    MaskTest(w);
    MaskTest(ShiftRightSigned(w, 16));
  }

  lemma MaskTest(w: Word)
    ensures IsCrlf(w) <==> w[20] && w[21] && w[23] && w[28] && w[30]
  {
    MaskBits();
    hide CRLF_MASK;
    var m := And(CRLF_MASK, w);
    assert forall i :: 0 <= i < 32 ==> m[i] == (CRLF_MASK[i] && w[i]);
    if w[20] && w[21] && w[23] && w[28] && w[30] {
      assert m == CRLF_MASK;
    }
  }

  // Where a header ends, for any bytes

  /** The register after the bytes of a header. */
  function Register(h: seq<byte>): Word {
    if h == [] then Zeros(32) else PushByte(Register(h[..|h| - 1]), h[|h| - 1])
  }

  /** The byte in the register `k` places before the last one; everything before a negative char is 255. */
  function Seen(h: seq<byte>, k: nat): byte {
    if h == [] then 0
    else
      var n := |h| - 1;
      if k == 0 then h[n] else if h[n] >= 128 then 255 else Seen(h[..n], k - 1)
  }

  lemma {:induction false} RegisterHolds(h: seq<byte>)
    ensures HoldsBytes(Register(h), Seen(h, 3), Seen(h, 2), Seen(h, 1), Seen(h, 0))
    decreases |h|
  {
    if h == [] {
      EmptyRegister();
    } else {
      var p := h[..|h| - 1];
      RegisterHolds(p);
      PushShifts(Register(p), Seen(p, 3), Seen(p, 2), Seen(p, 1), Seen(p, 0), h[|h| - 1]);
    }
    hide HoldsBytes, PushByte;
  }

  /** What a byte of a header does to the parser. */
  lemma StepInHeader(s: State, b: byte)
    requires s.Valid() && s.part == HEADER
    ensures var t, w := Step(s, b), PushByte(s.lastFour, b);
      && t.Valid() && t.lastFour == w && t.part == (if IsCrlfCrlf(w) then CONTENT else HEADER)
      && t.content == s.content && t.boundaryPos == s.boundaryPos && t.received == s.received
  {
    hide PushByte, IsCrlfCrlf, IsCrlf, Compare;
  }

  /** What passes for an empty line. */
  predicate EmptyLineSeen(h: seq<byte>) {
    HasCr(Seen(h, 3)) && HasLf(Seen(h, 2)) && HasCr(Seen(h, 1)) && HasLf(Seen(h, 0))
  }

  lemma RegisterTests(h: seq<byte>)
    ensures IsCrlf(Register(h)) <==> HasCr(Seen(h, 1)) && HasLf(Seen(h, 0))
    ensures IsCrlfCrlf(Register(h)) <==> EmptyLineSeen(h)
  {
    RegisterHolds(h);
    hide *;
    LineEndTests(Register(h), Seen(h, 3), Seen(h, 2), Seen(h, 1), Seen(h, 0));
    EmptyLineIs(h);
  }

  lemma EmptyLineIs(h: seq<byte>)
    ensures EmptyLineSeen(h) <==> HasCr(Seen(h, 3)) && HasLf(Seen(h, 2)) && HasCr(Seen(h, 1)) && HasLf(Seen(h, 0))
  {
  }

  lemma {:induction false} StillHeader(h: seq<byte>, received: seq<Callback>)
    requires Init(received).Valid() && forall n :: 0 < n <= |h| ==> !EmptyLineSeen(h[..n])
    ensures var s := Run(Init(received), h); s.part == HEADER && s.lastFour == Register(h)
    decreases |h|
  {
    if h != [] {
      var p := h[..|h| - 1];
      forall n | 0 < n <= |p| ensures !EmptyLineSeen(p[..n]) {
        assert p[..n] == h[..n];
      }
      StillHeader(p, received);
      assert h[..|h|] == h;
      RegisterTests(h);
      StepInHeader(Run(Init(received), p), h[|h| - 1]);
      hide EmptyLineSeen, PushByte, IsCrlfCrlf, IsCrlf, Step, Init, State.Valid;
    }
  }

  lemma RunLast(s: State, h: seq<byte>)
    requires s.Valid() && h != []
    ensures Run(s, h) == Step(Run(s, h[..|h| - 1]), h[|h| - 1])
  {
  }

  lemma InitIsValid(received: seq<Callback>)
    ensures Init(received).Valid()
  {
    BoundaryBytes();
  }

  /** Whatever the bytes, the header ends with the first of its beginnings that passes for ending in an empty line. */
  lemma HeaderEndsIff(h: seq<byte>, received: seq<Callback>)
    requires h != [] && forall n :: 0 < n < |h| ==> !EmptyLineSeen(h[..n])
    ensures Init(received).Valid()
    ensures Run(Init(received), h).part == CONTENT <==> EmptyLineSeen(h)
  {
    hide *;
    InitIsValid(received);
    var p := h[..|h| - 1];
    forall n | 0 < n <= |p| ensures !EmptyLineSeen(p[..n]) {
      assert p[..n] == h[..n];
    }
    StillHeader(p, received);
    RegisterTests(h);
    RunLast(Init(received), h);
    RegisterLast(h);
    StepInHeader(Run(Init(received), p), h[|h| - 1]);
  }

  lemma RegisterLast(h: seq<byte>)
    requires h != []
    ensures Register(h) == PushByte(Register(h[..|h| - 1]), h[|h| - 1])
  {
  }
}
