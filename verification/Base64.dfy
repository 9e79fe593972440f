/**
  `decodeBase64` of httpd.c, which decodes a C string in place, against section 4 of
  RFC 4648.
 */
module Base64 {
  import opened Bits
  import opened CString

  newtype sextet = x: int | 0 <= x < 64

  const PAD: byte := '=' as byte

  /** Lines 217-230: the value of a byte, or -1 for a byte that is skipped. */
  function Sextet(c: byte): (t: int)
    ensures -1 <= t < 64
  {
    var t := c as int;
    if 48 <= t <= 57 then t - 48 + 52
    else if 65 <= t <= 90 then t - 65
    else if 97 <= t <= 122 then t - 97 + 26
    else if t == 43 then 62
    else if t == 47 then 63
    else if c == PAD then 0
    else -1
  }

  /** Table 1 of RFC 4648. */
  function Letter(x: sextet): (c: byte) {
    var v := x as int;
    if v < 26 then (65 + v) as byte
    else if v < 52 then (97 + v - 26) as byte
    else if v < 62 then (48 + v - 52) as byte
    else if v == 62 then 43 else 47
  }

  lemma SextetInvertsLetter(v: sextet, c: byte)
    ensures Sextet(c) == v as int && c != PAD <==> c == Letter(v)
  {
  }

  // What is decoded

  function Sextets(s: seq<byte>): (q: seq<sextet>)
    ensures |q| <= |s|
  {
    if s == [] then []
    else if Sextet(s[0]) == -1 then Sextets(s[1..])
    else [Sextet(s[0]) as sextet] + Sextets(s[1..])
  }

  /** Four sextets as three octets. */
  function Octets(s0: sextet, s1: sextet, s2: sextet, s3: sextet): (b: seq<byte>)
    ensures |b| == 3
  {
    [(s0 as int * 4 + s1 as int / 16) as byte,
     (s1 as int % 16 * 16 + s2 as int / 4) as byte,
     (s2 as int % 4 * 64 + s3 as int) as byte]
  }

  /** Whole groups of four; an incomplete last group is dropped. */
  function Decode(q: seq<sextet>): (b: seq<byte>)
  {
    if |q| < 4 then [] else Octets(q[0], q[1], q[2], q[3]) + Decode(q[4..])
  }

  // The 32-bit accumulator

  /** `(ch << 6) | t`; the six low bits of the shifted value are clear. */
  function Accumulate(ch: nat, t: nat): nat {
    ch * 64 % 0x1_0000_0000 + t
  }

  /** The number that the pending sextets spell. */
  function Spelled(q: seq<sextet>): nat {
    if q == [] then 0 else Spelled(q[..|q| - 1]) * 64 + q[|q| - 1] as int
  }

  function Power64(i: nat): nat
    requires i <= 4
  {
    if i == 0 then 1 else if i == 1 then 64 else if i == 2 then 4096 else if i == 3 then 262144 else 16777216
  }

  /** Reducing modulo 2^32 keeps the low-order bits. */
  lemma AccumulateModulo(ch: nat, t: nat, m: nat, d: nat)
    requires m >= 1 && m * 64 * d == 0x1_0000_0000 && t < 64
    ensures Accumulate(ch, t) % (m * 64) == ch % m * 64 + t
  {
    var k, r, j := ch / m, ch % m, ch * 64 / 0x1_0000_0000;
    assert ch == m * k + r;
    assert Accumulate(ch, t) == m * 64 * (k - d * j) + (r * 64 + t) by {
      MulAssociative(m * 64, d, j);
      assert m * 64 * k == m * k * 64;
      assert m * 64 * (k - d * j) == m * 64 * k - m * 64 * (d * j);
    }
    ModUnique(Accumulate(ch, t), m * 64, k - d * j, r * 64 + t);
  }

  /** Older sextets do not reach the bits that are used. */
  lemma AccumulatePending(ch: nat, q: seq<sextet>, t: sextet)
    requires |q| < 4 && Holds(ch, q)
    ensures Holds(Accumulate(ch, t as int), q + [t])
  {
    assert (q + [t])[..|q|] == q;
    AccumulateModulo(ch, t as int, Power64(|q|),
                     if |q| == 0 then 67108864 else if |q| == 1 then 1048576 else if |q| == 2 then 16384 else 256);
    hide Accumulate;
  }

  /** The low-order bits of the accumulator are the pending sextets, whatever is above them. */
  ghost predicate Holds(ch: nat, q: seq<sextet>) {
    |q| <= 4 && ch % Power64(|q|) == Spelled(q)
  }

  lemma ThreeOctets(ch: nat, k: nat, b0: nat, b1: nat, b2: nat)
    requires b0 < 256 && b1 < 256 && b2 < 256 && ch == 16777216 * k + 65536 * b0 + 256 * b1 + b2
    ensures ch / 65536 % 256 == b0 && ch / 256 % 256 == b1 && ch % 256 == b2
  {
    assert ch / 256 == 65536 * k + 256 * b0 + b1;
    assert ch / 65536 == 256 * k + b0;
  }

  lemma SpelledFour(s0: sextet, s1: sextet, s2: sextet, s3: sextet)
    ensures Spelled([s0, s1, s2, s3]) == ((s0 as int * 64 + s1 as int) * 64 + s2 as int) * 64 + s3 as int
  {
    assert [s0, s1, s2, s3][..3] == [s0, s1, s2];
    assert [s0, s1, s2][..2] == [s0, s1];
    assert [s0, s1][..1] == [s0];
    assert [s0][..0] == [];
    assert Spelled([]) == 0;
    assert Spelled([s0]) == s0 as int;
    assert Spelled([s0, s1]) == s0 as int * 64 + s1 as int;
    assert Spelled([s0, s1, s2]) == (s0 as int * 64 + s1 as int) * 64 + s2 as int;
  }

  function Stored(ch: nat): (b: seq<byte>)
    ensures |b| == 3
  {
    [(ch / 65536 % 256) as byte, (ch / 256 % 256) as byte, (ch % 256) as byte]
  }

  lemma Regroup(s0: nat, s1: nat, s2: nat, s3: nat)
    ensures ((s0 * 64 + s1) * 64 + s2) * 64 + s3
            == 65536 * (s0 * 4 + s1 / 16) + 256 * (s1 % 16 * 16 + s2 / 4) + (s2 % 4 * 64 + s3)
  {
    assert s1 == s1 / 16 * 16 + s1 % 16;
    assert s2 == s2 / 4 * 4 + s2 % 4;
  }

  lemma GroupOctets(ch: nat, q: seq<sextet>)
    requires |q| == 4 && Holds(ch, q)
    ensures Stored(ch) == Octets(q[0], q[1], q[2], q[3])
  {
    assert q == [q[0], q[1], q[2], q[3]];
    SpelledFour(q[0], q[1], q[2], q[3]);
    hide Spelled;
    var s0, s1, s2, s3 := q[0] as int, q[1] as int, q[2] as int, q[3] as int;
    Regroup(s0, s1, s2, s3);
    var k, v := ch / 16777216, ch % 16777216;
    assert ch == 16777216 * k + v;
    ThreeOctets(ch, k, s0 * 4 + s1 / 16, s1 % 16 * 16 + s2 / 4, s2 % 4 * 64 + s3);
  }

  /** Lines 235-237: the octets take the place of bytes that have been read. */
  method StoreGroup(data: array<byte>, write: nat, ch: nat, ghost out: seq<byte>, ghost was: seq<byte>)
    requires write + 3 <= data.Length == |was| && write == |out|
    requires Written(data[..], out, was)
    modifies data
    ensures |Stored(ch)| == 3 && Written(data[..], out + Stored(ch), was)
  {
    data[write] := (ch / 65536 % 256) as byte;
    data[write + 1] := (ch / 256 % 256) as byte;
    data[write + 2] := (ch % 256) as byte;
  }

  /** `out` has been decoded, `pending` has been read and `text[read..]` has not. */
  ghost predicate Progress(text: seq<byte>, out: seq<byte>, pending: seq<sextet>, read: nat) {
    && read <= |text|
    && Decode(Sextets(text)) == out + Decode(pending + Sextets(text[read..]))
  }

  function Next(pending: seq<sextet>, c: byte): seq<sextet> {
    if Sextet(c) == -1 then pending else pending + [Sextet(c) as sextet]
  }

  lemma NextByte(text: seq<byte>, out: seq<byte>, pending: seq<sextet>, read: nat)
    requires Progress(text, out, pending, read) && read < |text|
    ensures Progress(text, out, Next(pending, text[read]), read + 1)
  {
    hide Decode;
    assert text[read..][1..] == text[read + 1..];
    var t, later := Sextet(text[read]), Sextets(text[read + 1..]);
    if t != -1 {
      assert pending + ([t as sextet] + later) == pending + [t as sextet] + later;
    }
  }

  lemma NextGroup(text: seq<byte>, out: seq<byte>, group: seq<sextet>, ch: nat, read: nat)
    requires Progress(text, out, group, read) && |group| == 4 && Holds(ch, group)
    ensures Progress(text, out + Stored(ch), [], read) && Holds(ch, [])
  {
    GroupOctets(ch, group);
    hide Octets, Stored;
    var later := Sextets(text[read..]);
    assert (group + later)[4..] == later == [] + later;
    assert out + (Stored(ch) + Decode(later)) == out + Stored(ch) + Decode(later);
  }

  lemma Start(text: seq<byte>, ch: nat)
    ensures Progress(text, [], [], 0) && Holds(ch, [])
  {
    assert text[0..] == text && [] + Sextets(text) == Sextets(text);
    assert [] + Decode(Sextets(text)) == Decode(Sextets(text));
  }

  lemma Finish(text: seq<byte>, out: seq<byte>, pending: seq<sextet>)
    requires Progress(text, out, pending, |text|) && |pending| < 4
    ensures Decode(Sextets(text)) == out
  {
    assert out + [] == out;
  }

  /** The loop invariant of lines 214-240. */
  ghost predicate Between(was: seq<byte>, now: seq<byte>, out: seq<byte>, pending: seq<sextet>, ch: nat, read: nat) {
    && NUL in was && |pending| < 4 && |out| + |pending| <= read && Written(now, out, was)
    && Holds(ch, pending) && Progress(Text(was), out, pending, read)
  }

  lemma AtStart(was: seq<byte>)
    requires NUL in was
    ensures Between(was, was, [], [], 0, 0)
  {
    Start(Text(was), 0);
  }

  /** The write index has not passed the read index, so the byte to be read is still the original one. */
  lemma NotOverwritten(was: seq<byte>, now: seq<byte>, out: seq<byte>, pending: seq<sextet>, ch: nat, read: nat)
    requires Between(was, now, out, pending, ch, read)
    ensures |out| <= read <= |Text(was)| < |was| == |now| && now[read] == was[read]
    ensures now[read] == NUL <==> read == |Text(was)|
    ensures read < |Text(was)| ==> now[read] == Text(was)[read]
  {
  }

  lemma SkipByte(was: seq<byte>, now: seq<byte>, out: seq<byte>, pending: seq<sextet>, ch: nat, read: nat)
    requires Between(was, now, out, pending, ch, read) && now[read] != NUL && Sextet(now[read]) == -1
    ensures Between(was, now, out, pending, ch, read + 1)
  {
    NotOverwritten(was, now, out, pending, ch, read);
    NextByte(Text(was), out, pending, read);
    hide Progress, Written, Holds, Text, StrLen, Sextet;
  }

  lemma AtEnd(was: seq<byte>, now: seq<byte>, out: seq<byte>, pending: seq<sextet>, ch: nat, read: nat)
    requires Between(was, now, out, pending, ch, read) && now[read] == NUL
    ensures |out| < |now| && Replaced(now[|out| := NUL], Decode(Sextets(Text(was))), was)
  {
    NotOverwritten(was, now, out, pending, ch, read);
    Finish(Text(was), out, pending);
    hide Decode, Sextets, Progress, Holds;
    assert now[|out| := NUL] == out + [NUL] + was[|out| + 1..];
  }

  /** Lines 232-239. */
  method Keep(data: array<byte>, t: sextet, ch0: nat, i0: nat, write0: nat, ghost was: seq<byte>,
              ghost out0: seq<byte>, ghost pending0: seq<sextet>, ghost read: nat)
    returns (ch: nat, i: nat, write: nat, ghost out: seq<byte>, ghost pending: seq<sextet>)
    requires Between(was, data[..], out0, pending0, ch0, read) && write0 == |out0| && i0 == |pending0|
    requires data[read] != NUL && Sextet(data[read]) == t as int
    modifies data
    ensures Between(was, data[..], out, pending, ch, read + 1) && write == |out| && i == |pending|
  {
    NotOverwritten(was, data[..], out0, pending0, ch0, read);
    NextByte(Text(was), out0, pending0, read);
    AccumulatePending(ch0, pending0, t);
    hide Holds, Progress, Accumulate, Stored, Sextet, Text, StrLen;
    ch := Accumulate(ch0, t as int);
    i := i0 + 1;
    write, out, pending := write0, out0, pending0 + [t];
    if i == 4 {
      NextGroup(Text(was), out, pending, ch, read + 1);
      StoreGroup(data, write, ch, out, was);
      out := out + Stored(ch);
      write := write + 3;
      i := 0;
      pending := [];
    }
  }

  /** The string is replaced by what it encodes. */
  method DecodeBase64(data: array<byte>)
    requires NUL in data[..]
    modifies data
    ensures Replaced(data[..], Decode(Sextets(Text(old(data[..])))), old(data[..]))
  {
    ghost var was, out: seq<byte>, pending: seq<sextet> := data[..], [], [];
    var read, write, ch, i := 0, 0, 0, 0;
    AtStart(was);
    NotOverwritten(was, data[..], out, pending, ch, read);
    hide *;
    while data[read] != NUL
      invariant Between(was, data[..], out, pending, ch, read) && write == |out| && i == |pending|
      invariant read <= |Text(was)| < data.Length == |was|
      decreases |Text(was)| - read
    {
      NotOverwritten(was, data[..], out, pending, ch, read);
      var t := Sextet(data[read]);
      if t == -1 {
        SkipByte(was, data[..], out, pending, ch, read);
      } else {
        ch, i, write, out, pending := Keep(data, t as sextet, ch, i, write, was, out, pending, read);
      }
      read := read + 1;
    }
    AtEnd(was, data[..], out, pending, ch, read);
    ghost var now := data[..];
    data[write] := NUL;
    assert data[..] == now[write := NUL];
  }

  // Section 4 of RFC 4648

  function Quad(b0: byte, b1: byte, b2: byte): (q: seq<sextet>)
    ensures |q| == 4
  {
    [(b0 as int / 4) as sextet,
     (b0 as int % 4 * 16 + b1 as int / 16) as sextet,
     (b1 as int % 16 * 4 + b2 as int / 64) as sextet,
     (b2 as int % 64) as sextet]
  }

  function Letters(q: seq<sextet>): (c: seq<byte>)
    ensures |c| == |q| && forall i :: 0 <= i < |q| ==> c[i] == Letter(q[i])
  {
    seq(|q|, i requires 0 <= i < |q| => Letter(q[i]))
  }

  /** The letters for the first three octets, or for all of fewer. */
  function Group(plain: seq<byte>): (c: seq<byte>)
    requires plain != []
    ensures |c| == 4
  {
    if |plain| == 1 then Letters(Quad(plain[0], 0, 0)[..2]) + [PAD, PAD]
    else if |plain| == 2 then Letters(Quad(plain[0], plain[1], 0)[..3]) + [PAD]
    else Letters(Quad(plain[0], plain[1], plain[2]))
  }

  function Later(plain: seq<byte>): seq<byte>
    requires plain != []
  {
    if |plain| < 3 then [] else plain[3..]
  }

  function Encode(plain: seq<byte>): seq<byte>
    decreases |plain|
  {
    if plain == [] then [] else Group(plain) + Encode(Later(plain))
  }

  /** The octets that the padding decodes to. */
  function Padding(n: nat): seq<byte> {
    if n % 3 == 0 then [] else if n % 3 == 1 then [NUL, NUL] else [NUL]
  }

  lemma OctetsInvertQuad(b0: byte, b1: byte, b2: byte)
    ensures var q := Quad(b0, b1, b2); Octets(q[0], q[1], q[2], q[3]) == [b0, b1, b2]
  {
  }

  lemma SextetsOfFour(c: seq<byte>, q: seq<sextet>, later: seq<byte>)
    requires |c| == 4 == |q| && forall i :: 0 <= i < 4 ==> Sextet(c[i]) == q[i] as int
    ensures Sextets(c + later) == q + Sextets(later)
  {
    hide Sextet;
    var s := c + later;
    assert s[1..][1..][1..][1..] == later;
    assert Sextets(s[1..][1..][1..]) == [q[3]] + Sextets(later);
    assert Sextets(s[1..][1..]) == [q[2], q[3]] + Sextets(later);
    assert Sextets(s[1..]) == [q[1], q[2], q[3]] + Sextets(later);
    assert Sextets(s) == [q[0], q[1], q[2], q[3]] + Sextets(later);
    assert q == [q[0], q[1], q[2], q[3]];
  }

  /** Four letters, in front of whatever follows. */
  lemma DecodeQuad(c: seq<byte>, b0: byte, b1: byte, b2: byte, later: seq<byte>)
    requires |c| == 4 && forall i :: 0 <= i < 4 ==> Sextet(c[i]) == Quad(b0, b1, b2)[i] as int
    ensures Decode(Sextets(c + later)) == [b0, b1, b2] + Decode(Sextets(later))
  {
    var q := Quad(b0, b1, b2);
    SextetsOfFour(c, q, later);
    OctetsInvertQuad(b0, b1, b2);
    hide Octets, Sextets, Sextet, Quad;
    assert (q + Sextets(later))[4..] == Sextets(later);
  }

  lemma LetterSextet(v: sextet)
    ensures Sextet(Letter(v)) == v as int
  {
  }

  lemma GroupSextets(plain: seq<byte>, i: nat)
    requires plain != [] && i < 4
    ensures Sextet(Group(plain)[i])
            == Quad(plain[0], if |plain| > 1 then plain[1] else 0, if |plain| > 2 then plain[2] else 0)[i] as int
  {
    var q := Quad(plain[0], if |plain| > 1 then plain[1] else 0, if |plain| > 2 then plain[2] else 0);
    LetterSextet(q[i]);
  }

  lemma {:induction false} DecodeInvertsEncode(plain: seq<byte>)
    ensures Decode(Sextets(Encode(plain))) == plain + Padding(|plain|)
    decreases |plain|
  {
    if plain != [] {
      var b1: byte := if |plain| > 1 then plain[1] else 0;
      var b2: byte := if |plain| > 2 then plain[2] else 0;
      DecodeInvertsEncode(Later(plain));
      forall i | 0 <= i < 4 ensures Sextet(Group(plain)[i]) == Quad(plain[0], b1, b2)[i] as int {
        GroupSextets(plain, i);
      }
      DecodeQuad(Group(plain), plain[0], b1, b2, Encode(Later(plain)));
      PaddedOctets(plain);
      hide Sextets, Decode, Quad, Sextet, Letter, Group, Later, Padding;
    }
  }

  lemma PaddedOctets(plain: seq<byte>)
    requires plain != []
    ensures plain + Padding(|plain|)
            == [plain[0], if |plain| > 1 then plain[1] else 0, if |plain| > 2 then plain[2] else 0]
               + (Later(plain) + Padding(|Later(plain)|))
  {
  }

  // Bytes outside the alphabet

  function WithoutNoise(s: seq<byte>): seq<byte> {
    if s == [] then []
    else if Sextet(s[0]) == -1 then WithoutNoise(s[1..])
    else [s[0]] + WithoutNoise(s[1..])
  }

  lemma {:induction false} NoiseIsSkipped(s: seq<byte>)
    ensures Sextets(WithoutNoise(s)) == Sextets(s)
  {
    if s != [] {
      NoiseIsSkipped(s[1..]);
      hide Sextet;
      assert ([s[0]] + WithoutNoise(s[1..]))[1..] == WithoutNoise(s[1..]);
    }
  }

  lemma PaddingEnds(plain: seq<byte>, rest: seq<byte>)
    ensures NUL in plain + Padding(|plain|) + [NUL] + rest
    ensures Text(plain + Padding(|plain|) + [NUL] + rest) == plain <==> NUL !in plain
  {
    var later := if |plain| % 3 == 0 then rest else if |plain| % 3 == 1 then [NUL, NUL] + rest else [NUL] + rest;
    assert plain + Padding(|plain|) + [NUL] + rest == plain + [NUL] + later;
    Terminated(plain, later);
  }

  /**
    Decoding the encoding of any octets, with any bytes outside the alphabet in between,
    leaves a C string that is equal to them exactly when they contain no NUL.
   */
  lemma RoundTrip(was: seq<byte>, now: seq<byte>, plain: seq<byte>)
    requires NUL in was && WithoutNoise(Text(was)) == Encode(plain)
    requires Replaced(now, Decode(Sextets(Text(was))), was)
    ensures NUL in now
    ensures Text(now) == plain <==> NUL !in plain
  {
    NoiseIsSkipped(Text(was));
    DecodeInvertsEncode(plain);
    hide Decode, Sextets, Encode, WithoutNoise, Text, StrLen, Padding;
    PaddingEnds(plain, was[|plain + Padding(|plain|)| + 1..]);
  }
}
