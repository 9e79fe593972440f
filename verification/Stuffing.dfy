/**
  Byte stuffing in entropy-coded segments (ITU-T T.81, F.1.2.3), and the bytes that the
  refill loops of `readXC` take out of memory. The memory is a function, so that what lies
  behind the segment is arbitrary.
 */
module Stuffing {
  import opened Bits

  // What the refill loop does

  /** The data bytes that one pass of the refill loop shifts in (lines 139-149). */
  function PassBytes(mem: Memory, p: nat): (b: seq<byte>)
    ensures 1 <= |b| <= 2
  {
    if mem(p) != 0xFF then [mem(p)]
    else if mem(p + 1) == 0 then [0xFF, mem(p + 2)]
    else [0xFF, mem(p + 1)]
  }

  function PassEnd(mem: Memory, p: nat): (q: nat)
    ensures p < q <= p + 3
  {
    if mem(p) != 0xFF then p + 1 else if mem(p + 1) == 0 then p + 3 else p + 2
  }

  /** `Gpos` after `n` passes over a scan whose data begin at `start`. */
  function Position(mem: Memory, start: nat, n: nat): (p: nat)
    ensures p >= start + 2 + n
  {
    if n == 0 then start + 2 else PassEnd(mem, Position(mem, start, n - 1))
  }

  /** All bytes delivered after `n` passes; the first two are loaded as they are (lines 133-134). */
  function Delivered(mem: Memory, start: nat, n: nat): (b: seq<byte>)
    ensures |b| >= 2 + n
  {
    if n == 0 then [mem(start), mem(start + 1)]
    else Delivered(mem, start, n - 1) + PassBytes(mem, Position(mem, start, n - 1))
  }

  lemma {:induction false} DeliveredGrows(mem: Memory, start: nat, m: nat, n: nat)
    requires m <= n
    ensures Delivered(mem, start, m) <= Delivered(mem, start, n)
    decreases n
  {
    if m < n {
      DeliveredGrows(mem, start, m, n - 1);
    }
  }

  /** One more pass, spelled out. */
  lemma OnePass(mem: Memory, start: nat, n: nat)
    ensures |Delivered(mem, start, n)| >= 2 + n
    ensures Delivered(mem, start, n + 1)
         == Delivered(mem, start, n) + PassBytes(mem, Position(mem, start, n))
    ensures Position(mem, start, n + 1) == PassEnd(mem, Position(mem, start, n))
  {
  }

  /** The i-th byte that the reader will ever see. */
  function ByteAt(mem: Memory, start: nat, i: nat): byte {
    Delivered(mem, start, i)[i]
  }

  lemma DeliveredAt(mem: Memory, start: nat, n: nat, i: nat)
    requires i < |Delivered(mem, start, n)|
    ensures Delivered(mem, start, n)[i] == ByteAt(mem, start, i)
  {
    if n <= i {
      DeliveredGrows(mem, start, n, i);
    } else {
      DeliveredGrows(mem, start, i, n);
    }
  }

  // What the encoder does

  /** F.1.2.3: a zero byte is stuffed behind every 0xFF. */
  function Stuff(data: seq<byte>): (s: seq<byte>)
    ensures |s| >= |data|
  {
    if data == [] then [] else
      var n := |data| - 1;
      Stuff(data[..n]) + (if data[n] == 0xFF then [0xFF, 0] else [data[n]])
  }

  ghost predicate At(mem: Memory, p: nat, s: seq<byte>) {
    forall i :: 0 <= i < |s| ==> mem(p + i) == s[i]
  }

  lemma {:induction false} StuffPrefix(data: seq<byte>, n: nat)
    requires n <= |data|
    ensures Stuff(data[..n]) <= Stuff(data)
    decreases |data|
  {
    if n == |data| {
      assert data[..n] == data;
    } else {
      var m := |data| - 1;
      assert data[..m][..n] == data[..n];
      StuffPrefix(data[..m], n);
    }
  }

  lemma StuffStep(data: seq<byte>, n: nat)
    requires n < |data|
    ensures Stuff(data[..n + 1]) == Stuff(data[..n]) + (if data[n] == 0xFF then [0xFF, 0] else [data[n]])
  {
    assert data[..n + 1][..n] == data[..n];
  }

  /** Where the stuffed form of the n-th byte begins in memory. */
  function Place(start: nat, data: seq<byte>, n: nat): nat
    requires n <= |data|
  {
    if n == 0 then start else Place(start, data, n - 1) + (if data[n - 1] == 0xFF then 2 else 1)
  }

  lemma {:induction false} PlaceIsLength(start: nat, data: seq<byte>, n: nat)
    requires n <= |data|
    ensures Place(start, data, n) == start + |Stuff(data[..n])|
  {
    if n == 0 {
      assert data[..0] == [];
    } else {
      PlaceIsLength(start, data, n - 1);
      StuffStep(data, n - 1);
    }
  }

  /** Memory holds the stuffed form of `data`, byte by byte. */
  ghost predicate Holds(mem: Memory, start: nat, data: seq<byte>) {
    forall n {:trigger Place(start, data, n)} :: 0 <= n < |data| ==>
      && mem(Place(start, data, n)) == data[n]
      && (data[n] == 0xFF ==> mem(Place(start, data, n) + 1) == 0)
  }

  lemma HoldsAt(mem: Memory, start: nat, data: seq<byte>, n: nat)
    requires At(mem, start, Stuff(data)) && n < |data|
    ensures mem(Place(start, data, n)) == data[n]
    ensures data[n] == 0xFF ==> mem(Place(start, data, n) + 1) == 0
  {
    PlaceIsLength(start, data, n);
    StuffStep(data, n);
    StuffPrefix(data, n + 1);
    hide Stuff, Place;
    var s, t, q := Stuff(data), Stuff(data[..n + 1]), |Stuff(data[..n])|;
    assert s[q] == t[q];
    if data[n] == 0xFF {
      assert s[q + 1] == t[q + 1];
    }
  }

  lemma StuffedHolds(mem: Memory, start: nat, data: seq<byte>)
    requires At(mem, start, Stuff(data))
    ensures Holds(mem, start, data)
  {
    forall n {:trigger Place(start, data, n)} | 0 <= n < |data|
      ensures mem(Place(start, data, n)) == data[n]
      ensures data[n] == 0xFF ==> mem(Place(start, data, n) + 1) == 0
    {
      HoldsAt(mem, start, data, n);
    }
  }

  // Where the two agree

  /** A place where the reader takes the stuffed zero for data. */
  predicate Missed(data: seq<byte>, i: nat) {
    i < |data| && data[i] == 0xFF && (i < 2 || data[i - 1] == 0xFF)
  }

  ghost predicate NoneMissed(data: seq<byte>, k: nat) {
    forall i :: 0 <= i < k ==> !Missed(data, i)
  }

  /** The reader sees `data` at the beginning of the scan. */
  ghost predicate Delivers(mem: Memory, start: nat, data: seq<byte>) {
    forall i :: 0 <= i < |data| ==> ByteAt(mem, start, i) == data[i]
  }

  /** After `n` passes, when no zero is missed among the first `k` bytes. */
  ghost predicate Following(mem: Memory, start: nat, data: seq<byte>, k: nat, n: nat)
    requires k <= |data|
  {
    var m := |Delivered(mem, start, n)|;
    && (m <= k ==> Position(mem, start, n) == Place(start, data, m) && data[m - 1] != 0xFF)
    && forall i :: 0 <= i < m && i < k ==> Delivered(mem, start, n)[i] == data[i]
  }

  /** The places of the first bytes, which the reader loads as they are. */
  lemma FirstPlaces(mem: Memory, start: nat, data: seq<byte>)
    requires Holds(mem, start, data) && |data| >= 1
    ensures Place(start, data, 0) == start && mem(start) == data[0]
    ensures data[0] == 0xFF ==> mem(start + 1) == 0
    ensures data[0] != 0xFF ==> Place(start, data, 1) == start + 1
    ensures |data| >= 2 && data[0] != 0xFF ==>
      && mem(start + 1) == data[1]
      && Place(start, data, 2) == if data[1] == 0xFF then start + 3 else start + 2
  {
    assert Place(start, data, 0) == start;
    if |data| >= 2 {
      assert Place(start, data, 1) == if data[0] == 0xFF then start + 2 else start + 1;
    }
  }

  lemma FollowStart(mem: Memory, start: nat, data: seq<byte>, k: nat)
    requires Holds(mem, start, data) && k <= |data| && NoneMissed(data, k)
    ensures Following(mem, start, data, k, 0)
  {
    if k >= 1 {
      FirstPlaces(mem, start, data);
      assert !Missed(data, 0);
    }
    if k >= 2 {
      assert !Missed(data, 1);
    }
  }

  lemma FollowPass(mem: Memory, start: nat, data: seq<byte>, k: nat, n: nat)
    requires Holds(mem, start, data) && k <= |data| && NoneMissed(data, k)
    requires Following(mem, start, data, k, n)
    ensures Following(mem, start, data, k, n + 1)
  {
    hide Delivered, Position;
    OnePass(mem, start, n);
    var m, p := |Delivered(mem, start, n)|, Position(mem, start, n);
    if m < k {
      assert mem(p) == data[m];
      assert Place(start, data, m + 1) == if data[m] == 0xFF then p + 2 else p + 1;
      if data[m] == 0xFF && m + 1 < k {
        assert !Missed(data, m + 1);
        assert mem(p + 2) == data[m + 1] != 0xFF;
        assert Place(start, data, m + 2) == p + 3;
      }
    }
  }

  /** As long as no zero is missed the reader stays in step. */
  lemma {:induction false} Follow(mem: Memory, start: nat, data: seq<byte>, k: nat, n: nat)
    requires Holds(mem, start, data) && k <= |data| && NoneMissed(data, k)
    ensures Following(mem, start, data, k, n)
  {
    hide Holds, NoneMissed, Following;
    if n == 0 {
      FollowStart(mem, start, data, k);
    } else {
      Follow(mem, start, data, k, n - 1);
      FollowPass(mem, start, data, k, n - 1);
    }
  }

  ghost predicate ZeroBetween(data: seq<byte>, k: nat, j: nat)
    requires j <= |data|
  {
    forall t :: k < t < j ==> data[t] == 0
  }

  /** Behind a missed zero, zero data leave zero bytes in memory. */
  lemma {:induction false} ZeroRun(mem: Memory, start: nat, data: seq<byte>, k: nat, j: nat)
    requires Holds(mem, start, data) && k < j <= |data| && data[k] == 0xFF && ZeroBetween(data, k, j)
    ensures forall p :: Place(start, data, k) < p <= Place(start, data, k) + (j - k) ==> mem(p) == 0
    ensures Place(start, data, j) == Place(start, data, k) + 1 + (j - k)
    decreases j
  {
    if j > k + 1 {
      ZeroRun(mem, start, data, k, j - 1);
      assert mem(Place(start, data, j - 1)) == data[j - 1] == 0;
    }
  }

  /** After `n` passes, when `k` is the first missed zero and data are zero up to `j`. */
  ghost predicate Lagging(mem: Memory, start: nat, data: seq<byte>, k: nat, j: nat, n: nat)
    requires k <= |data|
  {
    var m := |Delivered(mem, start, n)|;
    && (k < m <= j ==> Position(mem, start, n) == Place(start, data, k) + (m - k))
    && (k < m ==> Delivered(mem, start, n)[k] == 0xFF)
    && forall i :: k < i < m && i <= j ==> Delivered(mem, start, n)[i] == 0
  }

  lemma LagStart(mem: Memory, start: nat, data: seq<byte>, k: nat, j: nat)
    requires Holds(mem, start, data) && k < j <= |data| && Missed(data, k) && NoneMissed(data, k)
    ensures Lagging(mem, start, data, k, j, 0)
  {
    if k < 2 {
      FirstPlaces(mem, start, data);
      assert k == 1 ==> !Missed(data, 0);
    }
  }

  lemma LagEnters(mem: Memory, start: nat, data: seq<byte>, k: nat, j: nat, n: nat)
    requires Holds(mem, start, data) && k < j <= |data| && Missed(data, k) && NoneMissed(data, k)
    requires |Delivered(mem, start, n)| <= k && Following(mem, start, data, k, n)
    ensures Lagging(mem, start, data, k, j, n + 1)
  {
    hide Delivered, Position;
    OnePass(mem, start, n);
    var m, p := |Delivered(mem, start, n)|, Position(mem, start, n);
    assert mem(p) == data[m];
    if m + 1 == k {
      assert Place(start, data, k) == p + 2;
      assert mem(p + 2) == 0xFF;
    } else {
      assert m < k;
    }
  }

  lemma LagContinues(mem: Memory, start: nat, data: seq<byte>, k: nat, j: nat, n: nat)
    requires Holds(mem, start, data) && k < j <= |data| && data[k] == 0xFF && ZeroBetween(data, k, j)
    requires k < |Delivered(mem, start, n)| && Lagging(mem, start, data, k, j, n)
    ensures Lagging(mem, start, data, k, j, n + 1)
  {
    hide Delivered, Position, Holds, ZeroBetween, Place;
    OnePass(mem, start, n);
    ZeroRun(mem, start, data, k, j);
  }

  /** After the first missed zero the reader is one byte behind, and reads zeros as long as data are zero. */
  lemma {:induction false} Lag(mem: Memory, start: nat, data: seq<byte>, k: nat, j: nat, n: nat)
    requires Holds(mem, start, data) && k < j <= |data| && Missed(data, k) && NoneMissed(data, k)
    requires ZeroBetween(data, k, j)
    ensures Lagging(mem, start, data, k, j, n)
  {
    hide Holds, NoneMissed, ZeroBetween, Lagging, Following;
    if n == 0 {
      LagStart(mem, start, data, k, j);
    } else {
      Lag(mem, start, data, k, j, n - 1);
      if |Delivered(mem, start, n - 1)| <= k {
        Follow(mem, start, data, k, n - 1);
        LagEnters(mem, start, data, k, j, n - 1);
      } else {
        LagContinues(mem, start, data, k, j, n - 1);
      }
    }
  }

  /** What is seen at and behind the first missed zero. */
  lemma SeenBehindMissed(mem: Memory, start: nat, data: seq<byte>, k: nat, j: nat)
    requires Holds(mem, start, data) && k <= j < |data| && Missed(data, k) && NoneMissed(data, k)
    requires ZeroBetween(data, k, j)
    ensures ByteAt(mem, start, j) == if j == k then 0xFF else 0
  {
    hide Holds, Place, Position, Missed, NoneMissed;
    Lag(mem, start, data, k, if j == k then j + 1 else j, j);
  }

  lemma SeenBeforeMissed(mem: Memory, start: nat, data: seq<byte>, k: nat)
    requires Holds(mem, start, data) && k <= |data| && NoneMissed(data, k)
    ensures forall i :: 0 <= i < k ==> ByteAt(mem, start, i) == data[i]
  {
    hide Holds, Place, Position, NoneMissed;
    forall i | 0 <= i < k ensures ByteAt(mem, start, i) == data[i] {
      Follow(mem, start, data, k, i);
    }
  }

  /** The first place where a stuffed zero is missed, or |data|. */
  function FirstMissed(data: seq<byte>, k: nat): (r: nat)
    requires k <= |data| && NoneMissed(data, k)
    ensures k <= r <= |data| && NoneMissed(data, r)
    ensures r < |data| ==> Missed(data, r)
    decreases |data| - k
  {
    if k == |data| || Missed(data, k) then k else FirstMissed(data, k + 1)
  }

  lemma {:induction false} ZerosSeen(mem: Memory, start: nat, data: seq<byte>, k: nat, j: nat)
    requires Holds(mem, start, data) && k < j <= |data| && Missed(data, k) && NoneMissed(data, k)
    requires Delivers(mem, start, data)
    ensures ZeroBetween(data, k, j)
    decreases j
  {
    hide Holds, Delivered, ByteAt;
    if j > k + 1 {
      ZerosSeen(mem, start, data, k, j - 1);
      SeenBehindMissed(mem, start, data, k, j - 1);
    }
  }

  /** The condition on the data: behind a missed zero everything is zero. */
  ghost predicate ZeroBehindMissed(data: seq<byte>) {
    forall i, j :: 0 <= i < j < |data| && Missed(data, i) ==> data[j] == 0
  }

  /**
    The reader undoes byte stuffing exactly when every data byte behind a missed zero is
    itself zero. F.1.2.3 promises it for all data; the two places where the code falls short
    are an 0xFF among the first two bytes and an 0xFF right behind an 0xFF.
   */
  lemma UnstuffingIff(mem: Memory, start: nat, data: seq<byte>)
    requires At(mem, start, Stuff(data))
    ensures Delivers(mem, start, data) <==> ZeroBehindMissed(data)
  {
    hide Stuff, At, Delivered, ByteAt, Holds;
    StuffedHolds(mem, start, data);
    var k := FirstMissed(data, 0);
    SeenBeforeMissed(mem, start, data, k);
    if k < |data| {
      if Delivers(mem, start, data) {
        ZerosSeen(mem, start, data, k, |data|);
        NothingElseMissed(data, k);
      }
      if ZeroBehindMissed(data) {
        forall j | k <= j < |data| ensures ByteAt(mem, start, j) == data[j] {
          SeenBehindMissed(mem, start, data, k, j);
        }
      }
    }
  }

  lemma NothingElseMissed(data: seq<byte>, k: nat)
    requires k < |data| && NoneMissed(data, k) && ZeroBetween(data, k, |data|)
    ensures ZeroBehindMissed(data)
  {
  }
}
