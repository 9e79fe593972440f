/**
  `is_huffman` and `memcpy_picture` of v4l2uvc.c: a picture without Huffman tables gets
  the standard ones in front of its frame header (`StandardTables` has them). The scans are not limited by the size of
  the picture, so memory is a total function and bytes outside the picture are arbitrary.
 */
module DhtSplice {
  import opened Bits

  const SOF0: nat := 0xFFC0
  const DHT: nat := 0xFFC4
  const SOS: nat := 0xFFDA
  const SCANNED: nat := 2048

  /** `(p[0] << 8) | p[1]` */
  function Pair(m: Memory, p: nat): nat {
    m(p) as nat * 256 + m(p + 1) as nat
  }

  function Region(m: Memory, lo: nat, hi: nat): (s: seq<byte>)
    requires lo <= hi
    ensures |s| == hi - lo && forall i :: 0 <= i < hi - lo ==> s[i] == m(lo + i)
  {
    seq(hi - lo, i requires 0 <= i => m(lo + i))
  }

  ghost predicate NoneBefore(m: Memory, code: nat, p: nat) {
    forall j: nat :: j < p ==> Pair(m, j) != code
  }

  /** A DHT marker that the scan reaches: in one of the first 2049 places, before any SOS. */
  ghost predicate DhtSeen(m: Memory, p: nat) {
    p <= SCANNED && Pair(m, p) == DHT && NoneBefore(m, SOS, p)
  }

  ghost predicate HasTables(m: Memory) {
    exists p: nat :: DhtSeen(m, p)
  }

  ghost predicate FirstFrameHeader(m: Memory, size: nat, p: nat) {
    p < size && Pair(m, p) == SOF0 && NoneBefore(m, SOF0, p)
  }

  /** What `memcpy_picture` makes of a picture, as a relation to the picture. */
  ghost predicate Completed(m: Memory, size: nat, dht: seq<byte>, out: seq<byte>) {
    if HasTables(m) then out == Region(m, 0, size)
    else if NoneBefore(m, SOF0, size) then out == []
    else exists p: nat :: FirstFrameHeader(m, size, p) && out == Region(m, 0, p) + dht + Region(m, p, size)
  }

  /** The bytes FF and `low` at place `p`. */
  ghost predicate MarkerAt(m: Memory, p: nat, low: byte) {
    m(p) == 0xFF && m(p + 1) == low
  }

  lemma PairIff(m: Memory, p: nat, low: byte)
    ensures Pair(m, p) == 0xFF00 + low as nat <==> MarkerAt(m, p, low)
  {
  }

  /** In terms of bytes: a picture has tables if FF C4 is in one of 2049 places with no FF DA before it. */
  lemma HasTablesIff(m: Memory)
    ensures HasTables(m)
       <==> exists p: nat :: p <= 2048 && MarkerAt(m, p, 0xC4) && forall j: nat :: j < p ==> !MarkerAt(m, j, 0xDA)
  {
    forall p: nat
      ensures Pair(m, p) == DHT <==> MarkerAt(m, p, 0xC4)
      ensures Pair(m, p) == SOS <==> MarkerAt(m, p, 0xDA)
    {
      PairIff(m, p, 0xC4);
      PairIff(m, p, 0xDA);
    }
    hide Pair, MarkerAt;
    if HasTables(m) {
      var p: nat :| DhtSeen(m, p);
      assert MarkerAt(m, p, 0xC4);
    }
    if p: nat :| p <= 2048 && MarkerAt(m, p, 0xC4) && forall j: nat :: j < p ==> !MarkerAt(m, j, 0xDA) {
      assert DhtSeen(m, p);
    }
  }

  /** And its frame header is the first FF C0. */
  lemma FrameHeaderIff(m: Memory, size: nat, p: nat)
    ensures FirstFrameHeader(m, size, p)
       <==> p < size && MarkerAt(m, p, 0xC0) && forall j: nat :: j < p ==> !MarkerAt(m, j, 0xC0)
    ensures NoneBefore(m, SOF0, size) <==> forall j: nat :: j < size ==> !MarkerAt(m, j, 0xC0)
  {
    forall p: nat ensures Pair(m, p) == SOF0 <==> MarkerAt(m, p, 0xC0) {
      PairIff(m, p, 0xC0);
    }
    hide Pair, MarkerAt;
  }

  method IsHuffman(m: Memory) returns (found: bool)
    ensures found <==> HasTables(m)
  {
    var p, i := 0, 0;
    while Pair(m, p) != SOS
      invariant i == p <= SCANNED + 1 && NoneBefore(m, SOS, p)
      invariant forall j: nat :: j < p ==> Pair(m, j) != DHT
      decreases SCANNED + 2 - p
    {
      var old_i := i;
      i := i + 1;
      if old_i > SCANNED {
        return false;
      }
      if Pair(m, p) == DHT {
        assert DhtSeen(m, p);
        return true;
      }
      p := p + 1;
    }
    return false;
  }

  method Memcpy(out: array<byte>, pos: nat, bytes: seq<byte>) returns (end: nat)
    requires pos + |bytes| <= out.Length
    modifies out
    ensures end == pos + |bytes|
    ensures out[..end] == old(out[..pos]) + bytes
    ensures forall i :: end <= i < out.Length ==> out[i] == old(out[i])
  {
    forall i | 0 <= i < |bytes| {
      out[pos + i] := bytes[i];
    }
    end := pos + |bytes|;
  }

  /** The output buffer holds the completed picture, and nothing behind it changes. */
  method MemcpyPicture(out: array<byte>, m: Memory, size: nat, dht: seq<byte>) returns (pos: nat)
    requires size + |dht| <= out.Length
    modifies out
    ensures pos <= out.Length && Completed(m, size, dht, out[..pos])
    ensures forall i :: pos <= i < out.Length ==> out[i] == old(out[i])
  {
    pos := 0;
    var huffman := IsHuffman(m);
    if !huffman {
      var p := 0;
      while Pair(m, p) != SOF0 && p < size
        invariant p <= size && NoneBefore(m, SOF0, p)
        decreases size - p
      {
        p := p + 1;
      }
      if p >= size {
        return;
      }
      assert FirstFrameHeader(m, size, p);
      pos := Memcpy(out, pos, Region(m, 0, p));
      pos := Memcpy(out, pos, dht);
      pos := Memcpy(out, pos, Region(m, p, size));
    } else {
      pos := Memcpy(out, pos, Region(m, 0, size));
    }
  }

  // What completing a picture means

  lemma FirstIsUnique(m: Memory, size: nat, p: nat, q: nat)
    requires FirstFrameHeader(m, size, p) && FirstFrameHeader(m, size, q)
    ensures p == q
  {
  }

  /** Exactly one result. */
  lemma CompletedUnique(m: Memory, size: nat, dht: seq<byte>, a: seq<byte>, b: seq<byte>)
    requires Completed(m, size, dht, a) && Completed(m, size, dht, b)
    ensures a == b
  {
    if !HasTables(m) && !NoneBefore(m, SOF0, size) {
      var p: nat :| FirstFrameHeader(m, size, p) && a == Region(m, 0, p) + dht + Region(m, p, size);
      var q: nat :| FirstFrameHeader(m, size, q) && b == Region(m, 0, q) + dht + Region(m, q, size);
      FirstIsUnique(m, size, p, q);
    }
  }

  /** Taking the inserted bytes out again gives the picture back. */
  lemma Removable(m: Memory, size: nat, p: nat, dht: seq<byte>, out: seq<byte>)
    requires !HasTables(m) && FirstFrameHeader(m, size, p) && Completed(m, size, dht, out)
    ensures out[..p] + out[p + |dht|..] == Region(m, 0, size)
    ensures out[p..p + |dht|] == dht
  {
    CompletedUnique(m, size, dht, out, Region(m, 0, p) + dht + Region(m, p, size));
  }

  ghost predicate Holds(m: Memory, s: seq<byte>) {
    forall i :: 0 <= i < |s| ==> m(i) == s[i]
  }

  /** In front of the inserted tables the picture has the markers that it had. */
  lemma SameBefore(m: Memory, size: nat, p: nat, dht: seq<byte>, n: Memory, j: nat)
    requires |dht| >= 2 && dht[0] == 0xFF && FirstFrameHeader(m, size, p) && j < p
    requires Holds(n, Region(m, 0, p) + dht + Region(m, p, size))
    ensures Pair(n, j) == Pair(m, j)
  {
    var out := Region(m, 0, p) + dht + Region(m, p, size);
    assert out[j] == n(j) && out[j + 1] == n(j + 1);
    assert m(p) == 0xFF;
  }

  lemma TablesSeenIff(m: Memory, size: nat, p: nat, dht: seq<byte>, n: Memory)
    requires |dht| >= 2 && dht[0] == 0xFF && dht[1] == 0xC4
    requires !HasTables(m) && FirstFrameHeader(m, size, p)
    requires Holds(n, Region(m, 0, p) + dht + Region(m, p, size))
    ensures HasTables(n) <==> p <= SCANNED && NoneBefore(m, SOS, p)
  {
    var out := Region(m, 0, p) + dht + Region(m, p, size);
    forall j: nat | j < p ensures Pair(n, j) == Pair(m, j) {
      SameBefore(m, size, p, dht, n, j);
    }
    assert out[p] == n(p) && out[p + 1] == n(p + 1);
    if p <= SCANNED && NoneBefore(m, SOS, p) {
      assert DhtSeen(n, p);
    }
    if HasTables(n) {
      var q: nat :| DhtSeen(n, q);
      if q < p {
        assert DhtSeen(m, q);
      }
    }
  }

  /**
    Completing a completed picture changes nothing exactly when the scan of the result
    reaches the inserted tables: the frame header is in one of the first 2049 places and
    no SOS marker comes before it.
   */
  lemma AgainIff(m: Memory, size: nat, p: nat, dht: seq<byte>, out: seq<byte>, n: Memory, again: seq<byte>)
    requires |dht| >= 2 && dht[0] == 0xFF && dht[1] == 0xC4
    requires !HasTables(m) && FirstFrameHeader(m, size, p) && Completed(m, size, dht, out)
    requires Holds(n, out) && Completed(n, |out|, dht, again)
    ensures again == out <==> p <= SCANNED && NoneBefore(m, SOS, p)
  {
    CompletedUnique(m, size, dht, out, Region(m, 0, p) + dht + Region(m, p, size));
    TablesSeenIff(m, size, p, dht, n);
    if HasTables(n) {
      assert again == Region(n, 0, |out|) == out;
    } else {
      assert again == [] || |again| > |out|;
    }
  }
}
