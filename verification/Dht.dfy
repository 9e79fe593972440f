/**
  The DHT branch of getFrameSharpnessValue: reading the tables of one DHT marker segment
  (ITU-T T.81, B.2.4.2) into the lookup arrays.
 */
module Dht {
  import opened Bits
  import opened Huffman

  /** One table of a DHT segment, as B.2.4.2 lays it out. */
  datatype TableSpec = TableSpec(tableClass: nat, destination: nat, counts: seq<byte>, symbols: seq<byte>) {

    /** What the segment syntax allows and the C arrays have room for. */
    ghost predicate Valid() {
      && tableClass < 16 && destination < 16 && Slot() < 4
      && |counts| == 16
      && |symbols| == |Sizes(counts)| <= 162
    }

    function Slot(): nat {
      destination * 2 + tableClass
    }

    function Serialise(): seq<byte> {
      [((tableClass * 16 + destination) % 256) as byte] + counts + symbols
    }

    ghost function Entries(): seq<Entry>
      requires Valid()
    {
      Table(Sizes(counts), symbols)
    }
  }

  ghost predicate AllValid(specs: seq<TableSpec>) {
    forall i :: 0 <= i < |specs| ==> specs[i].Valid()
  }

  /** The first `n` tables of a segment, serialised. */
  function Segment(specs: seq<TableSpec>, n: nat): seq<byte>
    requires n <= |specs|
  {
    if n == 0 then [] else Segment(specs, n - 1) + specs[n - 1].Serialise()
  }

  /** The four tables after `n` tables of a segment: each one replaces what its slot held. */
  ghost function Loaded(tables: seq<seq<Entry>>, specs: seq<TableSpec>, n: nat): (r: seq<seq<Entry>>)
    requires |tables| == 4 && AllValid(specs) && n <= |specs|
    ensures |r| == 4
  {
    if n == 0 then tables
    else Loaded(tables, specs, n - 1)[specs[n - 1].Slot() := specs[n - 1].Entries()]
  }

  /** `code_val` when `k` codes have been given out and the loop stands at length `len`. */
  ghost function NextCode(sizes: seq<nat>, k: nat, len: nat): nat
    requires Ordered(sizes) && k <= |sizes| && (k > 0 ==> sizes[k - 1] <= len)
  {
    if k == 0 then 0 else (Code(sizes, k - 1) + 1) * Pow2(len - sizes[k - 1])
  }

  lemma NextCodeDoubles(sizes: seq<nat>, k: nat, len: nat)
    requires Ordered(sizes) && k <= |sizes| && (k == 0 || sizes[k - 1] <= len)
    ensures NextCode(sizes, k, len + 1) == 2 * NextCode(sizes, k, len)
  {
    hide Code;
    if k > 0 {
      DoubleProduct(Code(sizes, k - 1) + 1, Pow2(len - sizes[k - 1]));
    }
  }

  lemma NoDoubling()
    ensures Pow2(0) == 1
  {
  }

  /** What the innermost loop stores is the next entry of the table. */
  lemma NextEntry(sizes: seq<nat>, symbols: seq<byte>, k: nat, len: nat)
    requires Ordered(sizes) && |symbols| == |sizes| && k < |sizes| && sizes[k] == len
    requires k > 0 ==> sizes[k - 1] <= len
    ensures Table(sizes, symbols)[k] == MakeEntry(NextCode(sizes, k, len), len, symbols[k])
    ensures NextCode(sizes, k + 1, len) == NextCode(sizes, k, len) + 1
  {
    hide MakeEntry, Pow2;
    if k > 0 {
      assert NextCode(sizes, k + 1, len) == (Code(sizes, k) + 1) * Pow2(0);
    }
    NoDoubling();
  }

  lemma {:induction false} SizesPrefix(counts: seq<byte>, n: nat)
    requires n <= |counts|
    ensures |Sizes(counts[..n])| <= |Sizes(counts)|
    ensures Sizes(counts)[..|Sizes(counts[..n])|] == Sizes(counts[..n])
    decreases |counts|
  {
    if n == |counts| {
      assert counts[..n] == counts;
    } else {
      var m := |counts| - 1;
      assert counts[..m][..n] == counts[..n];
      SizesPrefix(counts[..m], n);
    }
  }

  /** The codes of length `n + 1` occupy consecutive places in the table. */
  lemma SizesOfLength(counts: seq<byte>, n: nat)
    requires n < |counts|
    ensures var k := |Sizes(counts[..n])|; var c := counts[n] as nat;
            && |Sizes(counts[..n + 1])| == k + c <= |Sizes(counts)|
            && forall i :: k <= i < k + c ==> Sizes(counts)[i] == n + 1
  {
    var p := counts[..n + 1];
    assert p[..n] == counts[..n];
    SizesPrefix(counts, n + 1);
    var s, t := Sizes(counts), Sizes(p);
    forall i | |Sizes(counts[..n])| <= i < |t| ensures s[i] == n + 1 {
      assert s[..|t|][i] == t[i];
    }
  }

  lemma NothingCodedYet(counts: seq<byte>)
    requires |counts| <= 16
    ensures Sizes(counts[..0]) == [] && Ordered(Sizes(counts))
    ensures NextCode(Sizes(counts), 0, 1) == 0
  {
    assert counts[..0] == [];
  }

  /** Where the fields of a serialised table lie. */
  lemma SerialisedBytes(spec: TableSpec, buffer: seq<byte>, pos: nat)
    requires spec.Valid() && pos + |spec.Serialise()| <= |buffer|
    requires buffer[pos..pos + |spec.Serialise()|] == spec.Serialise()
    ensures |spec.Serialise()| == 17 + |spec.symbols|
    ensures var uc := buffer[pos] as int; (uc % 16) * 2 + uc / 16 == spec.Slot()
    ensures forall i :: 0 <= i < 16 ==> buffer[pos + 1 + i] == spec.counts[i]
    ensures forall i :: 0 <= i < |spec.symbols| ==> buffer[pos + 17 + i] == spec.symbols[i]
  {
    var whole := spec.Serialise();
    assert forall i :: 0 <= i < |whole| ==> whole[i] == buffer[pos + i];
    assert forall i :: 0 <= i < 16 ==> whole[1 + i] == spec.counts[i];
    assert forall i :: 0 <= i < |spec.symbols| ==> whole[17 + i] == spec.symbols[i];
  }

  class HuffmanTables {
    const lookup: array2<Entry>
    const size: array<nat>

    ghost predicate Valid()
      reads size
    {
      && lookup.Length0 == 4 && lookup.Length1 == 162 && size.Length == 4
      && forall t :: 0 <= t < 4 ==> size[t] <= 162
    }

    ghost function Table(tab: nat): (t: seq<Entry>)
      requires Valid() && tab < 4
      reads size, lookup
      ensures |t| == size[tab]
    {
      seq(size[tab], k requires 0 <= k < size[tab] <= 162 && tab < lookup.Length0 && lookup.Length1 == 162
                       reads size, lookup => lookup[tab, k])
    }

    ghost function Tables(): (ts: seq<seq<Entry>>)
      requires Valid()
      reads size, lookup
      ensures |ts| == 4
    {
      [Table(0), Table(1), Table(2), Table(3)]
    }

    /** The C arrays are not initialised; what the tables hold at first is left open. */
    constructor ()
      ensures Valid() && fresh(lookup) && fresh(size)
    {
      lookup := new Entry[4, 162];
      size := new nat[4](_ => 0);
    }

    /** The codes of one length: the innermost loop. */
    method ParseLength(buffer: seq<byte>, tab: nat, iLen: nat, codes: nat, ind: nat, code: nat, src: nat,
                       ghost sizes: seq<nat>, ghost symbols: seq<byte>)
      returns (tableInd: nat, codeVal: nat, pos2: nat)
      requires Valid() && tab < 4 && 1 <= iLen <= 16
      requires Ordered(sizes) && |symbols| == |sizes| <= 162 && ind + codes <= |sizes|
      requires forall k :: ind <= k < ind + codes ==> sizes[k] == iLen
      requires ind > 0 ==> sizes[ind - 1] <= iLen
      requires code == NextCode(sizes, ind, iLen)
      requires ind <= src && src - ind + |symbols| <= |buffer|
      requires forall k :: 0 <= k < |symbols| ==> buffer[src - ind + k] == symbols[k]
      requires forall k :: 0 <= k < ind ==> lookup[tab, k] == Huffman.Table(sizes, symbols)[k]
      modifies lookup
      ensures tableInd == ind + codes && pos2 == src + codes
      ensures codeVal == NextCode(sizes, tableInd, iLen)
      ensures forall k :: 0 <= k < tableInd ==> lookup[tab, k] == Huffman.Table(sizes, symbols)[k]
      ensures forall t, k :: 0 <= t < 4 && 0 <= k < 162 && t != tab ==> lookup[t, k] == old(lookup[t, k])
    {
      hide MakeEntry, NextCode, Code, Huffman.Table;
      tableInd, codeVal, pos2 := ind, code, src;
      ghost var entries := Huffman.Table(sizes, symbols);
      for indCode := 0 to codes
        invariant tableInd == ind + indCode && pos2 == src + indCode
        invariant tableInd > 0 ==> sizes[tableInd - 1] <= iLen
        invariant codeVal == NextCode(sizes, tableInd, iLen)
        invariant forall k :: 0 <= k < tableInd ==> lookup[tab, k] == entries[k]
        invariant forall t, k :: 0 <= t < 4 && 0 <= k < 162 && t != tab ==> lookup[t, k] == old(lookup[t, k])
      {
        NextEntry(sizes, symbols, tableInd, iLen);
        var symbol := buffer[pos2];
        assert symbol == buffer[src - ind + tableInd];
        lookup[tab, tableInd] := MakeEntry(codeVal, iLen, symbol);
        pos2 := pos2 + 1;
        tableInd := tableInd + 1;
        codeVal := codeVal + 1;
      }
    }

    /** One pass of the do loop: the table that starts at `pos`. */
    method ParseTable(buffer: seq<byte>, pos: nat, ghost spec: TableSpec) returns (next: nat)
      requires Valid() && spec.Valid()
      requires pos + |spec.Serialise()| <= |buffer|
      requires buffer[pos..pos + |spec.Serialise()|] == spec.Serialise()
      modifies lookup, size
      ensures Valid()
      ensures next == pos + |spec.Serialise()|
      ensures Tables() == old(Tables())[spec.Slot() := spec.Entries()]
    {
      hide NextCode, Code, Sizes, Huffman.Table, TableSpec.Serialise;
      ghost var sizes, entries := Sizes(spec.counts), spec.Entries();
      SerialisedBytes(spec, buffer, pos);
      NothingCodedYet(spec.counts);
      var uc := buffer[pos] as int;
      var tab := (uc % 16) * 2 + uc / 16;
      var p := pos + 1;
      var pos2 := p + 16;
      var tableInd, codeVal := 0, 0;
      for iLen := 1 to 17
        modifies lookup
        invariant Valid()
        invariant tableInd == |Sizes(spec.counts[..iLen - 1])| <= |sizes|
        invariant pos2 == p + 16 + tableInd
        invariant tableInd > 0 ==> sizes[tableInd - 1] <= iLen
        invariant codeVal == NextCode(sizes, tableInd, iLen)
        invariant forall k :: 0 <= k < tableInd ==> lookup[tab, k] == entries[k]
        invariant forall t, k :: 0 <= t < 4 && 0 <= k < 162 && t != tab ==> lookup[t, k] == old(lookup[t, k])
      {
        SizesOfLength(spec.counts, iLen - 1);
        var dhtCodesLen := buffer[p + iLen - 1] as int;
        tableInd, codeVal, pos2 :=
          ParseLength(buffer, tab, iLen, dhtCodesLen, tableInd, codeVal, pos2, sizes, spec.symbols);
        NextCodeDoubles(sizes, tableInd, iLen);
        codeVal := codeVal * 2;
      }
      assert spec.counts[..16] == spec.counts;
      size[tab] := tableInd;
      next := pos2;
      assert Table(tab) == entries;
      forall t | 0 <= t < 4 && t != tab ensures Table(t) == old(Table(t)) {
        assert size[t] == old(size[t]);
      }
    }

    /**
      The DHT loop. `specs` are the tables that lie in the buffer where the loop reads:
      all but the last end before `cnt - 2`, the last one ends there or beyond.
     */
    method ParseDht(buffer: seq<byte>, cnt: int, ghost specs: seq<TableSpec>) returns (pos: nat)
      requires Valid() && AllValid(specs) && specs != []
      requires Segment(specs, |specs|) <= buffer
      requires cnt - 2 <= |Segment(specs, |specs|)|
      requires forall n :: 0 < n < |specs| ==> |Segment(specs, n)| < cnt - 2
      modifies lookup, size
      ensures Valid()
      ensures pos == |Segment(specs, |specs|)|
      ensures Tables() == Loaded(old(Tables()), specs, |specs|)
    {
      hide TableSpec.Serialise, TableSpec.Entries, TableSpec.Slot, TableSpec.Valid, Tables;
      pos := 0;
      ghost var n := 0;
      while true
        invariant Valid() && 0 <= n < |specs|
        invariant pos == |Segment(specs, n)|
        invariant Tables() == Loaded(old(Tables()), specs, n)
        decreases |specs| - n
      {
        SegmentStep(specs, n, buffer);
        pos := ParseTable(buffer, pos, specs[n]);
        n := n + 1;
        assert n < |specs| ==> |Segment(specs, n)| < cnt - 2;
        if !(pos < cnt - 2) {
          break;
        }
      }
    }
  }

  lemma {:induction false} SegmentPrefix(specs: seq<TableSpec>, n: nat, m: nat)
    requires n <= m <= |specs|
    ensures Segment(specs, n) <= Segment(specs, m)
    decreases m
  {
    hide TableSpec.Serialise;
    if n < m {
      SegmentPrefix(specs, n, m - 1);
    }
  }

  /** The n-th table of a segment lies behind the tables before it. */
  lemma SegmentStep(specs: seq<TableSpec>, n: nat, buffer: seq<byte>)
    requires n < |specs| && Segment(specs, |specs|) <= buffer
    ensures var p := |Segment(specs, n)|; var q := p + |specs[n].Serialise()|;
            q <= |buffer| && buffer[p..q] == specs[n].Serialise()
  {
    hide TableSpec.Serialise;
    SegmentPrefix(specs, n + 1, |specs|);
    var a, b := Segment(specs, n), specs[n].Serialise();
    assert Segment(specs, n + 1) == a + b;
    hide Segment;
    assert a + b <= buffer;
    assert buffer[|a|..|a| + |b|] == (a + b)[|a|..] == b;
  }
}
