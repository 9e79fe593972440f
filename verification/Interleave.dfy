/**
  The scan of a camera picture as section A.2.3 of ITU-T T.81 lays it out: units of two
  luminance blocks, one Cr and one Cb block, each coded with the tables of its component and
  against the last block of the same component. This encoder is written unit by unit, and
  the round trips are stated for it.
 */
module Interleave {
  import opened Bits
  import opened BlockCodec
  import opened Dht
  import opened Huffman
  import opened Misread
  import opened Reader
  import opened Scan
  import opened Stuffing

  datatype Unit = Unit(y0: seq<int>, y1: seq<int>, cr: seq<int>, cb: seq<int>) {
    ghost predicate Valid() {
      |y0| == |y1| == |cr| == |cb| == 64
    }
  }

  ghost predicate FullUnits(units: seq<Unit>) {
    forall u :: 0 <= u < |units| ==> units[u].Valid()
  }

  /** The blocks as they are sent. */
  ghost predicate InOrder(units: seq<Unit>, blocks: seq<seq<int>>) {
    && |blocks| == 4 * |units|
    && forall u :: 0 <= u < |units| ==>
         && blocks[4 * u] == units[u].y0 && blocks[4 * u + 1] == units[u].y1
         && blocks[4 * u + 2] == units[u].cr && blocks[4 * u + 3] == units[u].cb
  }

  lemma {:induction false} BlocksOf(units: seq<Unit>) returns (blocks: seq<seq<int>>)
    ensures InOrder(units, blocks)
  {
    blocks := [];
    if units != [] {
      var n := |units| - 1;
      var before := BlocksOf(units[..n]);
      blocks := before + [units[n].y0, units[n].y1, units[n].cr, units[n].cb];
    }
  }

  lemma OneOrder(units: seq<Unit>, a: seq<seq<int>>, b: seq<seq<int>>)
    requires InOrder(units, a) && InOrder(units, b)
    ensures a == b
  {
    forall i | 0 <= i < |a| ensures a[i] == b[i] {
      var u := i / 4;
      assert units[u].y0 == a[4 * u] == b[4 * u];
    }
  }

  // The predictors: the DC coefficient of the block before of the same component, or 0

  function LastY(units: seq<Unit>, u: nat): int
    requires u <= |units| && FullUnits(units)
  {
    if u == 0 then 0 else units[u - 1].y1[0]
  }

  function LastCr(units: seq<Unit>, u: nat): int
    requires u <= |units| && FullUnits(units)
  {
    if u == 0 then 0 else units[u - 1].cr[0]
  }

  function LastCb(units: seq<Unit>, u: nat): int
    requires u <= |units| && FullUnits(units)
  {
    if u == 0 then 0 else units[u - 1].cb[0]
  }

  // The encoder

  ghost predicate UnitEncodable(ts: seq<CodeTable>, dcY: nat, acY: nat, units: seq<Unit>, u: nat)
    requires |ts| == 4 && dcY < 4 && acY < 3 && FullUnits(units) && u < |units|
  {
    && Encodable(ts[dcY], ts[acY + 1], units[u].y0, LastY(units, u))
    && Encodable(ts[dcY], ts[acY + 1], units[u].y1, units[u].y0[0])
    && Encodable(ts[2], ts[3], units[u].cr, LastCr(units, u))
    && Encodable(ts[2], ts[3], units[u].cb, LastCb(units, u))
  }

  ghost predicate UnitsEncodable(ts: seq<CodeTable>, dcY: nat, acY: nat, units: seq<Unit>)
    requires |ts| == 4 && dcY < 4 && acY < 3
  {
    FullUnits(units) && forall u :: 0 <= u < |units| ==> UnitEncodable(ts, dcY, acY, units, u)
  }

  ghost function EncodeUnit(ts: seq<CodeTable>, dcY: nat, acY: nat, units: seq<Unit>, u: nat): seq<bool>
    requires |ts| == 4 && dcY < 4 && acY < 3 && FullUnits(units) && u < |units|
    requires UnitEncodable(ts, dcY, acY, units, u)
  {
    EncodeBlock(ts[dcY], ts[acY + 1], units[u].y0, LastY(units, u))
    + (EncodeBlock(ts[dcY], ts[acY + 1], units[u].y1, units[u].y0[0])
       + (EncodeBlock(ts[2], ts[3], units[u].cr, LastCr(units, u))
          + EncodeBlock(ts[2], ts[3], units[u].cb, LastCb(units, u))))
  }

  /** The code of a scan, from unit `u` on. */
  ghost function EncodeUnits(ts: seq<CodeTable>, dcY: nat, acY: nat, units: seq<Unit>, u: nat): seq<bool>
    requires |ts| == 4 && dcY < 4 && acY < 3 && UnitsEncodable(ts, dcY, acY, units) && u <= |units|
    decreases |units| - u
  {
    if u == |units| then []
    else EncodeUnit(ts, dcY, acY, units, u) + EncodeUnits(ts, dcY, acY, units, u + 1)
  }

  ghost predicate UnitReadable(ts: seq<CodeTable>, dcY: nat, acY: nat, units: seq<Unit>, u: nat)
    requires |ts| == 4 && dcY < 4 && acY < 3 && FullUnits(units) && u < |units|
    requires UnitEncodable(ts, dcY, acY, units, u)
  {
    && Readable(ts[dcY], ts[acY + 1], units[u].y0, LastY(units, u))
    && Readable(ts[dcY], ts[acY + 1], units[u].y1, units[u].y0[0])
    && Readable(ts[2], ts[3], units[u].cr, LastCr(units, u))
    && Readable(ts[2], ts[3], units[u].cb, LastCb(units, u))
  }

  /** No symbol of the scan has the last code of its table. */
  ghost predicate UnitsReadable(ts: seq<CodeTable>, dcY: nat, acY: nat, units: seq<Unit>)
    requires |ts| == 4 && dcY < 4 && acY < 3 && UnitsEncodable(ts, dcY, acY, units)
  {
    forall u :: 0 <= u < |units| ==> UnitReadable(ts, dcY, acY, units, u)
  }

  /** The entropy-coded segment. */
  ghost function CodedUnits(ts: seq<CodeTable>, dcY: nat, acY: nat, units: seq<Unit>): seq<byte>
    requires |ts| == 4 && dcY < 4 && acY < 3 && UnitsEncodable(ts, dcY, acY, units)
  {
    Pack(Pad(EncodeUnits(ts, dcY, acY, units, 0)))
  }

  // The same blocks in the order of the decoder

  function Predictors(units: seq<Unit>, u: nat): (preds: seq<int>)
    requires u <= |units| && FullUnits(units)
    ensures |preds| == 3
  {
    [LastY(units, u), LastCr(units, u), LastCb(units, u)]
  }

  /** One block of the decoder's encoder. */
  lemma BlockStep(ts: seq<CodeTable>, dcY: nat, acY: nat, blocks: seq<seq<int>>, preds: seq<int>, i: nat, dc: nat, ac: nat,
                  c: nat, next: seq<int>)
    requires |ts| == 4 && dcY < 4 && acY < 3 && |preds| == 3 && i < |blocks| && |blocks[i]| == 64
    requires dc == DcTable(dcY, i) && ac == AcTable(acY, i) && c == Component(i) && next == preds[c := blocks[i][0]]
    ensures dc < 4 && ac < 4 && c < 3
    ensures ScanEncodable(ts, dcY, acY, blocks, preds, i)
       <==> Encodable(ts[dc], ts[ac], blocks[i], preds[c]) && ScanEncodable(ts, dcY, acY, blocks, next, i + 1)
    ensures ScanEncodable(ts, dcY, acY, blocks, preds, i) ==>
      && EncodeBlocks(ts, dcY, acY, blocks, preds, i)
         == EncodeBlock(ts[dc], ts[ac], blocks[i], preds[c]) + EncodeBlocks(ts, dcY, acY, blocks, next, i + 1)
      && (ScanReadable(ts, dcY, acY, blocks, preds, i)
          <==> Readable(ts[dc], ts[ac], blocks[i], preds[c]) && ScanReadable(ts, dcY, acY, blocks, next, i + 1))
  {
    hide Encodable, EncodeBlock, Readable;
  }

  lemma Regroup(a: seq<bool>, b: seq<bool>, c: seq<bool>, d: seq<bool>, e: seq<bool>)
    ensures a + (b + (c + (d + e))) == a + (b + (c + d)) + e
  {
  }

  /** Four blocks with the predictors between them. */
  lemma FourEncodable(ts: seq<CodeTable>, dcY: nat, acY: nat, blocks: seq<seq<int>>, u: nat,
                      p0: seq<int>, p1: seq<int>, p2: seq<int>, p3: seq<int>, p4: seq<int>)
    requires |ts| == 4 && dcY < 4 && acY < 3 && |p0| == |p1| == |p2| == |p3| == |p4| == 3 && 4 * u + 4 <= |blocks|
    requires |blocks[4 * u]| == |blocks[4 * u + 1]| == |blocks[4 * u + 2]| == |blocks[4 * u + 3]| == 64
    requires p1 == p0[0 := blocks[4 * u][0]] && p2 == p1[0 := blocks[4 * u + 1][0]]
    requires p3 == p2[1 := blocks[4 * u + 2][0]] && p4 == p3[2 := blocks[4 * u + 3][0]]
    ensures ScanEncodable(ts, dcY, acY, blocks, p0, 4 * u)
       <==> && Encodable(ts[dcY], ts[acY + 1], blocks[4 * u], p0[0])
            && Encodable(ts[dcY], ts[acY + 1], blocks[4 * u + 1], p1[0])
            && Encodable(ts[2], ts[3], blocks[4 * u + 2], p2[1])
            && Encodable(ts[2], ts[3], blocks[4 * u + 3], p3[2])
            && ScanEncodable(ts, dcY, acY, blocks, p4, 4 * u + 4)
  {
    hide *;
    UnitTables(dcY, acY, u);
    BlockStep(ts, dcY, acY, blocks, p0, 4 * u, dcY, acY + 1, 0, p1);
    BlockStep(ts, dcY, acY, blocks, p1, 4 * u + 1, dcY, acY + 1, 0, p2);
    BlockStep(ts, dcY, acY, blocks, p2, 4 * u + 2, 2, 3, 1, p3);
    BlockStep(ts, dcY, acY, blocks, p3, 4 * u + 3, 2, 3, 2, p4);
  }

  /** A unit among the blocks, with the predictors before and after it. */
  ghost predicate UnitAt(units: seq<Unit>, u: nat, blocks: seq<seq<int>>, p: seq<int>, q: seq<int>) {
    && FullUnits(units) && u < |units| && |blocks| == 4 * |units|
    && units[u].Valid()
    && blocks[4 * u] == units[u].y0 && blocks[4 * u + 1] == units[u].y1
    && blocks[4 * u + 2] == units[u].cr && blocks[4 * u + 3] == units[u].cb
    && p == [LastY(units, u), LastCr(units, u), LastCb(units, u)]
    && q == [units[u].y1[0], units[u].cr[0], units[u].cb[0]]
  }

  lemma AtEveryUnit(units: seq<Unit>, u: nat, blocks: seq<seq<int>>)
    requires FullUnits(units) && InOrder(units, blocks) && u < |units|
    ensures UnitAt(units, u, blocks, Predictors(units, u), Predictors(units, u + 1))
  {
    assert units[u].Valid();
  }

  lemma UnitFacts(units: seq<Unit>, u: nat, blocks: seq<seq<int>>, p: seq<int>, q: seq<int>) returns (unit: Unit)
    requires UnitAt(units, u, blocks, p, q)
    ensures |blocks| == 4 * |units| && 4 * u + 4 <= |blocks| && unit == units[u] && |p| == |q| == 3
    ensures |unit.y0| == |unit.y1| == |unit.cr| == |unit.cb| == 64
    ensures blocks[4 * u] == unit.y0 && blocks[4 * u + 1] == unit.y1
    ensures blocks[4 * u + 2] == unit.cr && blocks[4 * u + 3] == unit.cb
    ensures p[0] == LastY(units, u) && p[1] == LastCr(units, u) && p[2] == LastCb(units, u)
    ensures q[0] == unit.y1[0] && q[1] == unit.cr[0] && q[2] == unit.cb[0]
  {
    unit := units[u];
  }

  /** A unit is four blocks, with the tables and predictors of its components. */
  lemma UnitEncodes(ts: seq<CodeTable>, dcY: nat, acY: nat, units: seq<Unit>, u: nat, blocks: seq<seq<int>>,
                    p: seq<int>, q: seq<int>)
    requires |ts| == 4 && dcY < 4 && acY < 3 && FullUnits(units) && UnitAt(units, u, blocks, p, q)
    ensures ScanEncodable(ts, dcY, acY, blocks, p, 4 * u)
       <==> UnitEncodable(ts, dcY, acY, units, u) && ScanEncodable(ts, dcY, acY, blocks, q, 4 * u + 4)
  {
    UnitEncodableIs(ts, dcY, acY, units, u);
    hide *;
    var unit := UnitFacts(units, u, blocks, p, q);
    var p1, p2 := [unit.y0[0], p[1], p[2]], [unit.y1[0], p[1], p[2]];
    var p3 := [unit.y1[0], unit.cr[0], p[2]];
    FourEncodable(ts, dcY, acY, blocks, u, p, p1, p2, p3, q);
  }

  lemma UnitEncodableIs(ts: seq<CodeTable>, dcY: nat, acY: nat, units: seq<Unit>, u: nat)
    requires |ts| == 4 && dcY < 4 && acY < 3 && FullUnits(units) && u < |units|
    ensures units[u].Valid()
    ensures UnitEncodable(ts, dcY, acY, units, u)
       <==> && Encodable(ts[dcY], ts[acY + 1], units[u].y0, LastY(units, u))
            && Encodable(ts[dcY], ts[acY + 1], units[u].y1, units[u].y0[0])
            && Encodable(ts[2], ts[3], units[u].cr, LastCr(units, u))
            && Encodable(ts[2], ts[3], units[u].cb, LastCb(units, u))
  {
    hide Encodable, LastY, LastCr, LastCb;
  }

  lemma UnitStep(ts: seq<CodeTable>, dcY: nat, acY: nat, units: seq<Unit>, u: nat, blocks: seq<seq<int>>,
                 p: seq<int>, q: seq<int>)
    requires |ts| == 4 && dcY < 4 && acY < 3 && FullUnits(units) && UnitAt(units, u, blocks, p, q)
    requires UnitEncodable(ts, dcY, acY, units, u)
    requires ScanEncodable(ts, dcY, acY, blocks, p, 4 * u) && ScanEncodable(ts, dcY, acY, blocks, q, 4 * u + 4)
    ensures EncodeBlocks(ts, dcY, acY, blocks, p, 4 * u)
         == EncodeUnit(ts, dcY, acY, units, u) + EncodeBlocks(ts, dcY, acY, blocks, q, 4 * u + 4)
    ensures ScanReadable(ts, dcY, acY, blocks, p, 4 * u)
       <==> UnitReadable(ts, dcY, acY, units, u) && ScanReadable(ts, dcY, acY, blocks, q, 4 * u + 4)
  {
    hide Encodable, ScanEncodable, EncodeBlock, EncodeBlocks, Readable, ScanReadable;
    hide LastY, LastCr, LastCb, FullUnits, UnitAt, DcTable, AcTable, Component;
    var unit := UnitFacts(units, u, blocks, p, q);
    var p1, p2 := [unit.y0[0], p[1], p[2]], [unit.y1[0], p[1], p[2]];
    var p3 := [unit.y1[0], unit.cr[0], p[2]];
    UnitTables(dcY, acY, u);
    BlockStep(ts, dcY, acY, blocks, p, 4 * u, dcY, acY + 1, 0, p1);
    BlockStep(ts, dcY, acY, blocks, p1, 4 * u + 1, dcY, acY + 1, 0, p2);
    BlockStep(ts, dcY, acY, blocks, p2, 4 * u + 2, 2, 3, 1, p3);
    BlockStep(ts, dcY, acY, blocks, p3, 4 * u + 3, 2, 3, 2, q);
    Regroup(EncodeBlock(ts[dcY], ts[acY + 1], unit.y0, LastY(units, u)),
            EncodeBlock(ts[dcY], ts[acY + 1], unit.y1, unit.y0[0]),
            EncodeBlock(ts[2], ts[3], unit.cr, LastCr(units, u)),
            EncodeBlock(ts[2], ts[3], unit.cb, LastCb(units, u)),
            EncodeBlocks(ts, dcY, acY, blocks, q, 4 * u + 4));
  }

  ghost predicate EncodableFrom(ts: seq<CodeTable>, dcY: nat, acY: nat, units: seq<Unit>, u: nat)
    requires |ts| == 4 && dcY < 4 && acY < 3 && FullUnits(units)
  {
    forall v :: u <= v < |units| ==> UnitEncodable(ts, dcY, acY, units, v)
  }

  lemma {:induction false} SameEncodable(ts: seq<CodeTable>, dcY: nat, acY: nat, units: seq<Unit>, u: nat,
                                         blocks: seq<seq<int>>, p: seq<int>)
    requires |ts| == 4 && dcY < 4 && acY < 3 && FullUnits(units) && u <= |units|
    requires InOrder(units, blocks) && p == Predictors(units, u)
    ensures ScanEncodable(ts, dcY, acY, blocks, p, 4 * u) <==> EncodableFrom(ts, dcY, acY, units, u)
    decreases |units| - u
  {
    hide UnitEncodable, FullUnits, Encodable, InOrder, Predictors;
    assert |blocks| == 4 * |units| by {
      OrderLength(units, blocks);
    }
    if u < |units| {
      hide ScanEncodable;
      var q := Predictors(units, u + 1);
      AtEveryUnit(units, u, blocks);
      SameEncodable(ts, dcY, acY, units, u + 1, blocks, q);
      UnitEncodes(ts, dcY, acY, units, u, blocks, p, q);
    }
  }

  ghost predicate ReadableFrom(ts: seq<CodeTable>, dcY: nat, acY: nat, units: seq<Unit>, u: nat)
    requires |ts| == 4 && dcY < 4 && acY < 3 && UnitsEncodable(ts, dcY, acY, units)
  {
    forall v :: u <= v < |units| ==> UnitReadable(ts, dcY, acY, units, v)
  }

  lemma {:induction false} SameCode(ts: seq<CodeTable>, dcY: nat, acY: nat, units: seq<Unit>, u: nat,
                                    blocks: seq<seq<int>>, p: seq<int>)
    requires |ts| == 4 && dcY < 4 && acY < 3 && UnitsEncodable(ts, dcY, acY, units) && u <= |units|
    requires InOrder(units, blocks) && p == Predictors(units, u)
    requires ScanEncodable(ts, dcY, acY, blocks, p, 4 * u)
    ensures EncodeBlocks(ts, dcY, acY, blocks, p, 4 * u) == EncodeUnits(ts, dcY, acY, units, u)
    ensures ScanReadable(ts, dcY, acY, blocks, p, 4 * u) <==> ReadableFrom(ts, dcY, acY, units, u)
    decreases |units| - u
  {
    hide *;
    OrderLength(units, blocks);
    if u == |units| {
      NoUnitsLeft(ts, dcY, acY, units, blocks, p);
    } else {
      UnitsStep(ts, dcY, acY, units, u);
      var q := Predictors(units, u + 1);
      AtEveryUnit(units, u, blocks);
      UnitEncodes(ts, dcY, acY, units, u, blocks, p, q);
      SameCode(ts, dcY, acY, units, u + 1, blocks, q);
      UnitStep(ts, dcY, acY, units, u, blocks, p, q);
    }
  }

  lemma OrderLength(units: seq<Unit>, blocks: seq<seq<int>>)
    requires InOrder(units, blocks)
    ensures |blocks| == 4 * |units|
  {
  }

  lemma NoUnitsLeft(ts: seq<CodeTable>, dcY: nat, acY: nat, units: seq<Unit>, blocks: seq<seq<int>>, p: seq<int>)
    requires |ts| == 4 && dcY < 4 && acY < 3 && UnitsEncodable(ts, dcY, acY, units)
    requires |blocks| == 4 * |units| && |p| == 3 && ScanEncodable(ts, dcY, acY, blocks, p, |blocks|)
    ensures EncodeBlocks(ts, dcY, acY, blocks, p, |blocks|) == [] == EncodeUnits(ts, dcY, acY, units, |units|)
    ensures ScanReadable(ts, dcY, acY, blocks, p, |blocks|) && ReadableFrom(ts, dcY, acY, units, |units|)
  {
  }

  lemma UnitsStep(ts: seq<CodeTable>, dcY: nat, acY: nat, units: seq<Unit>, u: nat)
    requires |ts| == 4 && dcY < 4 && acY < 3 && UnitsEncodable(ts, dcY, acY, units) && u < |units|
    ensures FullUnits(units) && UnitEncodable(ts, dcY, acY, units, u)
    ensures EncodeUnits(ts, dcY, acY, units, u)
         == EncodeUnit(ts, dcY, acY, units, u) + EncodeUnits(ts, dcY, acY, units, u + 1)
    ensures ReadableFrom(ts, dcY, acY, units, u)
       <==> UnitReadable(ts, dcY, acY, units, u) && ReadableFrom(ts, dcY, acY, units, u + 1)
  {
    hide UnitEncodable, UnitReadable, EncodeUnit, FullUnits;
  }

  /** The decoder's order of blocks, predictors and tables is that of the units. */
  lemma Interleaved(ts: seq<CodeTable>, dcY: nat, acY: nat, units: seq<Unit>, blocks: seq<seq<int>>)
    requires |ts| == 4 && dcY < 4 && acY < 3 && FullUnits(units) && InOrder(units, blocks)
    ensures |blocks| == 4 * |units|
    ensures ScanEncodable(ts, dcY, acY, blocks, [0, 0, 0], 0) <==> UnitsEncodable(ts, dcY, acY, units)
    ensures ScanEncodable(ts, dcY, acY, blocks, [0, 0, 0], 0) ==>
      && EncodeBlocks(ts, dcY, acY, blocks, [0, 0, 0], 0) == EncodeUnits(ts, dcY, acY, units, 0)
      && EntropyCoded(ts, dcY, acY, blocks) == CodedUnits(ts, dcY, acY, units)
      && (ScanReadable(ts, dcY, acY, blocks, [0, 0, 0], 0) <==> UnitsReadable(ts, dcY, acY, units))
  {
    assert Predictors(units, 0) == [0, 0, 0] && |blocks| == 4 * |units|;
    hide UnitEncodable, UnitReadable, EncodeUnits, InOrder, ScanEncodable, EncodeBlocks, ScanReadable, Predictors, Pack, Pad;
    SameEncodable(ts, dcY, acY, units, 0, blocks, [0, 0, 0]);
    if ScanEncodable(ts, dcY, acY, blocks, [0, 0, 0], 0) {
      SameCode(ts, dcY, acY, units, 0, blocks, [0, 0, 0]);
    }
  }

  // The round trips

  /** Every code bit behind a missed zero is zero. */
  ghost predicate BitsSeen(ts: seq<CodeTable>, dcY: nat, acY: nat, units: seq<Unit>)
    requires |ts| == 4 && dcY < 4 && acY < 3 && UnitsEncodable(ts, dcY, acY, units)
  {
    ZeroBitsBehindMissed(EncodeUnits(ts, dcY, acY, units, 0))
  }

  /**
    What the decoder makes of the stuffed code of any units, with the tables that coded them:
    their blocks in order, up to the last bit, if it sees the bits of the code and no symbol is
    the last of its table; and only then it gives these blocks at all, if the end of block comes
    before other AC symbols without bits.
   */
  lemma UnitsRoundTrip(ts: seq<CodeTable>, tables: seq<seq<Entry>>, dcY: nat, acY: nat, units: seq<Unit>,
                       mem: Memory, start: nat)
    requires SameTables(ts, tables) && |ts| == |tables| == 4 && dcY < 4 && acY < 3
    requires UnitsEncodable(ts, dcY, acY, units) && At(mem, start, Stuff(CodedUnits(ts, dcY, acY, units)))
    ensures var r := DecodeBlocks(tables, dcY, acY, Stream(mem, start), 0, [0, 0, 0], 0, 4 * |units|);
      && (BitsSeen(ts, dcY, acY, units) ==>
            && (r.ScanDone? <==> UnitsReadable(ts, dcY, acY, units))
            && (r.ScanDone? ==> InOrder(units, r.blocks) && r.next == |EncodeUnits(ts, dcY, acY, units, 0)|))
      && (EobsFirst(ts, acY) ==>
            (r.ScanDone? && InOrder(units, r.blocks)
             <==> UnitsReadable(ts, dcY, acY, units) && BitsSeen(ts, dcY, acY, units)))
  {
    assert FullUnits(units);
    BitsSeenIs(ts, dcY, acY, units);
    hide *;
    var blocks := BlocksOf(units);
    Interleaved(ts, dcY, acY, units, blocks);
    var r := DecodeBlocks(tables, dcY, acY, Stream(mem, start), 0, [0, 0, 0], 0, 4 * |units|);
    if BitsSeen(ts, dcY, acY, units) {
      ScanRoundTrip(ts, tables, dcY, acY, blocks, mem, start);
    }
    if r.ScanDone? && InOrder(units, r.blocks) {
      OneOrder(units, blocks, r.blocks);
    }
    if EobsFirst(ts, acY) {
      ScanRoundTripIff(ts, tables, dcY, acY, blocks, mem, start);
    }
  }

  lemma BitsSeenIs(ts: seq<CodeTable>, dcY: nat, acY: nat, units: seq<Unit>)
    requires |ts| == 4 && dcY < 4 && acY < 3 && UnitsEncodable(ts, dcY, acY, units)
    ensures BitsSeen(ts, dcY, acY, units) <==> ZeroBitsBehindMissed(EncodeUnits(ts, dcY, acY, units, 0))
  {
    hide UnitsEncodable, EncodeUnits, ZeroBitsBehindMissed;
  }

  /** The decoder itself, with the encoder's tables loaded and the reader at the beginning of the code. */
  method DecodeUnits(r: ScanReader, cnt: nat, dcY: nat, acY: nat, ghost ts: seq<CodeTable>, ghost units: seq<Unit>)
    returns (ok: bool, decoded: seq<seq<int>>)
    requires r.Valid() && r.consumed == 0 && r.tables.Valid() && SameTables(ts, r.tables.Tables())
    requires |ts| == 4 && dcY < 4 && acY < 3 && |units| == cnt
    requires forall s :: s in ts[dcY].symbols || s in ts[2].symbols ==> s <= 16
    requires UnitsEncodable(ts, dcY, acY, units) && At(r.mem, r.start, Stuff(CodedUnits(ts, dcY, acY, units)))
    modifies r`gpos, r`data, r`bitlen, r`passes, r`consumed
    ensures r.Valid()
    ensures BitsSeen(ts, dcY, acY, units) ==>
      && (ok <==> UnitsReadable(ts, dcY, acY, units))
      && (ok ==> InOrder(units, decoded) && r.consumed == |EncodeUnits(ts, dcY, acY, units, 0)|)
    ensures EobsFirst(ts, acY) ==>
      (ok && InOrder(units, decoded) <==> UnitsReadable(ts, dcY, acY, units) && BitsSeen(ts, dcY, acY, units))
  {
    ghost var tables := r.tables.Tables();
    assert |tables| == 4;
    CodesAreReady(ts, tables, dcY, acY);
    hide *;
    UnitsRoundTrip(ts, tables, dcY, acY, units, r.mem, r.start);
    ok, decoded := DecodeScan(r, cnt, dcY, acY);
  }
}
