/**
  The scan loop of getFrameSharpnessValue: `readTable` for the blocks Y Y Cr Cb of every
  unit, with one DC predictor a component, and the round trip of a whole scan from
  coefficients through Huffman coding, padding and byte stuffing and back.
 */
module Scan {
  import opened Bits
  import opened Huffman
  import opened Stuffing
  import opened Dht
  import opened Reader
  import opened BlockCodec

  /** The AC loop of `readTable` (lines 192-215) on a table whose first entry is set. */
  method ReadCoefficients(r: ScanReader, tabAC: nat, table: array<int>) returns (res: int)
    requires r.Valid() && r.tables.Valid() && tabAC < 4 && table.Length == 128
    requires Usable(r.tables.Table(tabAC))
    modifies r`gpos, r`data, r`bitlen, r`passes, r`consumed, table
    ensures r.Valid()
    ensures match DecodeAc(r.tables.Table(tabAC), Stream(r.mem, r.start), old(r.consumed), 0, old(table[..64]))
            case AcFail => res == -1
            case AcDone(zz, next) => res == 0 && table[..64] == zz && r.consumed == next
  {
    hide NextSymbol, ScanReader.Valid, Window, Extend, Usable;
    ghost var ac, bits := r.tables.Table(tabAC), Stream(r.mem, r.start);
    ghost var goal := DecodeAc(ac, bits, r.consumed, 0, table[..64]);
    var j, eob := 0, false;
    while j < 63 && !eob
      invariant r.Valid() && 0 <= j <= 78
      invariant !eob && j <= 63 ==> DecodeAc(ac, bits, r.consumed, j, table[..64]) == goal
      invariant !eob && j > 63 ==> goal == AcFail
      invariant eob ==> j <= 63 && goal == AcDone(table[..64], r.consumed)
      decreases !eob, 78 - j
    {
      var comb := r.ReadXC(tabAC);
      if comb < 0 {
        return -1;
      }
      var val, repeats := comb % 16, comb / 16;
      if val == 0 {
        if repeats == 0x0f {
          j := j + 16;
        } else {
          eob := true;
        }
      } else {
        j := j + repeats;
        var value := r.Receive(val);
        ghost var before := table[..64];
        table[j + 1] := Extend(value, val);
        assert table[..64] == if j + 1 < 64 then before[j + 1 := Extend(value, val)] else before;
        j := j + 1;
      }
    }
    res := if j <= 63 then 0 else -1;
  }

  /** `readTable`: lines 181-216. */
  method ReadTable(r: ScanReader, tabDC: nat, tabAC: nat, lastDC: int, table: array<int>)
    returns (res: int, newDC: int)
    requires r.Valid() && r.tables.Valid() && tabDC < 4 && tabAC < 4 && table.Length == 128
    requires Usable(r.tables.Table(tabDC)) && Usable(r.tables.Table(tabAC))
    requires SmallSymbols(r.tables.Table(tabDC))
    modifies r`gpos, r`data, r`bitlen, r`passes, r`consumed, table
    ensures r.Valid()
    ensures match DecodeBlock(r.tables.Table(tabDC), r.tables.Table(tabAC), Stream(r.mem, r.start),
                              old(r.consumed), lastDC)
            case BlockFail => res == -1
            case BlockDone(zz, next) =>
              res == 0 && table[..64] == zz && newDC == zz[0] && r.consumed == next
  {
    hide FirstMatch, ScanReader.Valid, Window, Extend, Usable, DecodeAc;
    newDC := lastDC;
    for j := 0 to 64
      modifies table
      invariant forall i :: 0 <= i < j ==> table[i] == 0
    {
      table[j] := 0;
    }
    var sizeVal := r.ReadXC(tabDC);
    if sizeVal < 0 {
      return -1, newDC;
    }
    var value := r.Receive(sizeVal);
    newDC := Extend(value, sizeVal) + lastDC;
    table[0] := newDC;
    assert table[..64] == [newDC] + seq(63, _ => 0);
    res := ReadCoefficients(r, tabAC, table);
  }

  // The blocks of a scan

  /** Blocks come as Y Y Cr Cb; component 0 is Y. */
  function Component(i: nat): (c: nat)
    ensures c < 3
  {
    if i % 4 < 2 then 0 else i % 4 - 1
  }

  /** The DC and AC tables of a component (lines 235 and 262). */
  function DcTable(dcY: nat, i: nat): nat {
    if Component(i) == 0 then dcY else 2
  }

  function AcTable(acY: nat, i: nat): nat {
    if Component(i) == 0 then acY + 1 else 3
  }

  datatype ScanResult = ScanFail | ScanDone(blocks: seq<seq<int>>, next: nat)

  /** Blocks `i` up to `n` of a scan, from bit `p` on, with the predictors `preds`. */
  function DecodeBlocks(tables: seq<seq<Entry>>, dcY: nat, acY: nat, bits: BitString, p: nat,
                        preds: seq<int>, i: nat, n: nat): ScanResult
    requires |tables| == 4 && dcY < 4 && acY < 3 && |preds| == 3 && i <= n
    decreases n - i
  {
    if i == n then ScanDone([], p) else
      var c := Component(i);
      match DecodeBlock(tables[DcTable(dcY, i)], tables[AcTable(acY, i)], bits, p, preds[c])
      case BlockFail => ScanFail
      case BlockDone(zz, next) =>
        match DecodeBlocks(tables, dcY, acY, bits, next, preds[c := zz[0]], i + 1, n)
        case ScanFail => ScanFail
        case ScanDone(rest, end) => ScanDone([zz] + rest, end)
  }

  function Prepend(blocks: seq<seq<int>>, r: ScanResult): ScanResult {
    match r
    case ScanFail => ScanFail
    case ScanDone(rest, end) => ScanDone(blocks + rest, end)
  }

  /** What the scan asks of the tables that it uses; `mask[17]` has no entry for a larger DC category. */
  ghost predicate TablesReady(tables: seq<seq<Entry>>, dcY: nat, acY: nat) {
    && |tables| == 4 && dcY < 4 && acY < 3
    && Usable(tables[dcY]) && Usable(tables[acY + 1]) && Usable(tables[2]) && Usable(tables[3])
    && SmallSymbols(tables[dcY]) && SmallSymbols(tables[2])
  }

  ghost predicate SmallSymbols(t: seq<Entry>) {
    forall k :: 0 <= k < |t| ==> t[k].symbol <= 16
  }

  lemma DecodeOneMore(tables: seq<seq<Entry>>, dcY: nat, acY: nat, bits: BitString, p: nat,
                      preds: seq<int>, i: nat, n: nat, done: seq<seq<int>>)
    requires |tables| == 4 && dcY < 4 && acY < 3 && |preds| == 3 && i < n
    ensures Prepend(done, DecodeBlocks(tables, dcY, acY, bits, p, preds, i, n))
         == match DecodeBlock(tables[DcTable(dcY, i)], tables[AcTable(acY, i)], bits, p, preds[Component(i)])
            case BlockFail => ScanFail
            case BlockDone(zz, next) =>
              Prepend(done + [zz], DecodeBlocks(tables, dcY, acY, bits, next, preds[Component(i) := zz[0]], i + 1, n))
  {
    hide DecodeBlock;
    match DecodeBlock(tables[DcTable(dcY, i)], tables[AcTable(acY, i)], bits, p, preds[Component(i)])
    case BlockFail =>
    case BlockDone(zz, next) =>
      match DecodeBlocks(tables, dcY, acY, bits, next, preds[Component(i) := zz[0]], i + 1, n)
      case ScanFail =>
      case ScanDone(rest, end) => assert done + ([zz] + rest) == done + [zz] + rest;
  }

  /** What is left to decode, behind what has been decoded: the state of the loop of lines 232-273. */
  ghost predicate Going(r: ScanReader, tables: seq<seq<Entry>>, dcY: nat, acY: nat, blocks: seq<seq<int>>, preds: seq<int>,
                        i: nat, n: nat, goal: ScanResult)
    reads r, r.tables, r.tables.lookup, r.tables.size
  {
    && r.Valid() && r.tables.Valid() && r.tables.Tables() == tables && TablesReady(tables, dcY, acY)
    && |preds| == 3 && i <= n
    && Prepend(blocks, DecodeBlocks(tables, dcY, acY, Stream(r.mem, r.start), r.consumed, preds, i, n)) == goal
  }

  /** One call of `readTable` in the loop, from table pair (`tabDC`, `tabAC`) and with predictor `lastDC`. */
  method NextBlock(r: ScanReader, tabDC: nat, tabAC: nat, lastDC: int, table: array<int>, blocks: seq<seq<int>>,
                   ghost tables: seq<seq<Entry>>, ghost dcY: nat, ghost acY: nat, ghost preds: seq<int>, ghost i: nat,
                   ghost n: nat, ghost goal: ScanResult)
    returns (ok: bool, newDC: int, more: seq<seq<int>>)
    requires Going(r, tables, dcY, acY, blocks, preds, i, n, goal) && i < n && table.Length == 128
    requires tabDC == DcTable(dcY, i) && tabAC == AcTable(acY, i) && lastDC == preds[Component(i)]
    modifies r`gpos, r`data, r`bitlen, r`passes, r`consumed, table
    ensures r.Valid()
    ensures !ok ==> goal == ScanFail
    ensures ok ==> Going(r, tables, dcY, acY, more, preds[Component(i) := newDC], i + 1, n, goal)
  {
    hide DecodeBlock, DecodeBlocks, ScanReader.Valid, Stream, Usable, SmallSymbols;
    DecodeOneMore(tables, dcY, acY, Stream(r.mem, r.start), r.consumed, preds, i, n, blocks);
    assert r.tables.Table(tabDC) == tables[tabDC] && r.tables.Table(tabAC) == tables[tabAC];
    var res, dc := ReadTable(r, tabDC, tabAC, lastDC, table);
    ok, newDC, more := res >= 0, dc, blocks + [table[..64]];
  }

  /** Lines 227-273 without the sharpness sums: the decoded blocks of `cnt` units, or failure. */
  method DecodeScan(r: ScanReader, cnt: nat, dcY: nat, acY: nat) returns (ok: bool, blocks: seq<seq<int>>)
    requires r.Valid() && r.consumed == 0 && r.tables.Valid() && TablesReady(r.tables.Tables(), dcY, acY)
    modifies r`gpos, r`data, r`bitlen, r`passes, r`consumed
    ensures r.Valid()
    ensures match DecodeBlocks(old(r.tables.Tables()), dcY, acY, Stream(r.mem, r.start), 0, [0, 0, 0], 0, 4 * cnt)
            case ScanFail => !ok
            case ScanDone(zzs, next) => ok && blocks == zzs && r.consumed == next
  {
    hide DecodeBlocks, ScanReader.Valid, Stream, Going, TablesReady, Component, DcTable, AcTable;
    ghost var tables, n := r.tables.Tables(), 4 * cnt;
    GoingFrom(r, dcY, acY, n);
    ghost var goal := DecodeBlocks(tables, dcY, acY, Stream(r.mem, r.start), 0, [0, 0, 0], 0, n);
    var lastDCY, lastDCCr, lastDCCb := 0, 0, 0;
    var table := new int[128];
    blocks := [];
    var i := 0;
    while i < cnt
      invariant i <= cnt && Going(r, tables, dcY, acY, blocks, [lastDCY, lastDCCr, lastDCCb], 4 * i, n, goal)
    {
      UnitTables(dcY, acY, i);
      ghost var preds := [lastDCY, lastDCCr, lastDCCb];
      ok, lastDCY, blocks :=
        NextBlock(r, dcY, acY + 1, lastDCY, table, blocks, tables, dcY, acY, preds, 4 * i, n, goal);
      if !ok {
        return false, [];
      }
      preds := preds[0 := lastDCY];
      ok, lastDCY, blocks :=
        NextBlock(r, dcY, acY + 1, lastDCY, table, blocks, tables, dcY, acY, preds, 4 * i + 1, n, goal);
      if !ok {
        return false, [];
      }
      preds := preds[0 := lastDCY];
      ok, lastDCCr, blocks :=
        NextBlock(r, 2, 3, lastDCCr, table, blocks, tables, dcY, acY, preds, 4 * i + 2, n, goal);
      if !ok {
        return false, [];
      }
      preds := preds[1 := lastDCCr];
      ok, lastDCCb, blocks :=
        NextBlock(r, 2, 3, lastDCCb, table, blocks, tables, dcY, acY, preds, 4 * i + 3, n, goal);
      if !ok {
        return false, [];
      }
      preds := preds[2 := lastDCCb];
      assert preds == [lastDCY, lastDCCr, lastDCCb];
      i := i + 1;
    }
    ok := true;
    GoneThrough(r, tables, dcY, acY, blocks, [lastDCY, lastDCCr, lastDCCb], n, goal);
  }

  /** The components and tables of a unit. */
  lemma UnitTables(dcY: nat, acY: nat, u: nat)
    ensures Component(4 * u) == 0 && Component(4 * u + 1) == 0 && Component(4 * u + 2) == 1 && Component(4 * u + 3) == 2
    ensures DcTable(dcY, 4 * u) == DcTable(dcY, 4 * u + 1) == dcY
    ensures AcTable(acY, 4 * u) == AcTable(acY, 4 * u + 1) == acY + 1
    ensures DcTable(dcY, 4 * u + 2) == DcTable(dcY, 4 * u + 3) == 2
    ensures AcTable(acY, 4 * u + 2) == AcTable(acY, 4 * u + 3) == 3
  {
  }

  lemma GoingFrom(r: ScanReader, dcY: nat, acY: nat, n: nat)
    requires r.Valid() && r.consumed == 0 && r.tables.Valid() && TablesReady(r.tables.Tables(), dcY, acY)
    ensures |r.tables.Tables()| == 4 && dcY < 4 && acY < 3
    ensures var goal := DecodeBlocks(r.tables.Tables(), dcY, acY, Stream(r.mem, r.start), 0, [0, 0, 0], 0, n);
      Going(r, r.tables.Tables(), dcY, acY, [], [0, 0, 0], 0, n, goal)
  {
    hide DecodeBlocks, Stream;
    NothingDecoded(DecodeBlocks(r.tables.Tables(), dcY, acY, Stream(r.mem, r.start), 0, [0, 0, 0], 0, n));
  }

  lemma GoneThrough(r: ScanReader, tables: seq<seq<Entry>>, dcY: nat, acY: nat, blocks: seq<seq<int>>, preds: seq<int>,
                    n: nat, goal: ScanResult)
    requires Going(r, tables, dcY, acY, blocks, preds, n, n, goal)
    ensures r.Valid() && goal == ScanDone(blocks, r.consumed)
  {
    AllDecoded(tables, dcY, acY, Stream(r.mem, r.start), r.consumed, preds, n, blocks);
    hide Stream;
  }

  lemma NothingDecoded(r: ScanResult)
    ensures Prepend([], r) == r
  {
    if r.ScanDone? {
      assert [] + r.blocks == r.blocks;
    }
  }

  lemma AllDecoded(tables: seq<seq<Entry>>, dcY: nat, acY: nat, bits: BitString, p: nat,
                   preds: seq<int>, n: nat, done: seq<seq<int>>)
    requires |tables| == 4 && dcY < 4 && acY < 3 && |preds| == 3
    ensures Prepend(done, DecodeBlocks(tables, dcY, acY, bits, p, preds, n, n)) == ScanDone(done, p)
  {
    assert done + [] == done;
  }

  // Encoding the same blocks

  ghost predicate ScanEncodable(ts: seq<CodeTable>, dcY: nat, acY: nat, blocks: seq<seq<int>>, preds: seq<int>, i: nat)
    requires |ts| == 4 && dcY < 4 && acY < 3 && |preds| == 3 && i <= |blocks|
    decreases |blocks| - i
  {
    i < |blocks| ==>
      && Encodable(ts[DcTable(dcY, i)], ts[AcTable(acY, i)], blocks[i], preds[Component(i)])
      && ScanEncodable(ts, dcY, acY, blocks, preds[Component(i) := blocks[i][0]], i + 1)
  }

  ghost function EncodeBlocks(ts: seq<CodeTable>, dcY: nat, acY: nat, blocks: seq<seq<int>>,
                              preds: seq<int>, i: nat): seq<bool>
    requires |ts| == 4 && dcY < 4 && acY < 3 && |preds| == 3 && i <= |blocks|
    requires ScanEncodable(ts, dcY, acY, blocks, preds, i)
    decreases |blocks| - i
  {
    if i == |blocks| then [] else
      EncodeBlock(ts[DcTable(dcY, i)], ts[AcTable(acY, i)], blocks[i], preds[Component(i)])
      + EncodeBlocks(ts, dcY, acY, blocks, preds[Component(i) := blocks[i][0]], i + 1)
  }

  ghost predicate ScanReadable(ts: seq<CodeTable>, dcY: nat, acY: nat, blocks: seq<seq<int>>, preds: seq<int>, i: nat)
    requires |ts| == 4 && dcY < 4 && acY < 3 && |preds| == 3 && i <= |blocks|
    requires ScanEncodable(ts, dcY, acY, blocks, preds, i)
    decreases |blocks| - i
  {
    i < |blocks| ==>
      && Readable(ts[DcTable(dcY, i)], ts[AcTable(acY, i)], blocks[i], preds[Component(i)])
      && ScanReadable(ts, dcY, acY, blocks, preds[Component(i) := blocks[i][0]], i + 1)
  }

  ghost predicate SameTables(ts: seq<CodeTable>, tables: seq<seq<Entry>>) {
    && |ts| == |tables| == 4
    && forall t :: 0 <= t < 4 ==> ts[t].Valid() && tables[t] == ts[t].Entries()
  }

  /**
    Any sequence of blocks decodes in order, each from the first bit behind the one before
    it and with the predictors the encoder used, exactly when no symbol has the last code
    of its table.
   */
  lemma {:induction false} BlocksRoundTrip(ts: seq<CodeTable>, tables: seq<seq<Entry>>, dcY: nat, acY: nat,
                                           blocks: seq<seq<int>>, preds: seq<int>, i: nat,
                                           bits: BitString, p: nat)
    requires SameTables(ts, tables) && dcY < 4 && acY < 3 && |preds| == 3 && i <= |blocks|
    requires ScanEncodable(ts, dcY, acY, blocks, preds, i)
    requires Carries(bits, p, EncodeBlocks(ts, dcY, acY, blocks, preds, i))
    ensures DecodeBlocks(tables, dcY, acY, bits, p, preds, i, |blocks|)
         == if ScanReadable(ts, dcY, acY, blocks, preds, i)
            then ScanDone(blocks[i..], p + |EncodeBlocks(ts, dcY, acY, blocks, preds, i)|) else ScanFail
    decreases |blocks| - i
  {
    hide DecodeBlock, Carries, Encodable, EncodeBlock, Readable, CodeTable.Valid, CodeTable.Entries;
    if i < |blocks| {
      var dc, ac, zz, lastDC := ts[DcTable(dcY, i)], ts[AcTable(acY, i)], blocks[i], preds[Component(i)];
      EncodableIsBlock(dc, ac, zz, lastDC);
      var next := preds[Component(i) := zz[0]];
      var code := EncodeBlock(dc, ac, zz, lastDC);
      CarriesSplit(bits, p, code, EncodeBlocks(ts, dcY, acY, blocks, next, i + 1));
      BlockRoundTrip(dc, ac, zz, lastDC, bits, p);
      BlocksRoundTrip(ts, tables, dcY, acY, blocks, next, i + 1, bits, p + |code|);
      assert blocks[i..] == [zz] + blocks[i + 1..];
    } else {
      assert blocks[i..] == [];
    }
  }

  lemma EncodableIsBlock(dc: CodeTable, ac: CodeTable, zz: seq<int>, lastDC: int)
    requires Encodable(dc, ac, zz, lastDC)
    ensures |zz| == 64
  {
  }

  // From bits to bytes

  /** F.1.2.3: fill the last byte with 1-bits. */
  function Pad(b: seq<bool>): (r: seq<bool>)
    ensures |r| % 8 == 0 && b <= r
  {
    b + Ones((8 - |b| % 8) % 8)
  }

  function Pack(b: seq<bool>): (r: seq<byte>)
    requires |b| % 8 == 0
    ensures |r| == |b| / 8
  {
    seq(|b| / 8, k requires 0 <= k < |b| / 8 =>
      assert Pow2(8) == 256; ToNat(b[8 * k..8 * k + 8]) as byte)
  }

  /** The bits of a packed byte. */
  lemma PackedByte(b: seq<bool>, i: nat)
    requires |b| % 8 == 0 && i < |b|
    ensures FromNat(Pack(b)[i / 8] as nat, 8)[i % 8] == b[i]
  {
    var octet := b[8 * (i / 8)..8 * (i / 8) + 8];
    PackedOctet(b, i / 8);
    FromNatOfToNat(octet);
    hide *;
    assert octet[i % 8] == b[i];
  }

  lemma PackedOctet(b: seq<bool>, k: nat)
    requires |b| % 8 == 0 && 8 * k < |b|
    ensures k < |Pack(b)| && 8 * k + 8 <= |b| && Pack(b)[k] as nat == ToNat(b[8 * k..8 * k + 8])
  {
    assert Pow2(8) == 256;
    hide ToNat;
  }

  lemma PackedLength(b: seq<bool>)
    requires |b| % 8 == 0
    ensures |Pack(b)| == |b| / 8
  {
  }

  /** Behind a missed zero all bits of the code are zero; the bits that pad the last byte do not matter. */
  ghost predicate ZeroBitsBehindMissed(code: seq<bool>) {
    forall i: nat, p: nat :: Missed(Pack(Pad(code)), i) && 8 * (i + 1) <= p < |code| ==> !code[p]
  }

  lemma ZeroByteBits(n: nat)
    requires n < 8
    ensures !FromNat(0, 8)[n]
  {
    ToNatZeros(8);
    FromNatOfToNat(Zeros(8));
  }

  lemma ZeroOctet(b: seq<bool>, k: nat)
    requires |b| % 8 == 0 && 8 * k < |b| && forall p :: 8 * k <= p < 8 * k + 8 && p < |b| ==> !b[p]
    ensures k < |Pack(b)| && Pack(b)[k] == 0
  {
    PackedOctet(b, k);
    assert b[8 * k..8 * k + 8] == Zeros(8);
    ToNatZeros(8);
    hide Pack, ToNat;
  }

  /** A bit of the code, and what the decoder sees in its place. */
  lemma CodeBit(mem: Memory, start: nat, code: seq<bool>, p: nat)
    requires p < |code|
    ensures p / 8 < |Pack(Pad(code))|
    ensures code[p] == FromNat(Pack(Pad(code))[p / 8] as nat, 8)[p % 8]
    ensures Stream(mem, start)(p) == FromNat(ByteAt(mem, start, p / 8) as nat, 8)[p % 8]
  {
    var b := Pad(code);
    assert b[p] == code[p];
    PackedLength(b);
    hide Pack, FromNat, ByteAt;
    PackedByte(b, p);
  }

  /** What the decoder sees behind the first missed zero, if the code is zero in between. */
  lemma BitBehindMissed(mem: Memory, start: nat, code: seq<bool>, k: nat, p: nat)
    requires Stuffing.Holds(mem, start, Pack(Pad(code)))
    requires var data := Pack(Pad(code));
      k < |data| && Missed(data, k) && NoneMissed(data, k) && 8 * (k + 1) <= p < |code| && p / 8 < |data|
      && ZeroBetween(data, k, p / 8)
    ensures !Stream(mem, start)(p)
  {
    CodeBit(mem, start, code, p);
    hide Pack, Pad, FromNat, ByteAt, Missed, NoneMissed, ZeroBetween, Stuffing.Holds;
    SeenBehindMissed(mem, start, Pack(Pad(code)), k, p / 8);
    ZeroByteBits(p % 8);
  }

  /** Where the decoder sees the first `n` bits of the code, those behind the first missed zero are zero. */
  lemma {:induction false} CodeIsZeroBehind(mem: Memory, start: nat, code: seq<bool>, n: nat, k: nat, j: nat)
    requires Stuffing.Holds(mem, start, Pack(Pad(code))) && n <= |code| && Carries(Stream(mem, start), 0, code[..n])
    requires var data := Pack(Pad(code)); k < |data| && Missed(data, k) && NoneMissed(data, k)
    requires k < j && 8 * j <= n
    ensures j <= |Pack(Pad(code))| && ZeroBetween(Pack(Pad(code)), k, j)
    decreases j
  {
    PaddedLength(code, j);
    if j > k + 1 {
      CodeIsZeroBehind(mem, start, code, n, k, j - 1);
      hide *;
      NextOctetIsZero(mem, start, code, n, k, j - 1);
      ZeroLonger(Pack(Pad(code)), k, j);
    }
  }

  lemma PaddedLength(code: seq<bool>, j: nat)
    requires 8 * j <= |code|
    ensures j <= |Pack(Pad(code))|
  {
    hide Pack;
    PackedLength(Pad(code));
  }

  lemma ZeroLonger(data: seq<byte>, k: nat, j: nat)
    requires 0 < j <= |data| && ZeroBetween(data, k, j - 1) && data[j - 1] == 0
    ensures ZeroBetween(data, k, j)
  {
  }

  lemma NextOctetIsZero(mem: Memory, start: nat, code: seq<bool>, n: nat, k: nat, j: nat)
    requires Stuffing.Holds(mem, start, Pack(Pad(code))) && n <= |code| && Carries(Stream(mem, start), 0, code[..n])
    requires var data := Pack(Pad(code));
      k < |data| && Missed(data, k) && NoneMissed(data, k) && j <= |data| && ZeroBetween(data, k, j)
    requires k < j && 8 * j + 8 <= n
    ensures j < |Pack(Pad(code))| && Pack(Pad(code))[j] == 0
  {
    hide Pack, Missed, NoneMissed, Stuffing.Holds, Stream, ZeroBetween;
    PackedLength(Pad(code));
    forall p | 8 * j <= p < 8 * j + 8 ensures !Pad(code)[p] {
      BitBehindMissed(mem, start, code, k, p);
      assert Stream(mem, start)(0 + p) == code[..n][p];
    }
    ZeroOctet(Pad(code), j);
  }

  lemma ZerosOfCode(code: seq<bool>, k: nat, j: nat)
    requires ZeroBitsBehindMissed(code) && k < |Pack(Pad(code))| && Missed(Pack(Pad(code)), k)
    requires k < j && 8 * j <= |code|
    ensures j <= |Pack(Pad(code))| && ZeroBetween(Pack(Pad(code)), k, j)
  {
    PackedLength(Pad(code));
    hide Pack;
    forall t | k < t < j ensures Pack(Pad(code))[t] == 0 {
      ZeroOctet(Pad(code), t);
    }
  }

  /**
    The decoder sees the bits of an entropy code, packed and stuffed, exactly when behind a
    missed zero they are all zero.
   */
  lemma StuffedBitsIff(mem: Memory, start: nat, code: seq<bool>)
    requires At(mem, start, Stuff(Pack(Pad(code))))
    ensures Carries(Stream(mem, start), 0, code) <==> ZeroBitsBehindMissed(code)
  {
    var data := Pack(Pad(code));
    StuffedHolds(mem, start, data);
    var k := FirstMissed(data, 0);
    SeenBeforeMissed(mem, start, data, k);
    if ZeroBitsBehindMissed(code) {
      forall p | 0 <= p < |code| ensures Stream(mem, start)(0 + p) == code[p] {
        SeenBit(mem, start, code, k, p);
      }
    }
    if Carries(Stream(mem, start), 0, code) {
      forall i: nat, p: nat | Missed(data, i) && 8 * (i + 1) <= p < |code| ensures !code[p] {
        assert k <= i;
        HiddenBit(mem, start, code, k, p);
      }
    }
  }

  lemma SeenBit(mem: Memory, start: nat, code: seq<bool>, k: nat, p: nat)
    requires Stuffing.Holds(mem, start, Pack(Pad(code))) && ZeroBitsBehindMissed(code) && p < |code|
    requires var data := Pack(Pad(code)); k <= |data| && NoneMissed(data, k) && (k < |data| ==> Missed(data, k))
    ensures Stream(mem, start)(p) == code[p]
  {
    var data := Pack(Pad(code));
    CodeBit(mem, start, code, p);
    SeenBeforeMissed(mem, start, data, k);
    if p / 8 == k {
      SeenBehindMissed(mem, start, data, k, k);
    } else if p / 8 > k {
      ZerosOfCode(code, k, p / 8);
      BitBehindMissed(mem, start, code, k, p);
    }
  }

  lemma HiddenBit(mem: Memory, start: nat, code: seq<bool>, k: nat, p: nat)
    requires Stuffing.Holds(mem, start, Pack(Pad(code))) && Carries(Stream(mem, start), 0, code)
    requires var data := Pack(Pad(code)); k < |data| && Missed(data, k) && NoneMissed(data, k)
    requires 8 * (k + 1) <= p < |code|
    ensures !code[p]
  {
    assert code[..|code|] == code;
    CodeIsZeroBehind(mem, start, code, |code|, k, p / 8);
    CodeBit(mem, start, code, p);
    BitBehindMissed(mem, start, code, k, p);
    assert Stream(mem, start)(0 + p) == code[p];
  }

  /** The entropy-coded segment of a list of blocks, as T.81 writes it. */
  ghost function EntropyCoded(ts: seq<CodeTable>, dcY: nat, acY: nat, blocks: seq<seq<int>>): seq<byte>
    requires |ts| == 4 && dcY < 4 && acY < 3 && ScanEncodable(ts, dcY, acY, blocks, [0, 0, 0], 0)
  {
    Pack(Pad(EncodeBlocks(ts, dcY, acY, blocks, [0, 0, 0], 0)))
  }

  /**
    Coefficients to a stuffed byte segment and back: when the decoder sees the bits of the code
    (`StuffedBitsIff`), decoding what memory holds from `start` on gives the blocks back exactly
    when none of their symbols has the last code of its table, whatever follows the segment.
   */
  lemma ScanRoundTrip(ts: seq<CodeTable>, tables: seq<seq<Entry>>, dcY: nat, acY: nat,
                      blocks: seq<seq<int>>, mem: Memory, start: nat)
    requires SameTables(ts, tables) && dcY < 4 && acY < 3
    requires ScanEncodable(ts, dcY, acY, blocks, [0, 0, 0], 0)
    requires At(mem, start, Stuff(EntropyCoded(ts, dcY, acY, blocks)))
    requires ZeroBitsBehindMissed(EncodeBlocks(ts, dcY, acY, blocks, [0, 0, 0], 0))
    ensures DecodeBlocks(tables, dcY, acY, Stream(mem, start), 0, [0, 0, 0], 0, |blocks|)
         == if ScanReadable(ts, dcY, acY, blocks, [0, 0, 0], 0)
            then ScanDone(blocks, |EncodeBlocks(ts, dcY, acY, blocks, [0, 0, 0], 0)|) else ScanFail
  {
    hide DecodeBlocks, EncodeBlocks, ScanEncodable, ScanReadable, Stream, Pack;
    var code := EncodeBlocks(ts, dcY, acY, blocks, [0, 0, 0], 0);
    StuffedBitsIff(mem, start, code);
    BlocksRoundTrip(ts, tables, dcY, acY, blocks, [0, 0, 0], 0, Stream(mem, start), 0);
    assert blocks[0..] == blocks;
  }

  /** The tables of an encoder are fit for the scan. */
  lemma CodesAreReady(ts: seq<CodeTable>, tables: seq<seq<Entry>>, dcY: nat, acY: nat)
    requires SameTables(ts, tables) && dcY < 4 && acY < 3
    requires forall s :: s in ts[dcY].symbols || s in ts[2].symbols ==> s <= 16
    ensures TablesReady(tables, dcY, acY)
  {
    forall t | 0 <= t < 4 ensures Usable(tables[t]) {
      CanonicalIsUsable(ts[t].sizes, ts[t].symbols);
    }
    SmallCodes(ts[dcY]);
    SmallCodes(ts[2]);
    hide Usable, SmallSymbols, Table, Kraft;
  }

  lemma SmallCodes(t: CodeTable)
    requires t.Valid() && forall s :: s in t.symbols ==> s <= 16
    ensures SmallSymbols(t.Entries())
  {
    hide Kraft;
    forall k | 0 <= k < |t.Entries()| ensures t.Entries()[k].symbol <= 16 {
      EntryFields(t.sizes, t.symbols, k);
      assert t.symbols[k] in t.symbols;
    }
  }

  // Tables that come out of DHT segments

  /** The code tables that `n` tables of a DHT segment define. */
  ghost function CodeTables(ts: seq<CodeTable>, specs: seq<TableSpec>, n: nat): (r: seq<CodeTable>)
    requires |ts| == 4 && AllValid(specs) && n <= |specs|
    ensures |r| == 4
  {
    if n == 0 then ts
    else
      var spec := specs[n - 1];
      CodeTables(ts, specs, n - 1)[spec.Slot() := CodeTable(Sizes(spec.counts), spec.symbols)]
  }

  /**
    What ParseDht loads are the tables of an encoder that sends the same segments, as long
    as the length counts of every table obey Kraft's inequality.
   */
  lemma {:induction false} LoadedTables(ts: seq<CodeTable>, tables: seq<seq<Entry>>, specs: seq<TableSpec>, n: nat)
    requires SameTables(ts, tables) && AllValid(specs) && n <= |specs|
    requires forall i :: 0 <= i < |specs| ==> Kraft(Sizes(specs[i].counts))
    ensures SameTables(CodeTables(ts, specs, n), Loaded(tables, specs, n))
  {
    hide Kraft, Sizes, Table;
    if n > 0 {
      LoadedTables(ts, tables, specs, n - 1);
    }
  }

  // Two blocks that show where the promise of the standard ends

  const NOTHING := seq(63, _ => 0)

  /** Category 1 is the last code of this table, so the block [1, 0, ...] cannot be read back. */
  lemma LastCodeIsLost()
    ensures var t := CodeTable([1, 2], [0, 1]);
      && Encodable(t, t, [0] + NOTHING, 0) && Readable(t, t, [0] + NOTHING, 0)
      && Encodable(t, t, [1] + NOTHING, 0) && !Readable(t, t, [1] + NOTHING, 0)
  {
    TwoCodes();
    hide Kraft, CodeTable.Valid;
    var t := CodeTable([1, 2], [0, 1]);
    assert t.symbols[0] == 0 && t.symbols[1] == 1;
    assert Category(0) == 0 && Category(1) == 1;
    OnlyEob([0] + NOTHING, 1);
    OnlyEob([1] + NOTHING, 1);
  }

  lemma TwoCodes()
    ensures CodeTable([1, 2], [0, 1]).Valid()
  {
    hide Pow2, Start;
    DoubleUnits(30);
    StartOfTwo([1, 2]);
  }

  lemma DoubleUnits(n: nat)
    ensures Pow2(n + 2) == 2 * Pow2(n + 1) && Pow2(n + 1) == 2 * Pow2(n)
  {
  }

  lemma StartOfTwo(s: seq<nat>)
    requires Ordered(s) && |s| == 2
    ensures Start(s, 2) == Pow2(32 - s[0]) + Pow2(32 - s[1])
  {
    hide Pow2;
    assert Start(s, 0) == 0 && Start(s, 1) == Start(s, 0) + Pow2(32 - s[0]);
  }

  lemma {:induction false} OnlyEob(zz: seq<int>, k: nat)
    requires |zz| == 64 && 1 <= k <= 64 && forall i :: 1 <= i < 64 ==> zz[i] == 0
    ensures IsBlock(zz)
    ensures k > 1 ==> AcItems(zz, k, k - 1) == [EOB]
    ensures k == 1 ==> AcItems(zz, 1, 0) == [EOB]
    decreases 64 - k
  {
    if k < 64 {
      OnlyEob(zz, k + 1);
    }
  }

  /** An 0xFF among the first two bytes, or behind another 0xFF, throws the reader off. */
  lemma MissedZeros(mem: Memory, start: nat)
    ensures At(mem, start, Stuff([0xFF, 1])) ==> !Delivers(mem, start, [0xFF, 1])
    ensures At(mem, start, Stuff([1, 2, 0xFF, 0xFF, 3])) ==> !Delivers(mem, start, [1, 2, 0xFF, 0xFF, 3])
  {
    var a: seq<byte> := [0xFF, 1];
    var b: seq<byte> := [1, 2, 0xFF, 0xFF, 3];
    if At(mem, start, Stuff(a)) {
      UnstuffingIff(mem, start, a);
      assert Missed(a, 0) && a[1] == 1;
    }
    if At(mem, start, Stuff(b)) {
      UnstuffingIff(mem, start, b);
      assert Missed(b, 3) && b[4] == 3;
    }
  }
}
