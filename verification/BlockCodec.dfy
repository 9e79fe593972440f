/**
  One 8x8 block: the entropy encoder of ITU-T T.81 (F.1.2.1 and F.1.2.2), the decoder that
  `readTable` amounts to, and their round trip.
 */
module BlockCodec {
  import opened Bits
  import opened Huffman
  import opened Reader

  // Magnitude categories (F.1.2.1.1)

  function BitLength(n: nat): nat {
    if n == 0 then 0 else 1 + BitLength(n / 2)
  }

  /** SSSS: how many bits the magnitude of `v` takes. */
  function Category(v: int): nat {
    BitLength(if v < 0 then -v else v)
  }

  /** The number whose bits are appended to the code of the category. */
  function ExtraValue(v: int): int {
    if v >= 0 then v else v + Pow2(Category(v)) - 1
  }

  lemma {:induction false} BitLengthBounds(n: nat)
    requires n > 0
    ensures BitLength(n) >= 1 && Pow2(BitLength(n) - 1) <= n < Pow2(BitLength(n))
  {
    if n / 2 > 0 {
      BitLengthBounds(n / 2);
    }
  }

  lemma {:induction false} BitLengthUnique(n: nat, s: nat)
    requires s >= 1 && Pow2(s - 1) <= n < Pow2(s)
    ensures BitLength(n) == s
    decreases s
  {
    if s > 1 {
      BitLengthUnique(n / 2, s - 1);
    }
  }

  /** HUFF_EXTEND inverts the category code: every value comes back, ... */
  lemma ExtendInverts(v: int)
    ensures 0 <= ExtraValue(v) < Pow2(Category(v))
    ensures Extend(ExtraValue(v), Category(v)) == v
  {
    if v != 0 {
      BitLengthBounds(if v < 0 then -v else v);
    }
  }

  /** ... and every bit pattern of at least one bit is the code of exactly one value. */
  lemma ExtendIsOnto(x: nat, size: nat)
    requires size >= 1 && x < Pow2(size)
    ensures Category(Extend(x, size)) == size && ExtraValue(Extend(x, size)) == x
  {
    var v := Extend(x, size);
    BitLengthUnique(if v < 0 then -v else v, size);
  }

  // Huffman tables as the encoder sees them

  datatype CodeTable = CodeTable(sizes: seq<nat>, symbols: seq<byte>) {
    ghost predicate Valid() {
      && Ordered(sizes)
      && |symbols| == |sizes|
      && Kraft(sizes)
    }

    ghost function Entries(): seq<Entry>
      requires Valid()
    {
      Table(sizes, symbols)
    }

    predicate Has(s: byte) {
      s in symbols
    }

    /** Where the code of a symbol stands in the table. */
    function Place(s: byte): (k: nat)
      requires Has(s)
      ensures k < |symbols| && symbols[k] == s
    {
      IndexOf(symbols, s)
    }

    ghost function CodeBits(s: byte): seq<bool>
      requires Valid() && Has(s)
    {
      FromNat(Code(sizes, Place(s)), sizes[Place(s)])
    }

    /** `readXC` gives up on the code in the last place. */
    predicate CanRead(s: byte)
      requires Has(s)
    {
      Place(s) + 1 < |symbols|
    }
  }

  function IndexOf(s: seq<byte>, x: byte): (k: nat)
    requires x in s
    ensures k < |s| && s[k] == x
  {
    if s[0] == x then 0 else 1 + IndexOf(s[1..], x)
  }

  // A bit string that carries a code at some place

  ghost predicate Carries(bits: BitString, p: nat, code: seq<bool>) {
    forall i :: 0 <= i < |code| ==> bits(p + i) == code[i]
  }

  lemma CarriesSplit(bits: BitString, p: nat, a: seq<bool>, b: seq<bool>)
    requires Carries(bits, p, a + b)
    ensures Carries(bits, p, a) && Carries(bits, p + |a|, b)
  {
    forall i | 0 <= i < |a| ensures bits(p + i) == a[i] {
      assert (a + b)[i] == a[i];
    }
    forall i | 0 <= i < |b| ensures bits(p + |a| + i) == b[i] {
      assert (a + b)[|a| + i] == b[i];
      assert bits(p + (|a| + i)) == b[i];
    }
  }

  lemma CarriedWindow(bits: BitString, p: nat, code: seq<bool>)
    requires Carries(bits, p, code)
    ensures Window(bits, p, |code|) == code
  {
  }

  /** A carried code is recognised, unless it is the last one of its table. */
  lemma CarriedCode(t: CodeTable, s: byte, bits: BitString, p: nat)
    requires t.Valid() && t.Has(s) && Carries(bits, p, t.CodeBits(s))
    ensures NextSymbol(t.Entries(), bits, p)
         == if t.CanRead(s) then Symbol(s, p + |t.CodeBits(s)|) else NoSymbol
  {
    hide FirstMatch, MakeEntry, Code, Kraft;
    var k := t.Place(s);
    var w: Word := Window(bits, p, 16) + Zeros(16);
    var code := t.CodeBits(s);
    assert forall i :: 0 <= i < |code| ==> w[i] == code[i];
    assert w[..t.sizes[k]] == code;
    ScanFindsCode(t.sizes, t.symbols, k, w);
    EntryFields(t.sizes, t.symbols, k);
  }

  lemma EntryFields(sizes: seq<nat>, symbols: seq<byte>, k: nat)
    requires Ordered(sizes) && |symbols| == |sizes| && k < |sizes|
    ensures Table(sizes, symbols)[k].symbol == symbols[k] && Table(sizes, symbols)[k].len == sizes[k]
  {
  }

  /** The bits appended to a code are received and extended to the value they stand for. */
  lemma CarriedExtra(v: int, bits: BitString, p: nat)
    requires Carries(bits, p, ExtraBits(v))
    ensures Extend(ToNat(Window(bits, p, Category(v))), Category(v)) == v
  {
    ExtendInverts(v);
    CarriedWindow(bits, p, ExtraBits(v));
    ToNatOfSmall(ExtraValue(v), Category(v));
  }

  function ExtraBits(v: int): (b: seq<bool>)
    ensures |b| == Category(v)
  {
    FromNat(if ExtraValue(v) < 0 then 0 else ExtraValue(v), Category(v))
  }

  // The encoder

  /** A Huffman-coded symbol and the bits appended to its code. */
  datatype Item = Item(symbol: byte, extra: seq<bool>)

  const EOB := Item(0x00, [])
  const ZRL := Item(0xF0, [])

  /** 64 coefficients in zigzag order; the AC ones of at most 15 bits. */
  ghost predicate IsBlock(zz: seq<int>) {
    |zz| == 64 && forall k :: 1 <= k < 64 ==> Category(zz[k]) <= 15
  }

  /** Encoding the AC coefficients from `k` on, after a run of `r` zeros (figure F.2). */
  function AcItems(zz: seq<int>, k: nat, r: nat): seq<Item>
    requires |zz| == 64 && 1 <= k <= 64
    requires forall i :: 1 <= i < 64 ==> Category(zz[i]) <= 15
    decreases 64 - k, r
  {
    if k == 64 then (if r > 0 then [EOB] else [])
    else if zz[k] == 0 then AcItems(zz, k + 1, r + 1)
    else if r > 15 then [ZRL] + AcItems(zz, k, r - 16)
    else [Item((16 * r + Category(zz[k])) as byte, ExtraBits(zz[k]))] + AcItems(zz, k + 1, 0)
  }

  ghost predicate AllIn(t: CodeTable, items: seq<Item>) {
    forall i :: 0 <= i < |items| ==> t.Has(items[i].symbol)
  }

  ghost predicate AllReadable(t: CodeTable, items: seq<Item>)
    requires AllIn(t, items)
  {
    forall i :: 0 <= i < |items| ==> t.CanRead(items[i].symbol)
  }

  ghost function EncodeItems(t: CodeTable, items: seq<Item>): seq<bool>
    requires t.Valid() && AllIn(t, items)
  {
    if items == [] then []
    else t.CodeBits(items[0].symbol) + items[0].extra + EncodeItems(t, items[1..])
  }

  /** F.1.2.1: the category of the difference, and its bits. */
  function DcItem(diff: int): Item
    requires Category(diff) < 256
  {
    Item(Category(diff) as byte, ExtraBits(diff))
  }

  // The decoder, as a function of the bit string

  datatype AcResult = AcFail | AcDone(table: seq<int>, next: nat)

  /** The while loop of `readTable` (lines 193-210); leaving the block is the failure of line 215. */
  function DecodeAc(t: seq<Entry>, bits: BitString, p: nat, j: nat, table: seq<int>): (r: AcResult)
    requires j <= 63 && |table| == 64
    ensures r.AcDone? ==> |r.table| == 64 && r.table[0] == table[0]
    decreases 63 - j
  {
    if j == 63 then AcDone(table, p) else
      match NextSymbol(t, bits, p)
      case NoSymbol => AcFail
      case Symbol(comb, next) =>
        var val, rep := comb as nat % 16, comb as nat / 16;
        if val == 0 then
          if rep == 15 then
            if j + 16 <= 63 then DecodeAc(t, bits, next, j + 16, table) else AcFail
          else AcDone(table, next)
        else if j + rep + 1 <= 63 then
          var v := Extend(ToNat(Window(bits, next, val)), val);
          DecodeAc(t, bits, next + val, j + rep + 1, table[j + rep + 1 := v])
        else AcFail
  }

  datatype BlockResult = BlockFail | BlockDone(zz: seq<int>, next: nat)

  /** `readTable`: 64 coefficients in zigzag order; the new predictor is the first of them. */
  function DecodeBlock(dc: seq<Entry>, ac: seq<Entry>, bits: BitString, p: nat, lastDC: int): (r: BlockResult)
    ensures r.BlockDone? ==> |r.zz| == 64
  {
    match NextSymbol(dc, bits, p)
    case NoSymbol => BlockFail
    case Symbol(size, next) =>
      var diff := Extend(ToNat(Window(bits, next, size as nat)), size as nat);
      match DecodeAc(ac, bits, next + size as nat, 0, [lastDC + diff] + seq(63, _ => 0))
      case AcFail => BlockFail
      case AcDone(zz, end) => BlockDone(zz, end)
  }

  // The round trip

  lemma ItemsSplit(t: CodeTable, items: seq<Item>, bits: BitString, p: nat)
    requires t.Valid() && items != [] && AllIn(t, items) && Carries(bits, p, EncodeItems(t, items))
    ensures AllIn(t, items[1..])
    ensures AllReadable(t, items) <==> t.CanRead(items[0].symbol) && AllReadable(t, items[1..])
    ensures var c, x := t.CodeBits(items[0].symbol), items[0].extra;
      && Carries(bits, p, c) && Carries(bits, p + |c|, x)
      && Carries(bits, p + |c| + |x|, EncodeItems(t, items[1..]))
      && |EncodeItems(t, items)| == |c| + |x| + |EncodeItems(t, items[1..])|
  {
    hide Carries, Kraft, CodeTable.CodeBits;
    var c, x, rest := t.CodeBits(items[0].symbol), items[0].extra, EncodeItems(t, items[1..]);
    CarriesSplit(bits, p, c + x, rest);
    CarriesSplit(bits, p, c, x);
    assert forall i :: 0 < i < |items| ==> items[i] == items[1..][i - 1];
  }

  /** The table when everything up to `j` has been decoded. */
  ghost predicate DecodedTo(zz: seq<int>, table: seq<int>, j: nat) {
    && |zz| == |table| == 64
    && (forall i :: 0 <= i < 64 && i <= j ==> table[i] == zz[i])
    && (forall i :: j < i < 64 ==> table[i] == 0)
  }

  /** The first item of a non-empty encoding, and what the rest encodes. */
  lemma AcItemsStep(zz: seq<int>, k: nat, r: nat)
    requires IsBlock(zz) && 1 <= k <= 64
    ensures k == 64 && r > 0 ==> AcItems(zz, k, r) == [EOB]
    ensures k < 64 && zz[k] == 0 ==> AcItems(zz, k, r) == AcItems(zz, k + 1, r + 1)
    ensures k < 64 && zz[k] != 0 && r > 15 ==>
      && AcItems(zz, k, r) != [] && AcItems(zz, k, r)[0] == ZRL
      && AcItems(zz, k, r)[1..] == AcItems(zz, k, r - 16)
    ensures k < 64 && zz[k] != 0 && r <= 15 ==>
      && AcItems(zz, k, r) != []
      && AcItems(zz, k, r)[0] == Item((16 * r + Category(zz[k])) as byte, ExtraBits(zz[k]))
      && AcItems(zz, k, r)[1..] == AcItems(zz, k + 1, 0)
  {
  }

  /** One turn of the decoding loop. */
  lemma AcTurn(t: seq<Entry>, bits: BitString, p: nat, j: nat, table: seq<int>)
    requires j < 63 && |table| == 64
    ensures match NextSymbol(t, bits, p)
            case NoSymbol => DecodeAc(t, bits, p, j, table) == AcFail
            case Symbol(comb, next) =>
              && (comb == 0x00 ==> DecodeAc(t, bits, p, j, table) == AcDone(table, next))
              && (comb == 0xF0 && j + 16 <= 63 ==>
                  DecodeAc(t, bits, p, j, table) == DecodeAc(t, bits, next, j + 16, table))
  {
    hide NextSymbol, Window, Extend;
  }

  lemma AcValueTurn(t: seq<Entry>, bits: BitString, p: nat, j: nat, table: seq<int>, run: nat, v: int, next: nat)
    requires j + run + 1 <= 63 && |table| == 64 && run <= 15 && 1 <= Category(v) <= 15
    requires NextSymbol(t, bits, p) == Symbol((16 * run + Category(v)) as byte, next)
    requires Extend(ToNat(Window(bits, next, Category(v))), Category(v)) == v
    ensures DecodeAc(t, bits, p, j, table)
         == DecodeAc(t, bits, next + Category(v), j + run + 1, table[j + run + 1 := v])
  {
    hide NextSymbol, Window, Extend, Category;
    var comb := 16 * run + Category(v);
    assert comb % 16 == Category(v) && comb / 16 == run;
  }

  lemma CategoryOfNonZero(v: int)
    requires v != 0
    ensures Category(v) >= 1
  {
  }

  lemma NoItems(t: CodeTable)
    requires t.Valid()
    ensures EncodeItems(t, []) == [] && AllReadable(t, [])
  {
  }

  lemma {:induction false} AcRoundTrip(t: CodeTable, zz: seq<int>, k: nat, r: nat,
                                       bits: BitString, p: nat, table: seq<int>)
    requires t.Valid() && IsBlock(zz) && 1 <= k <= 64 && r < k
    requires forall i :: k - r <= i < k ==> zz[i] == 0
    requires AllIn(t, AcItems(zz, k, r))
    requires Carries(bits, p, EncodeItems(t, AcItems(zz, k, r)))
    requires DecodedTo(zz, table, k - r - 1)
    ensures DecodeAc(t.Entries(), bits, p, k - r - 1, table)
         == if AllReadable(t, AcItems(zz, k, r))
            then AcDone(zz, p + |EncodeItems(t, AcItems(zz, k, r))|) else AcFail
    decreases 64 - k, r
  {
    hide NextSymbol, Carries, CodeTable.Entries, CodeTable.CodeBits, CodeTable.Valid,
         AllReadable, Window, Extend, ExtraBits, Category, AcItems, EncodeItems;
    var items, j := AcItems(zz, k, r), k - r - 1;
    AcItemsStep(zz, k, r);
    if k < 64 && zz[k] == 0 {
      AcRoundTrip(t, zz, k + 1, r + 1, bits, p, table);
    } else if k == 64 && r == 0 {
      AllCoefficientsSent(t, zz, bits, p, table);
    } else {
      hide DecodeAc, DecodedTo, CodeTable.CanRead;
      ItemsSplit(t, items, bits, p);
      CarriedCode(t, items[0].symbol, bits, p);
      var next := p + |t.CodeBits(items[0].symbol)|;
      if k == 64 {
        AcTurn(t.Entries(), bits, p, j, table);
        AllDecoded(zz, table, j);
        NoItems(t);
      } else if r > 15 {
        AcTurn(t.Entries(), bits, p, j, table);
        LongerDecoded(zz, table, j, j + 16);
        AcRoundTrip(t, zz, k, r - 16, bits, next, table);
      } else {
        ValueCarried(t, zz, k, r, bits, p, table);
        OneMoreDecoded(zz, table, j, k);
        AcRoundTrip(t, zz, k + 1, 0, bits, next + |items[0].extra|, table[k := zz[k]]);
      }
    }
  }

  /** A run and the coefficient behind it, carried at `p`. */
  lemma ValueCarried(t: CodeTable, zz: seq<int>, k: nat, r: nat, bits: BitString, p: nat, table: seq<int>)
    requires t.Valid() && IsBlock(zz) && r < k < 64 && r <= 15 && zz[k] != 0 && |table| == 64
    requires t.Has((16 * r + Category(zz[k])) as byte)
    requires var code := t.CodeBits((16 * r + Category(zz[k])) as byte);
      Carries(bits, p, code) && Carries(bits, p + |code|, ExtraBits(zz[k]))
    ensures var symbol := (16 * r + Category(zz[k])) as byte;
      DecodeAc(t.Entries(), bits, p, k - r - 1, table)
      == if t.CanRead(symbol)
         then DecodeAc(t.Entries(), bits, p + |t.CodeBits(symbol)| + Category(zz[k]), k, table[k := zz[k]]) else AcFail
  {
    hide NextSymbol, Carries, CodeTable.Entries, CodeTable.CodeBits, CodeTable.Valid, Window, Extend, ExtraBits,
         Category, DecodeAc, CodeTable.CanRead;
    var symbol := (16 * r + Category(zz[k])) as byte;
    CarriedCode(t, symbol, bits, p);
    AcTurn(t.Entries(), bits, p, k - r - 1, table);
    if t.CanRead(symbol) {
      CategoryOfNonZero(zz[k]);
      CarriedExtra(zz[k], bits, p + |t.CodeBits(symbol)|);
      AcValueTurn(t.Entries(), bits, p, k - r - 1, table, r, zz[k], p + |t.CodeBits(symbol)|);
    }
  }

  lemma AllDecoded(zz: seq<int>, table: seq<int>, j: nat)
    requires DecodedTo(zz, table, j) && forall i :: j < i < 64 ==> zz[i] == 0
    ensures table == zz
  {
  }

  lemma LongerDecoded(zz: seq<int>, table: seq<int>, j: nat, n: nat)
    requires DecodedTo(zz, table, j) && j <= n && forall i :: j < i < 64 && i <= n ==> zz[i] == 0
    ensures DecodedTo(zz, table, n)
  {
  }

  lemma OneMoreDecoded(zz: seq<int>, table: seq<int>, j: nat, k: nat)
    requires DecodedTo(zz, table, j) && j < k < 64 && forall i :: j < i < k ==> zz[i] == 0
    ensures |table| == 64 && DecodedTo(zz, table[k := zz[k]], k)
  {
  }

  lemma AllCoefficientsSent(t: CodeTable, zz: seq<int>, bits: BitString, p: nat, table: seq<int>)
    requires t.Valid() && IsBlock(zz) && DecodedTo(zz, table, 63)
    ensures AcItems(zz, 64, 0) == [] && AllReadable(t, []) && EncodeItems(t, []) == []
    ensures DecodeAc(t.Entries(), bits, p, 63, table) == AcDone(zz, p)
  {
    assert table == zz;
  }

  // A whole block

  /** The items of a block whose DC coefficient is coded as a difference from `lastDC`. */
  ghost predicate Encodable(dc: CodeTable, ac: CodeTable, zz: seq<int>, lastDC: int) {
    && dc.Valid() && ac.Valid() && IsBlock(zz)
    && Category(zz[0] - lastDC) <= 16
    && dc.Has(Category(zz[0] - lastDC) as byte)
    && AllIn(ac, AcItems(zz, 1, 0))
  }

  ghost function EncodeBlock(dc: CodeTable, ac: CodeTable, zz: seq<int>, lastDC: int): seq<bool>
    requires Encodable(dc, ac, zz, lastDC)
  {
    var item := DcItem(zz[0] - lastDC);
    dc.CodeBits(item.symbol) + item.extra + EncodeItems(ac, AcItems(zz, 1, 0))
  }

  /** No symbol of the block has the last code of its table. */
  ghost predicate Readable(dc: CodeTable, ac: CodeTable, zz: seq<int>, lastDC: int)
    requires Encodable(dc, ac, zz, lastDC)
  {
    && dc.CanRead(Category(zz[0] - lastDC) as byte)
    && AllReadable(ac, AcItems(zz, 1, 0))
  }

  lemma BlockStart(zz: seq<int>)
    requires |zz| == 64
    ensures DecodedTo(zz, [zz[0]] + seq(63, _ => 0), 0)
  {
  }

  /**
    A block that is carried at `p` decodes to its 64 coefficients, and decoding stops at the
    first bit behind it, exactly when none of its symbols has the last code of its table;
    otherwise decoding reports failure.
   */
  lemma BlockRoundTrip(dc: CodeTable, ac: CodeTable, zz: seq<int>, lastDC: int, bits: BitString, p: nat)
    requires Encodable(dc, ac, zz, lastDC)
    requires Carries(bits, p, EncodeBlock(dc, ac, zz, lastDC))
    ensures DecodeBlock(dc.Entries(), ac.Entries(), bits, p, lastDC)
         == if Readable(dc, ac, zz, lastDC)
            then BlockDone(zz, p + |EncodeBlock(dc, ac, zz, lastDC)|) else BlockFail
  {
    hide NextSymbol, Carries, CodeTable.Entries, CodeTable.CodeBits, CodeTable.Valid,
         AllReadable, Window, Extend, ExtraBits, Category, AcItems, EncodeItems, DecodeAc, DecodedTo;
    var diff := zz[0] - lastDC;
    var item := DcItem(diff);
    var code, rest := dc.CodeBits(item.symbol), EncodeItems(ac, AcItems(zz, 1, 0));
    CarriesSplit(bits, p, code + item.extra, rest);
    CarriesSplit(bits, p, code, item.extra);
    CarriedCode(dc, item.symbol, bits, p);
    if dc.CanRead(item.symbol) {
      CarriedExtra(diff, bits, p + |code|);
      BlockStart(zz);
      AcRoundTrip(ac, zz, 1, 0, bits, p + |code| + |item.extra|, [zz[0]] + seq(63, _ => 0));
    }
  }
}
