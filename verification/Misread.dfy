/**
  Scans in which the decoder sees other bits than were coded: why they cannot decode to the
  same blocks. Where the reader first goes wrong it sees a zero for a one, while every other
  way to spell a block is first different from the encoder's with a one for a zero, provided
  that the end of block comes before other symbols without bits in the AC tables.
 */
module Misread {
  import opened Bits
  import opened BlockCodec
  import opened Dht
  import opened Huffman
  import opened Reader
  import opened Scan
  import opened Stuffing

  // Bits that are a code, or above it

  /** From `p` on, the bits are first different from `code` with a one for a zero. */
  ghost predicate Above(bits: BitString, p: nat, code: seq<bool>) {
    exists d :: 0 <= d < |code| && Carries(bits, p, code[..d]) && bits(p + d) && !code[d]
  }

  ghost predicate AtLeast(bits: BitString, p: nat, code: seq<bool>) {
    Carries(bits, p, code) || Above(bits, p, code)
  }

  lemma CarriesJoin(bits: BitString, p: nat, a: seq<bool>, b: seq<bool>)
    requires Carries(bits, p, a) && Carries(bits, p + |a|, b)
    ensures Carries(bits, p, a + b)
  {
    forall i | 0 <= i < |a + b| ensures bits(p + i) == (a + b)[i] {
      if i >= |a| {
        assert bits(p + |a| + (i - |a|)) == b[i - |a|];
      }
    }
  }

  lemma AboveLonger(bits: BitString, p: nat, a: seq<bool>, b: seq<bool>)
    requires Above(bits, p, a)
    ensures Above(bits, p, a + b)
  {
    var d :| 0 <= d < |a| && Carries(bits, p, a[..d]) && bits(p + d) && !a[d];
    assert (a + b)[..d] == a[..d] && !(a + b)[d];
  }

  lemma AboveBehind(bits: BitString, p: nat, a: seq<bool>, b: seq<bool>)
    requires Carries(bits, p, a) && Above(bits, p + |a|, b)
    ensures Above(bits, p, a + b)
  {
    var d :| 0 <= d < |b| && Carries(bits, p + |a|, b[..d]) && bits(p + |a| + d) && !b[d];
    CarriesJoin(bits, p, a, b[..d]);
    assert (a + b)[..|a| + d] == a + b[..d] && !(a + b)[|a| + d];
    assert p + |a| + d == p + (|a| + d);
  }

  lemma AtLeastJoin(bits: BitString, p: nat, a: seq<bool>, b: seq<bool>)
    requires AtLeast(bits, p, a) && (Carries(bits, p, a) ==> AtLeast(bits, p + |a|, b))
    ensures AtLeast(bits, p, a + b)
  {
    hide Carries, Above;
    if Above(bits, p, a) {
      AboveLonger(bits, p, a, b);
    } else if Above(bits, p + |a|, b) {
      AboveBehind(bits, p, a, b);
    } else {
      CarriesJoin(bits, p, a, b);
    }
  }

  // Later codes of a table are above earlier ones

  lemma {:induction false} FirstDifference(a: seq<bool>, b: seq<bool>) returns (d: nat)
    requires |a| == |b| && ToNat(a) > ToNat(b)
    ensures d < |a| && a[..d] == b[..d] && a[d] && !b[d]
  {
    var n := |a| - 1;
    if ToNat(a[..n]) > ToNat(b[..n]) {
      d := FirstDifference(a[..n], b[..n]);
      assert a[..d] == a[..n][..d] && b[..d] == b[..n][..d];
    } else {
      d := n;
      ToNatInjective(a[..n], b[..n]);
    }
  }

  lemma HigherMultiple(hi: nat, lo: nat, code: nat, unit: nat)
    requires lo < unit && code * unit + unit <= hi * unit + lo
    ensures hi > code
  {
    MulDistributes(hi, code, unit);
    MulCommutes(unit, hi - code);
    NoMultipleBetween(unit, hi - code);
  }

  lemma SplitWindow(w: Word, len: nat)
    requires len <= 32
    ensures ToNat(w) == ToNat(w[..len]) * Pow2(32 - len) + ToNat(w[len..]) && ToNat(w[len..]) < Pow2(32 - len)
  {
    assert w == w[..len] + w[len..];
    ToNatConcat(w[..len], w[len..]);
  }

  /** A window from the (j + 1)-th interval on begins with a number above the j-th code. */
  lemma WindowAbove(sizes: seq<nat>, j: nat, w: Word)
    requires Ordered(sizes) && j < |sizes| && Start(sizes, j + 1) <= ToNat(w)
    ensures ToNat(w[..sizes[j]]) > Code(sizes, j)
  {
    assert Start(sizes, j + 1) == Start(sizes, j) + Pow2(32 - sizes[j]);
    hide ToNat, Code, Pow2, Start;
    SplitWindow(w, sizes[j]);
    CodesAreConsecutive(sizes, j);
    HigherMultiple(ToNat(w[..sizes[j]]), ToNat(w[sizes[j]..]), Code(sizes, j), Pow2(32 - sizes[j]));
  }

  lemma BitsOfWindow(bits: BitString, p: nat, code: seq<bool>)
    requires |code| <= 32 && Carries(bits, p, code)
    ensures Window(bits, p, 32)[..|code|] == code
  {
  }

  lemma LaterCodeIsAbove(t: CodeTable, j: nat, k: nat, bits: BitString, p: nat)
    requires t.Valid() && j < k < |t.sizes|
    requires Carries(bits, p, FromNat(Code(t.sizes, k), t.sizes[k]))
    ensures Above(bits, p, FromNat(Code(t.sizes, j), t.sizes[j]))
  {
    hide Start, Code, Pow2, FromNat, ToNat;
    var w: Word, len, code := Window(bits, p, 32), t.sizes[j], FromNat(Code(t.sizes, j), t.sizes[j]);
    BitsOfWindow(bits, p, FromNat(Code(t.sizes, k), t.sizes[k]));
    StartMonotone(t.sizes, j + 1, k);
    StartMonotone(t.sizes, j + 1, |t.sizes|);
    StartMonotone(t.sizes, k + 1, |t.sizes|);
    CodeFits(t.sizes, k);
    CodesAreConsecutive(t.sizes, k);
    PrefixIsInterval(w, Code(t.sizes, k), t.sizes[k]);
    WindowAbove(t.sizes, j, w);
    CodeFits(t.sizes, j);
    ToNatOfSmall(Code(t.sizes, j), len);
    hide Window;
    var d := FirstDifference(w[..len], code);
    AboveAt(bits, p, w, code, d);
  }

  lemma AboveAt(bits: BitString, p: nat, w: Word, code: seq<bool>, d: nat)
    requires w == Window(bits, p, 32) && d < |code| <= 32
    requires w[..|code|][..d] == code[..d] && w[..|code|][d] && !code[d]
    ensures Above(bits, p, code)
  {
    forall i | 0 <= i < d ensures bits(p + i) == code[..d][i] {
      assert w[..|code|][..d][i] == w[i];
    }
    assert w[d] == bits(p + d);
  }

  // What a symbol that is found says about the bits

  /** The bits carry the code of some place of the table that has the symbol. */
  lemma FoundPlace(t: CodeTable, bits: BitString, p: nat) returns (k: nat)
    requires t.Valid() && NextSymbol(t.Entries(), bits, p).Symbol?
    ensures k < |t.symbols| && t.symbols[k] == NextSymbol(t.Entries(), bits, p).value
    ensures NextSymbol(t.Entries(), bits, p).next == p + t.sizes[k]
    ensures Carries(bits, p, FromNat(Code(t.sizes, k), t.sizes[k]))
  {
    hide Matches, Code, Kraft, MakeEntry;
    var w: Word := Window(bits, p, 16) + Zeros(16);
    k := FirstMatch(t.Entries(), w, 0);
    MatchesPlace(t, k, w);
    var code := FromNat(Code(t.sizes, k), t.sizes[k]);
    EntryFields(t.sizes, t.symbols, k);
    forall i | 0 <= i < |code| ensures bits(p + i) == code[i] {
      assert w[..t.sizes[k]][i] == w[i];
    }
  }

  lemma MatchesPlace(t: CodeTable, k: nat, w: Word)
    requires t.Valid() && k < |t.symbols| && Matches(t.Entries()[k], w)
    ensures w[..t.sizes[k]] == FromNat(Code(t.sizes, k), t.sizes[k])
  {
    MatchesIsPrefix(Code(t.sizes, k), t.sizes[k], t.symbols[k], w);
    hide Matches, Code, FromNat, MakeEntry, Kraft;
  }

  /** The encoder's symbol, if it stands no later in the table than the one that was found. */
  lemma FoundIsAtLeast(t: CodeTable, s: byte, k: nat, bits: BitString, p: nat)
    requires t.Valid() && t.Has(s) && k < |t.sizes| && t.Place(s) <= k
    requires Carries(bits, p, FromNat(Code(t.sizes, k), t.sizes[k]))
    ensures AtLeast(bits, p, t.CodeBits(s))
    ensures t.Place(s) < k ==> Above(bits, p, t.CodeBits(s))
  {
    hide Code, FromNat, Kraft;
    if t.Place(s) < k {
      LaterCodeIsAbove(t, t.Place(s), k, bits, p);
    }
  }

  lemma {:induction false} FirstPlace(s: seq<byte>, x: byte, k: nat)
    requires k < |s| && s[k] == x
    ensures x in s && IndexOf(s, x) <= k
  {
    if s[0] != x {
      FirstPlace(s[1..], x, k - 1);
    }
  }

  lemma FoundSymbol(t: CodeTable, bits: BitString, p: nat)
    requires t.Valid() && NextSymbol(t.Entries(), bits, p).Symbol?
    ensures var s := NextSymbol(t.Entries(), bits, p).value;
      && t.Has(s) && AtLeast(bits, p, t.CodeBits(s))
      && (Carries(bits, p, t.CodeBits(s)) ==> NextSymbol(t.Entries(), bits, p).next == p + |t.CodeBits(s)|)
  {
    var s := NextSymbol(t.Entries(), bits, p).value;
    var k := FoundPlace(t, bits, p);
    FirstPlace(t.symbols, s, k);
    hide NextSymbol, Code, FromNat, Kraft, Above;
    FoundIsAtLeast(t, s, k, bits, p);
    if Carries(bits, p, t.CodeBits(s)) {
      CarriedCode(t, s, bits, p);
    }
  }

  // The bits behind a symbol

  lemma WindowIsCarried(bits: BitString, p: nat, n: nat)
    ensures Carries(bits, p, Window(bits, p, n))
  {
  }

  /** The value that is received is the one whose bits are there. */
  lemma ReceivedValue(bits: BitString, p: nat, size: nat)
    ensures var v := Extend(ToNat(Window(bits, p, size)), size);
      Category(v) == size && Carries(bits, p, ExtraBits(v))
  {
    var w := Window(bits, p, size);
    WindowIsCarried(bits, p, size);
    if size == 0 {
      assert Category(0) == 0;
    } else {
      ExtendIsOnto(ToNat(w), size);
      FromNatOfToNat(w);
    }
    hide Carries, Window, Extend, ToNat, FromNat, Category, ExtraValue;
  }

  // AC coefficients

  /** No other symbol without bits stands before the end of block. */
  ghost predicate EobFirst(t: CodeTable) {
    t.Has(0x00) ==> forall k :: 0 <= k < |t.symbols| && t.symbols[k] as nat % 16 == 0 ==> t.Place(0x00) <= k
  }

  /** What has been decoded stays. */
  lemma {:induction false} DecodeKeeps(t: seq<Entry>, bits: BitString, p: nat, j: nat, table: seq<int>)
    requires j <= 63 && |table| == 64 && DecodeAc(t, bits, p, j, table).AcDone?
    ensures |DecodeAc(t, bits, p, j, table).table| == 64
    ensures forall i :: 0 <= i <= j ==> DecodeAc(t, bits, p, j, table).table[i] == table[i]
    decreases 63 - j
  {
    hide NextSymbol, Window, Extend;
    if j < 63 && NextSymbol(t, bits, p).Symbol? {
      var comb, next := NextSymbol(t, bits, p).value as nat, NextSymbol(t, bits, p).next;
      var val, rep := comb % 16, comb / 16;
      if val == 0 {
        if rep == 15 {
          DecodeKeeps(t, bits, next, j + 16, table);
        }
      } else {
        var v := Extend(ToNat(Window(bits, next, val)), val);
        DecodeKeeps(t, bits, next + val, j + rep + 1, table[j + rep + 1 := v]);
      }
    }
  }

  lemma {:induction false} SkipZeros(zz: seq<int>, k: nat, m: nat, r: nat)
    requires IsBlock(zz) && 1 <= k && k + m <= 64 && forall i :: k <= i < k + m ==> zz[i] == 0
    ensures AcItems(zz, k, r) == AcItems(zz, k + m, r + m)
    decreases m
  {
    if m > 0 {
      AcItemsStep(zz, k, r);
      hide AcItems, Category;
      SkipZeros(zz, k + 1, m - 1, r + 1);
    }
  }

  /** The first place from `k` on where a block is not zero, or 64. */
  function NextNonZero(zz: seq<int>, k: nat): (q: nat)
    requires k <= |zz| == 64
    ensures k <= q <= 64 && (forall i :: k <= i < q ==> zz[i] == 0) && (q < 64 ==> zz[q] != 0)
    decreases 64 - k
  {
    if k == 64 || zz[k] != 0 then k else NextNonZero(zz, k + 1)
  }

  ghost predicate ZerosTo(zz: seq<int>, j: nat, n: nat) {
    |zz| == 64 && forall i :: j < i < 64 && i <= n ==> zz[i] == 0
  }

  /** Only zeros are left. */
  lemma ZerosLeft(zz: seq<int>, j: nat)
    requires IsBlock(zz) && j < 63 && ZerosTo(zz, j, 63)
    ensures AcItems(zz, j + 1, 0) == [EOB]
  {
    SkipZeros(zz, j + 1, 63 - j, 0);
    AcItemsStep(zz, 64, 63 - j);
    hide AcItems, Category;
  }

  /** Sixteen zeros, and more to come. */
  lemma LongRun(zz: seq<int>, j: nat)
    requires IsBlock(zz) && j + 16 <= 63 && ZerosTo(zz, j, j + 16)
    requires NextNonZero(zz, j + 17) < 64
    ensures AcItems(zz, j + 1, 0) == [ZRL] + AcItems(zz, j + 17, 0)
  {
    var q := NextNonZero(zz, j + 17);
    SkipZeros(zz, j + 1, q - j - 1, 0);
    SkipZeros(zz, j + 17, q - j - 17, 0);
    AcItemsStep(zz, q, q - j - 1);
    hide AcItems, Category, NextNonZero;
    assert AcItems(zz, q, q - j - 1) == [AcItems(zz, q, q - j - 1)[0]] + AcItems(zz, q, q - j - 1)[1..];
  }

  /** A short run and a coefficient. */
  lemma ShortRun(zz: seq<int>, j: nat, rep: nat)
    requires IsBlock(zz) && j + rep + 1 <= 63 && rep <= 15 && ZerosTo(zz, j, j + rep)
    requires zz[j + rep + 1] != 0
    ensures var v := zz[j + rep + 1];
      AcItems(zz, j + 1, 0) == [Item((16 * rep + Category(v)) as byte, ExtraBits(v))] + AcItems(zz, j + rep + 2, 0)
  {
    SkipZeros(zz, j + 1, rep, 0);
    AcItemsStep(zz, j + rep + 1, rep);
    hide AcItems, Category, ExtraBits;
    assert AcItems(zz, j + rep + 1, rep) == [AcItems(zz, j + rep + 1, rep)[0]] + AcItems(zz, j + rep + 1, rep)[1..];
  }

  lemma ItemsJoin(t: CodeTable, item: Item, items: seq<Item>, bits: BitString, p: nat)
    requires t.Valid() && AllIn(t, [item] + items)
    ensures t.Has(item.symbol) && AllIn(t, items)
    ensures EncodeItems(t, [item] + items) == t.CodeBits(item.symbol) + item.extra + EncodeItems(t, items)
  {
    hide CodeTable.CodeBits, Kraft;
    var all := [item] + items;
    assert all[0] == item && all[1..] == items;
    forall i | 0 <= i < |items| ensures t.Has(items[i].symbol) {
      assert all[i + 1] == items[i];
    }
  }

  lemma EndOfBlock(t: CodeTable, bits: BitString, p: nat)
    requires t.Valid() && EobFirst(t) && t.Has(0x00) && NextSymbol(t.Entries(), bits, p).Symbol?
    requires NextSymbol(t.Entries(), bits, p).value as nat % 16 == 0
    ensures AtLeast(bits, p, t.CodeBits(0x00))
    ensures NextSymbol(t.Entries(), bits, p).value != 0x00 ==> Above(bits, p, t.CodeBits(0x00))
  {
    var k := FoundPlace(t, bits, p);
    hide NextSymbol, Code, FromNat, Kraft, Above, AtLeast;
    assert t.Place(0x00) <= k;
    FoundIsAtLeast(t, 0x00, k, bits, p);
  }

  /** The decoder leaves the block. */
  lemma ZerosAtLeast(t: CodeTable, zz: seq<int>, j: nat, bits: BitString, p: nat)
    requires t.Valid() && EobFirst(t) && IsBlock(zz) && j < 63 && ZerosTo(zz, j, 63)
    requires AllIn(t, AcItems(zz, j + 1, 0)) && NextSymbol(t.Entries(), bits, p).Symbol?
    requires NextSymbol(t.Entries(), bits, p).value as nat % 16 == 0
    ensures AtLeast(bits, p, EncodeItems(t, AcItems(zz, j + 1, 0)))
  {
    ZerosLeft(zz, j);
    hide AcItems, NextSymbol, AtLeast, Carries, CodeTable.CodeBits, Kraft, EobFirst;
    assert [EOB] + [] == [EOB];
    ItemsJoin(t, EOB, [], bits, p);
    NoItems(t);
    assert t.CodeBits(0x00) + [] + [] == t.CodeBits(0x00);
    EndOfBlock(t, bits, p);
  }

  /** A symbol, the bits behind it, and what comes then. */
  lemma SymbolAndBits(t: CodeTable, symbol: byte, extra: seq<bool>, rest: seq<bool>, bits: BitString, p: nat)
    requires t.Valid() && NextSymbol(t.Entries(), bits, p).Symbol? && NextSymbol(t.Entries(), bits, p).value == symbol
    requires var next := NextSymbol(t.Entries(), bits, p).next;
      Carries(bits, next, extra) && AtLeast(bits, next + |extra|, rest)
    ensures t.Has(symbol) && AtLeast(bits, p, t.CodeBits(symbol) + extra + rest)
  {
    hide NextSymbol, AtLeast, Above, Carries, CodeTable.CodeBits, Kraft;
    FoundSymbol(t, bits, p);
    var code := t.CodeBits(symbol);
    CarriesIsAtLeast(bits, p + |code|, extra);
    AtLeastJoin(bits, p, code, extra);
    if Carries(bits, p, code + extra) {
      CarriesSplit(bits, p, code, extra);
    }
    AtLeastJoin(bits, p, code + extra, rest);
  }

  lemma CarriesIsAtLeast(bits: BitString, p: nat, code: seq<bool>)
    ensures Carries(bits, p, code) ==> AtLeast(bits, p, code)
  {
  }

  /** An item, the bits behind its symbol, and the items that follow. */
  lemma ItemsAtLeast(t: CodeTable, items: seq<Item>, item: Item, rest: seq<Item>, bits: BitString, p: nat)
    requires t.Valid() && items == [item] + rest && AllIn(t, items) && AllIn(t, rest)
    requires NextSymbol(t.Entries(), bits, p).Symbol? && NextSymbol(t.Entries(), bits, p).value == item.symbol
    requires var next := NextSymbol(t.Entries(), bits, p).next;
      Carries(bits, next, item.extra) && AtLeast(bits, next + |item.extra|, EncodeItems(t, rest))
    ensures AtLeast(bits, p, EncodeItems(t, items))
  {
    hide NextSymbol, AtLeast, Carries, CodeTable.CodeBits, Kraft, EncodeItems;
    ItemsJoin(t, item, rest, bits, p);
    SymbolAndBits(t, item.symbol, item.extra, EncodeItems(t, rest), bits, p);
  }

  lemma ExtraBitsLength(v: int)
    ensures |ExtraBits(v)| == Category(v)
  {
  }

  lemma NothingAtLeast(t: CodeTable, zz: seq<int>, bits: BitString, p: nat)
    requires t.Valid() && IsBlock(zz)
    ensures AllIn(t, AcItems(zz, 64, 0)) && AtLeast(bits, p, EncodeItems(t, AcItems(zz, 64, 0)))
  {
  }

  lemma AllInRest(t: CodeTable, items: seq<Item>, item: Item, rest: seq<Item>)
    requires items == [item] + rest && AllIn(t, items)
    ensures AllIn(t, rest)
  {
    forall i | 0 <= i < |rest| ensures t.Has(rest[i].symbol) {
      assert items[i + 1] == rest[i];
    }
  }

  /** From `p` and coefficient `j` on, the decoder makes the block out of the table. */
  ghost predicate Gives(t: seq<Entry>, bits: BitString, p: nat, j: nat, table: seq<int>, zz: seq<int>) {
    && j <= 63 && DecodedTo(zz, table, j)
    && var r := DecodeAc(t, bits, p, j, table);
       r.AcDone? && r.table == zz
  }

  /** Leaving the block, ... */
  lemma GivesEnd(t: seq<Entry>, bits: BitString, p: nat, j: nat, table: seq<int>, zz: seq<int>)
    requires Gives(t, bits, p, j, table, zz) && j < 63
    ensures NextSymbol(t, bits, p).Symbol?
    ensures var comb := NextSymbol(t, bits, p).value as nat; comb % 16 == 0 && comb / 16 != 15 ==> ZerosTo(zz, j, 63)
  {
    hide NextSymbol, Window, Extend;
  }

  /** ... skipping sixteen zeros, ... */
  lemma GivesRun(t: seq<Entry>, bits: BitString, p: nat, j: nat, table: seq<int>, zz: seq<int>)
    requires Gives(t, bits, p, j, table, zz) && j < 63
    requires NextSymbol(t, bits, p).Symbol? && NextSymbol(t, bits, p).value == 0xF0
    ensures j + 16 <= 63 && ZerosTo(zz, j, j + 16) && Gives(t, bits, NextSymbol(t, bits, p).next, j + 16, table, zz)
  {
    hide NextSymbol, Window, Extend;
    DecodeKeeps(t, bits, NextSymbol(t, bits, p).next, j + 16, table);
  }

  /** ... or taking a coefficient. */
  lemma GivesValue(t: seq<Entry>, bits: BitString, p: nat, j: nat, table: seq<int>, zz: seq<int>)
    requires Gives(t, bits, p, j, table, zz) && j < 63
    requires NextSymbol(t, bits, p).Symbol? && NextSymbol(t, bits, p).value as nat % 16 != 0
    ensures var comb, next := NextSymbol(t, bits, p).value as nat, NextSymbol(t, bits, p).next;
      var rep, val := comb / 16, comb % 16;
      && j + rep + 1 <= 63 && ZerosTo(zz, j, j + rep) && |table| == 64
      && zz[j + rep + 1] == Extend(ToNat(Window(bits, next, val)), val)
      && Gives(t, bits, next + val, j + rep + 1, table[j + rep + 1 := zz[j + rep + 1]], zz)
  {
    hide NextSymbol, Window, Extend;
    var comb, next := NextSymbol(t, bits, p).value as nat, NextSymbol(t, bits, p).next;
    var rep, val := comb / 16, comb % 16;
    DecodeKeeps(t, bits, next + val, j + rep + 1, table[j + rep + 1 := Extend(ToNat(Window(bits, next, val)), val)]);
  }

  lemma NoBits(bits: BitString, p: nat)
    ensures Carries(bits, p, [])
  {
  }

  /** The item of the coefficient that the decoder takes. */
  lemma Coefficient(zz: seq<int>, j: nat, comb: byte, bits: BitString, p: nat) returns (item: Item)
    requires IsBlock(zz) && comb as nat % 16 != 0
    requires var rep, val := comb as nat / 16, comb as nat % 16;
      j + rep + 1 <= 63 && ZerosTo(zz, j, j + rep) && zz[j + rep + 1] == Extend(ToNat(Window(bits, p, val)), val)
    ensures item.symbol == comb && |item.extra| == comb as nat % 16 && Carries(bits, p, item.extra)
    ensures AcItems(zz, j + 1, 0) == [item] + AcItems(zz, j + comb as nat / 16 + 2, 0)
  {
    var rep, val := comb as nat / 16, comb as nat % 16;
    var v := zz[j + rep + 1];
    ReceivedValue(bits, p, val);
    ValueNotZero(bits, p, val);
    ExtraBitsLength(v);
    hide Carries, AcItems, Window, Extend, ExtraBits, Category, ToNat;
    ShortRun(zz, j, rep);
    item := Item(comb, ExtraBits(v));
  }

  lemma ValueNotZero(bits: BitString, p: nat, size: nat)
    requires size > 0
    ensures Extend(ToNat(Window(bits, p, size)), size) != 0
  {
    ReceivedValue(bits, p, size);
    assert Category(0) == 0;
    hide Extend, Window, ToNat;
  }

  /** What the bits are from `p` on follows from what they are from `q` on. */
  ghost predicate Reduces(t: CodeTable, zz: seq<int>, bits: BitString, p: nat, j: nat, q: nat, k: nat)
    requires t.Valid() && IsBlock(zz) && j <= 63 && k <= 63
  {
    && AllIn(t, AcItems(zz, j + 1, 0)) && AllIn(t, AcItems(zz, k + 1, 0))
    && (AtLeast(bits, q, EncodeItems(t, AcItems(zz, k + 1, 0))) ==> AtLeast(bits, p, EncodeItems(t, AcItems(zz, j + 1, 0))))
  }

  lemma ReducesBy(t: CodeTable, zz: seq<int>, bits: BitString, p: nat, j: nat, q: nat, k: nat, item: Item)
    requires t.Valid() && IsBlock(zz) && j <= 63 && k <= 63 && AllIn(t, AcItems(zz, j + 1, 0))
    requires AcItems(zz, j + 1, 0) == [item] + AcItems(zz, k + 1, 0)
    requires NextSymbol(t.Entries(), bits, p).Symbol? && NextSymbol(t.Entries(), bits, p).value == item.symbol
    requires var next := NextSymbol(t.Entries(), bits, p).next; Carries(bits, next, item.extra) && q == next + |item.extra|
    ensures Reduces(t, zz, bits, p, j, q, k)
  {
    hide NextSymbol, AtLeast, Carries, Kraft, EncodeItems, AcItems, AllIn;
    var items, rest := AcItems(zz, j + 1, 0), AcItems(zz, k + 1, 0);
    AllInRest(t, items, item, rest);
    if AtLeast(bits, q, EncodeItems(t, rest)) {
      ItemsAtLeast(t, items, item, rest, bits, p);
    }
  }

  lemma ValueTurn(t: CodeTable, zz: seq<int>, j: nat, bits: BitString, p: nat, table: seq<int>) returns (q: nat, k: nat)
    requires t.Valid() && IsBlock(zz) && j < 63 && AllIn(t, AcItems(zz, j + 1, 0))
    requires Gives(t.Entries(), bits, p, j, table, zz)
    requires NextSymbol(t.Entries(), bits, p).Symbol? && NextSymbol(t.Entries(), bits, p).value as nat % 16 != 0
    ensures j < k <= 63 && |table| == 64 && Gives(t.Entries(), bits, q, k, table[k := zz[k]], zz)
    ensures Reduces(t, zz, bits, p, j, q, k)
  {
    hide *;
    GivesValue(t.Entries(), bits, p, j, table, zz);
    var comb, next := NextSymbol(t.Entries(), bits, p).value, NextSymbol(t.Entries(), bits, p).next;
    k := j + comb as nat / 16 + 1;
    q := next + comb as nat % 16;
    var item := Coefficient(zz, j, comb, bits, next);
    ReducesBy(t, zz, bits, p, j, q, k, item);
  }

  lemma RunTurn(t: CodeTable, zz: seq<int>, j: nat, bits: BitString, p: nat, table: seq<int>) returns (q: nat)
    requires t.Valid() && IsBlock(zz) && j < 63 && AllIn(t, AcItems(zz, j + 1, 0))
    requires Gives(t.Entries(), bits, p, j, table, zz)
    requires NextSymbol(t.Entries(), bits, p).Symbol? && NextSymbol(t.Entries(), bits, p).value == 0xF0
    requires !ZerosTo(zz, j, 63)
    ensures j + 16 <= 63 && Gives(t.Entries(), bits, q, j + 16, table, zz)
    ensures Reduces(t, zz, bits, p, j, q, j + 16)
  {
    GivesRun(t.Entries(), bits, p, j, table, zz);
    q := NextSymbol(t.Entries(), bits, p).next;
    NoBits(bits, q);
    hide Gives, NextSymbol, AcItems, AllIn, CodeTable.Valid, IsBlock, Reduces, Carries;
    LongRun(zz, j);
    ReducesBy(t, zz, bits, p, j, q, j + 16, ZRL);
  }

  /** If AC decoding gives a block, the bits carry what the encoder writes or are above it. */
  lemma {:induction false} AcAtLeast(t: CodeTable, zz: seq<int>, j: nat, bits: BitString, p: nat, table: seq<int>)
    requires t.Valid() && EobFirst(t) && IsBlock(zz) && j <= 63 && AllIn(t, AcItems(zz, j + 1, 0))
    requires Gives(t.Entries(), bits, p, j, table, zz)
    ensures AtLeast(bits, p, EncodeItems(t, AcItems(zz, j + 1, 0)))
    decreases 63 - j
  {
    assert |zz| == 64;
    hide NextSymbol, AtLeast, CodeTable.Entries, CodeTable.Valid, AcItems, EncodeItems, EobFirst, AllIn, Gives, ZerosTo,
         IsBlock;
    if j == 63 {
      NothingAtLeast(t, zz, bits, p);
    } else {
      GivesEnd(t.Entries(), bits, p, j, table, zz);
      var comb := NextSymbol(t.Entries(), bits, p).value;
      if comb as nat % 16 != 0 {
        var q, k := ValueTurn(t, zz, j, bits, p, table);
        AcAtLeast(t, zz, k, bits, q, table[k := zz[k]]);
      } else if comb != 0xF0 || ZerosTo(zz, j, 63) {
        ZerosAtLeast(t, zz, j, bits, p);
      } else {
        var q := RunTurn(t, zz, j, bits, p, table);
        AcAtLeast(t, zz, j + 16, bits, q, table);
      }
    }
  }

  // Blocks and scans

  /** What a decoded block says about its beginning. */
  lemma DecodedStart(dc: CodeTable, ac: CodeTable, zz: seq<int>, lastDC: int, bits: BitString, p: nat)
    returns (next: nat, size: nat)
    requires dc.Valid() && ac.Valid()
    requires var r := DecodeBlock(dc.Entries(), ac.Entries(), bits, p, lastDC); r.BlockDone? && r.zz == zz
    ensures |zz| == 64 && size < 256 && NextSymbol(dc.Entries(), bits, p) == Symbol(size as byte, next)
    ensures zz[0] - lastDC == Extend(ToNat(Window(bits, next, size)), size)
    ensures Gives(ac.Entries(), bits, next + size, 0, [zz[0]] + seq(63, _ => 0), zz)
  {
    hide NextSymbol, Window, Extend, ToNat, DecodeAc, CodeTable.Entries, Kraft;
    next, size := NextSymbol(dc.Entries(), bits, p).next, NextSymbol(dc.Entries(), bits, p).value as nat;
    BlockStart(zz);
  }

  lemma BlockAtLeast(dc: CodeTable, ac: CodeTable, zz: seq<int>, lastDC: int, bits: BitString, p: nat)
    requires Encodable(dc, ac, zz, lastDC) && EobFirst(ac)
    requires var r := DecodeBlock(dc.Entries(), ac.Entries(), bits, p, lastDC); r.BlockDone? && r.zz == zz
    ensures AtLeast(bits, p, EncodeBlock(dc, ac, zz, lastDC))
  {
    hide NextSymbol, Window, Extend, ToNat, DecodeBlock, Gives, Category, ExtraBits, AcItems, EncodeItems, AtLeast, EobFirst,
         Carries, CodeTable.CodeBits, CodeTable.Valid, CodeTable.Entries, AllIn;
    var next, size := DecodedStart(dc, ac, zz, lastDC, bits, p);
    var diff := zz[0] - lastDC;
    ReceivedValue(bits, next, size);
    ExtraBitsLength(diff);
    AcAtLeast(ac, zz, 0, bits, next + size, [zz[0]] + seq(63, _ => 0));
    SymbolAndBits(dc, size as byte, ExtraBits(diff), EncodeItems(ac, AcItems(zz, 1, 0)), bits, p);
  }

  /** In the tables for AC coefficients that the scan uses. */
  ghost predicate EobsFirst(ts: seq<CodeTable>, acY: nat)
    requires |ts| == 4 && acY < 3
  {
    EobFirst(ts[acY + 1]) && EobFirst(ts[3])
  }

  lemma EobFirstIn(ts: seq<CodeTable>, acY: nat, i: nat)
    requires |ts| == 4 && acY < 3 && EobsFirst(ts, acY)
    ensures EobFirst(ts[AcTable(acY, i)])
  {
  }

  /** What one block of a decoded scan is. */
  lemma DecodedBlock(tables: seq<seq<Entry>>, dcY: nat, acY: nat, blocks: seq<seq<int>>, preds: seq<int>, i: nat,
                     bits: BitString, p: nat) returns (next: nat)
    requires |tables| == 4 && dcY < 4 && acY < 3 && |preds| == 3 && i < |blocks|
    requires var r := DecodeBlocks(tables, dcY, acY, bits, p, preds, i, |blocks|); r.ScanDone? && r.blocks == blocks[i..]
    ensures |blocks[i]| == 64
    ensures DecodeBlock(tables[DcTable(dcY, i)], tables[AcTable(acY, i)], bits, p, preds[Component(i)])
         == BlockDone(blocks[i], next)
    ensures var r := DecodeBlocks(tables, dcY, acY, bits, next, preds[Component(i) := blocks[i][0]], i + 1, |blocks|);
      r.ScanDone? && r.blocks == blocks[i + 1..]
  {
    hide DecodeBlock;
    var b := DecodeBlock(tables[DcTable(dcY, i)], tables[AcTable(acY, i)], bits, p, preds[Component(i)]);
    next := b.next;
    var rest := DecodeBlocks(tables, dcY, acY, bits, next, preds[Component(i) := b.zz[0]], i + 1, |blocks|);
    assert blocks[i..] == [b.zz] + rest.blocks;
    assert blocks[i..][0] == blocks[i] && blocks[i..][1..] == blocks[i + 1..];
    assert ([b.zz] + rest.blocks)[1..] == rest.blocks;
  }

  /** `EncodeBlocks`, one block at a time. */
  lemma EncodeStep(ts: seq<CodeTable>, dcY: nat, acY: nat, blocks: seq<seq<int>>, preds: seq<int>, i: nat)
    requires |ts| == 4 && dcY < 4 && acY < 3 && |preds| == 3 && i < |blocks| && |blocks[i]| == 64
    requires ScanEncodable(ts, dcY, acY, blocks, preds, i)
    ensures Encodable(ts[DcTable(dcY, i)], ts[AcTable(acY, i)], blocks[i], preds[Component(i)])
    ensures var next := preds[Component(i) := blocks[i][0]];
      && ScanEncodable(ts, dcY, acY, blocks, next, i + 1)
      && EncodeBlocks(ts, dcY, acY, blocks, preds, i)
         == EncodeBlock(ts[DcTable(dcY, i)], ts[AcTable(acY, i)], blocks[i], preds[Component(i)])
            + EncodeBlocks(ts, dcY, acY, blocks, next, i + 1)
  {
    hide Encodable, EncodeBlock;
  }

  lemma NoBlocksLeft(ts: seq<CodeTable>, dcY: nat, acY: nat, blocks: seq<seq<int>>, preds: seq<int>, bits: BitString, p: nat)
    requires |ts| == 4 && dcY < 4 && acY < 3 && |preds| == 3 && ScanEncodable(ts, dcY, acY, blocks, preds, |blocks|)
    ensures AtLeast(bits, p, EncodeBlocks(ts, dcY, acY, blocks, preds, |blocks|))
  {
  }

  lemma TableEntries(ts: seq<CodeTable>, tables: seq<seq<Entry>>, k: nat)
    requires SameTables(ts, tables) && k < 4
    ensures |ts| == |tables| == 4 && ts[k].Valid() && tables[k] == ts[k].Entries()
  {
  }

  /** If the decoder gives the blocks, the bits are their code or above it. */
  lemma {:induction false} ScanAtLeast(ts: seq<CodeTable>, tables: seq<seq<Entry>>, dcY: nat, acY: nat,
                                       blocks: seq<seq<int>>, preds: seq<int>, i: nat, bits: BitString, p: nat)
    requires SameTables(ts, tables) && |ts| == |tables| == 4 && dcY < 4 && acY < 3 && EobsFirst(ts, acY)
    requires |preds| == 3 && i <= |blocks|
    requires ScanEncodable(ts, dcY, acY, blocks, preds, i)
    requires var r := DecodeBlocks(tables, dcY, acY, bits, p, preds, i, |blocks|); r.ScanDone? && r.blocks == blocks[i..]
    ensures AtLeast(bits, p, EncodeBlocks(ts, dcY, acY, blocks, preds, i))
    decreases |blocks| - i
  {
    hide *;
    if i == |blocks| {
      NoBlocksLeft(ts, dcY, acY, blocks, preds, bits, p);
    } else {
      var c, d, a := Component(i), DcTable(dcY, i), AcTable(acY, i);
      TablesInRange(dcY, acY, i);
      var next := DecodedBlock(tables, dcY, acY, blocks, preds, i, bits, p);
      EncodeStep(ts, dcY, acY, blocks, preds, i);
      EobFirstIn(ts, acY, i);
      TableEntries(ts, tables, d);
      TableEntries(ts, tables, a);
      var code := EncodeBlock(ts[d], ts[a], blocks[i], preds[c]);
      BlockAtLeast(ts[d], ts[a], blocks[i], preds[c], bits, p);
      ScanAtLeast(ts, tables, dcY, acY, blocks, preds[c := blocks[i][0]], i + 1, bits, next);
      if Carries(bits, p, code) {
        BlockRoundTrip(ts[d], ts[a], blocks[i], preds[c], bits, p);
      }
      AtLeastJoin(bits, p, code, EncodeBlocks(ts, dcY, acY, blocks, preds[c := blocks[i][0]], i + 1));
    }
  }

  lemma TablesInRange(dcY: nat, acY: nat, i: nat)
    requires dcY < 4 && acY < 3
    ensures Component(i) < 3 && DcTable(dcY, i) < 4 && AcTable(acY, i) < 4
  {
  }

  // What the reader does

  /** What the decoder sees where it first sees another bit than was coded is a zero. */
  lemma NotAbove(mem: Memory, start: nat, code: seq<bool>)
    requires At(mem, start, Stuff(Pack(Pad(code))))
    ensures !Above(Stream(mem, start), 0, code)
  {
    var data := Pack(Pad(code));
    StuffedHolds(mem, start, data);
    var k := FirstMissed(data, 0);
    forall d | 0 <= d < |code| && Carries(Stream(mem, start), 0, code[..d]) && !code[d]
      ensures !Stream(mem, start)(0 + d)
    {
      ZeroStaysZero(mem, start, code, k, d);
    }
    hide Carries, Stream, Stuff;
  }

  lemma ZeroStaysZero(mem: Memory, start: nat, code: seq<bool>, k: nat, d: nat)
    requires Stuffing.Holds(mem, start, Pack(Pad(code))) && d < |code| && !code[d]
    requires var data := Pack(Pad(code)); k <= |data| && NoneMissed(data, k) && (k < |data| ==> Missed(data, k))
    requires Carries(Stream(mem, start), 0, code[..d])
    ensures !Stream(mem, start)(d)
  {
    CodeBit(mem, start, code, d);
    hide Pack, Pad, FromNat, Stream, Carries, Stuffing.Holds, NoneMissed, Place, Delivered;
    if d / 8 < k {
      SeenBeforeMissed(mem, start, Pack(Pad(code)), k);
    } else if d / 8 == k {
      SeenBehindMissed(mem, start, Pack(Pad(code)), k, k);
      assert Pack(Pad(code))[k] == 0xFF;
    } else {
      CodeIsZeroBehind(mem, start, code, d, k, d / 8);
      BitBehindMissed(mem, start, code, k, d);
    }
  }

  /**
    The round trip of a scan, exactly: a stuffed code decodes to the blocks that were coded if
    and only if no symbol has the last code of its table and the decoder sees the bits of the
    code; for any tables in which the end of block comes before other symbols without bits.
   */
  lemma ScanRoundTripIff(ts: seq<CodeTable>, tables: seq<seq<Entry>>, dcY: nat, acY: nat,
                         blocks: seq<seq<int>>, mem: Memory, start: nat)
    requires SameTables(ts, tables) && dcY < 4 && acY < 3 && EobsFirst(ts, acY)
    requires ScanEncodable(ts, dcY, acY, blocks, [0, 0, 0], 0)
    requires At(mem, start, Stuff(EntropyCoded(ts, dcY, acY, blocks)))
    ensures var r := DecodeBlocks(tables, dcY, acY, Stream(mem, start), 0, [0, 0, 0], 0, |blocks|);
      r.ScanDone? && r.blocks == blocks
      <==> ScanReadable(ts, dcY, acY, blocks, [0, 0, 0], 0)
           && ZeroBitsBehindMissed(EncodeBlocks(ts, dcY, acY, blocks, [0, 0, 0], 0))
  {
    assert |tables| == |ts| == 4;
    hide DecodeBlocks, EncodeBlocks, ScanEncodable, ScanReadable, Stream, Pack, SameTables, EobsFirst, ZeroBitsBehindMissed,
         Carries, Above;
    var code := EncodeBlocks(ts, dcY, acY, blocks, [0, 0, 0], 0);
    var r := DecodeBlocks(tables, dcY, acY, Stream(mem, start), 0, [0, 0, 0], 0, |blocks|);
    assert blocks[0..] == blocks;
    if r.ScanDone? && r.blocks == blocks {
      ScanAtLeast(ts, tables, dcY, acY, blocks, [0, 0, 0], 0, Stream(mem, start), 0);
      NotAbove(mem, start, code);
      StuffedBitsIff(mem, start, code);
    }
    if ZeroBitsBehindMissed(code) {
      ScanRoundTrip(ts, tables, dcY, acY, blocks, mem, start);
    }
  }
}
