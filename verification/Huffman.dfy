/**
  Huffman tables of processJPEG_onlyCenter.c: the canonical codes that the DHT loop
  generates, and what a table lookup on a 32-bit window can find.
  The specification of the codes is Annex C.2 of ITU-T T.81 (figures C.1 and C.2).
 */
module Huffman {
  import opened Bits

  /** One column of the parallel arrays dht_lookup_bits, _mask, _bitlen and _code. */
  datatype Entry = Entry(bits: Word, mask: Word, len: nat, symbol: byte)

  /** HUFFSIZE: length `i` repeated as often as its count says, for i = 1, 2, ... */
  function Sizes(counts: seq<byte>): (sizes: seq<nat>)
    ensures forall k :: 0 <= k < |sizes| ==> 1 <= sizes[k] <= |counts|
    ensures forall j, k :: 0 <= j <= k < |sizes| ==> sizes[j] <= sizes[k]
  {
    if counts == [] then [] else
      var n := |counts| - 1;
      Sizes(counts[..n]) + seq(counts[n] as nat, _ => n + 1)
  }

  ghost predicate Ordered(sizes: seq<nat>) {
    && (forall k :: 0 <= k < |sizes| ==> 1 <= sizes[k] <= 16)
    && (forall j, k :: 0 <= j <= k < |sizes| ==> sizes[j] <= sizes[k])
  }

  /** HUFFCODE: add one, and append a zero bit for every step in length. */
  function Code(sizes: seq<nat>, k: nat): nat
    requires k < |sizes|
    requires forall j, i :: 0 <= j <= i < |sizes| ==> sizes[j] <= sizes[i]
  {
    if k == 0 then 0 else (Code(sizes, k - 1) + 1) * Pow2(sizes[k] - sizes[k - 1])
  }

  /** The values that lines 105-108 store for a code. */
  function MakeEntry(code: nat, len: nat, symbol: byte): Entry
    requires 1 <= len <= 16
  {
    Entry(ShiftLeft(IntToWord(code), 32 - len), ShiftLeft(IntToWord(Pow2(len) - 1), 32 - len), len, symbol)
  }

  function Table(sizes: seq<nat>, symbols: seq<byte>): (t: seq<Entry>)
    requires Ordered(sizes) && |symbols| == |sizes|
    ensures |t| == |sizes|
  {
    seq(|sizes|, k requires 0 <= k < |sizes| => MakeEntry(Code(sizes, k), sizes[k], symbols[k]))
  }

  /** The comparison on line 153. */
  predicate Matches(e: Entry, window: Word) {
    And(window, e.mask) == e.bits
  }

  // Where the codes lie on the line of all 32-bit windows

  /** The windows covered by the first `k` codes, counted. */
  function Start(sizes: seq<nat>, k: nat): nat
    requires k <= |sizes|
    requires forall j :: 0 <= j < |sizes| ==> sizes[j] <= 16
  {
    if k == 0 then 0 else Start(sizes, k - 1) + Pow2(32 - sizes[k - 1])
  }

  /** Kraft's inequality, scaled by 2^32. */
  ghost predicate Kraft(sizes: seq<nat>)
    requires Ordered(sizes)
  {
    Start(sizes, |sizes|) <= Pow2(32)
  }

  /** Left-aligned, the k-th code begins where the codes before it end. */
  lemma {:induction false} CodesAreConsecutive(sizes: seq<nat>, k: nat)
    requires Ordered(sizes) && k < |sizes|
    ensures Code(sizes, k) * Pow2(32 - sizes[k]) == Start(sizes, k)
  {
    if k > 0 {
      CodesAreConsecutive(sizes, k - 1);
      var c, step, rest := Code(sizes, k - 1) + 1, Pow2(sizes[k] - sizes[k - 1]), Pow2(32 - sizes[k]);
      Pow2Add(sizes[k] - sizes[k - 1], 32 - sizes[k]);
      MulAssociative(c, step, rest);
      MulDistributes(Code(sizes, k - 1), 1, Pow2(32 - sizes[k - 1]));
    }
  }

  lemma {:induction false} StartMonotone(sizes: seq<nat>, j: nat, k: nat)
    requires Ordered(sizes) && j <= k <= |sizes|
    ensures Start(sizes, j) <= Start(sizes, k)
    decreases k
  {
    if j < k {
      StartMonotone(sizes, j, k - 1);
    }
  }

  /** The mask of line 107 keeps exactly the `len` most significant bits. */
  lemma MaskShape(len: nat)
    requires 1 <= len <= 16
    ensures ShiftLeft(IntToWord(Pow2(len) - 1), 32 - len) == Ones(len) + Zeros(32 - len)
  {
    FromNatSuffix(Pow2(len) - 1, 32, len);
    FromNatOnes(len);
  }

  lemma BitsShape(code: nat, len: nat)
    requires 1 <= len <= 16
    ensures ShiftLeft(IntToWord(code), 32 - len) == FromNat(code, len) + Zeros(32 - len)
  {
    FromNatSuffix(code, 32, len);
  }

  /** An entry matches a window exactly when the window begins with its code. */
  lemma MatchesIsPrefix(code: nat, len: nat, symbol: byte, window: Word)
    requires 1 <= len <= 16
    ensures Matches(MakeEntry(code, len, symbol), window) <==> window[..len] == FromNat(code, len)
  {
    var e := MakeEntry(code, len, symbol);
    MaskShape(len);
    BitsShape(code, len);
    var masked := And(window, e.mask);
    assert masked == window[..len] + Zeros(32 - len);
    assert masked[..len] == window[..len] && e.bits[..len] == FromNat(code, len);
  }

  lemma IntervalOfMultiple(hi: nat, lo: nat, code: nat, unit: nat)
    requires lo < unit
    ensures hi == code <==> code * unit <= hi * unit + lo < code * unit + unit
  {
    MulDistributes(hi, code, unit);
    MulCommutes(unit, hi - code);
    NoMultipleBetween(unit, hi - code);
  }

  lemma PrefixIsInterval(window: Word, code: nat, len: nat)
    requires 1 <= len <= 16 && code < Pow2(len)
    ensures window[..len] == FromNat(code, len)
       <==> code * Pow2(32 - len) <= ToNat(window) < code * Pow2(32 - len) + Pow2(32 - len)
  {
    var hi, lo, unit := ToNat(window[..len]), ToNat(window[len..]), Pow2(32 - len);
    assert window == window[..len] + window[len..];
    ToNatConcat(window[..len], window[len..]);
    assert window[..len] == FromNat(code, len) <==> hi == code by {
      ToNatOfSmall(code, len);
      FromNatOfToNat(window[..len]);
    }
    IntervalOfMultiple(hi, lo, code, unit);
  }

  /** How far the k-th code is from 2^sizes[k] follows from how far it begins from 2^32. */
  lemma DistanceToTop(sizes: seq<nat>, k: nat)
    requires Ordered(sizes) && k < |sizes|
    ensures Pow2(32 - sizes[k]) * (Pow2(sizes[k]) - Code(sizes, k)) == Pow2(32) - Start(sizes, k)
  {
    hide Start, Code, Pow2;
    CodesAreConsecutive(sizes, k);
    Pow2Add(sizes[k], 32 - sizes[k]);
    var unit := Pow2(32 - sizes[k]);
    MulDistributes(Pow2(sizes[k]), Code(sizes, k), unit);
    MulCommutes(unit, Pow2(sizes[k]) - Code(sizes, k));
  }

  lemma CodeFits(sizes: seq<nat>, k: nat)
    requires Ordered(sizes) && k < |sizes| && Start(sizes, k + 1) <= Pow2(32)
    ensures Code(sizes, k) < Pow2(sizes[k])
  {
    hide Code, Pow2;
    DistanceToTop(sizes, k);
    var unit, d := Pow2(32 - sizes[k]), Pow2(sizes[k]) - Code(sizes, k);
    assert unit * d >= unit;
    NoMultipleBetween(unit, d);
  }

  /** Under Kraft's inequality the codes tile an initial stretch of the windows, in order. */
  lemma EntryCoversInterval(sizes: seq<nat>, symbols: seq<byte>, k: nat, window: Word)
    requires Ordered(sizes) && |symbols| == |sizes| && Kraft(sizes) && k < |sizes|
    ensures Matches(Table(sizes, symbols)[k], window)
       <==> Start(sizes, k) <= ToNat(window) < Start(sizes, k + 1)
  {
    StartMonotone(sizes, k + 1, |sizes|);
    CodeFits(sizes, k);
    CodesAreConsecutive(sizes, k);
    MatchesIsPrefix(Code(sizes, k), sizes[k], symbols[k], window);
    PrefixIsInterval(window, Code(sizes, k), sizes[k]);
  }

  ghost predicate Unambiguous(t: seq<Entry>) {
    forall w: Word, j, k :: 0 <= j < k < |t| ==> !(Matches(t[j], w) && Matches(t[k], w))
  }

  lemma AtMostOneMatch(sizes: seq<nat>, symbols: seq<byte>, j: nat, k: nat, w: Word)
    requires Ordered(sizes) && |symbols| == |sizes| && Kraft(sizes) && j < k < |sizes|
    ensures !(Matches(Table(sizes, symbols)[j], w) && Matches(Table(sizes, symbols)[k], w))
  {
    hide *;
    EntryCoversInterval(sizes, symbols, j, w);
    EntryCoversInterval(sizes, symbols, k, w);
    StartMonotone(sizes, j + 1, k);
  }

  lemma UnambiguousUnderKraft(sizes: seq<nat>, symbols: seq<byte>)
    requires Ordered(sizes) && |symbols| == |sizes| && Kraft(sizes)
    ensures Unambiguous(Table(sizes, symbols))
  {
    var t := Table(sizes, symbols);
    forall w: Word, j, k | 0 <= j < k < |t| ensures !(Matches(t[j], w) && Matches(t[k], w)) {
      AtMostOneMatch(sizes, symbols, j, k, w);
    }
  }

  /** A code that does not fit, after codes that do, begins exactly at 2^32. */
  lemma OverflowStep(sizes: seq<nat>, k: nat)
    requires Ordered(sizes) && k < |sizes| && Start(sizes, k) <= Pow2(32) < Start(sizes, k + 1)
    ensures Start(sizes, k) == Pow2(32)
  {
    hide Code, Pow2;
    DistanceToTop(sizes, k);
    var unit, d := Pow2(32 - sizes[k]), Pow2(sizes[k]) - Code(sizes, k);
    assert Start(sizes, k + 1) == Start(sizes, k) + unit;
    NoMultipleBetween(unit, d);
  }

  lemma {:induction false} FirstOverflow(sizes: seq<nat>, n: nat) returns (k: nat)
    requires Ordered(sizes) && n <= |sizes| && Start(sizes, n) > Pow2(32)
    ensures 0 < k < n && Start(sizes, k) == Pow2(32)
  {
    hide Pow2;
    if Start(sizes, n - 1) > Pow2(32) {
      k := FirstOverflow(sizes, n - 1);
    } else {
      k := n - 1;
      OverflowStep(sizes, k);
    }
  }

  /** A code that begins at 2^32 has lost its leading one to the 32-bit shift. */
  lemma OverflowMatchesZero(sizes: seq<nat>, symbols: seq<byte>, k: nat)
    requires Ordered(sizes) && |symbols| == |sizes| && k < |sizes|
    requires Start(sizes, k) == Pow2(32) || k == 0
    ensures Matches(Table(sizes, symbols)[k], Zeros(32))
  {
    hide Pow2, Start;
    if k > 0 {
      DistanceToTop(sizes, k);
      NoMultipleBetween(Pow2(32 - sizes[k]), Pow2(sizes[k]) - Code(sizes, k));
    }
    AllZeroCode(Code(sizes, k), sizes[k]);
    MatchesIsPrefix(Code(sizes, k), sizes[k], symbols[k], Zeros(32));
    assert Zeros(32)[..sizes[k]] == Zeros(sizes[k]);
  }

  lemma AmbiguousWithoutKraft(sizes: seq<nat>, symbols: seq<byte>)
    requires Ordered(sizes) && |symbols| == |sizes| && !Kraft(sizes)
    ensures !Unambiguous(Table(sizes, symbols))
  {
    var t := Table(sizes, symbols);
    var k := FirstOverflow(sizes, |sizes|);
    OverflowMatchesZero(sizes, symbols, 0);
    OverflowMatchesZero(sizes, symbols, k);
    var w: Word := Zeros(32);
    assert Matches(t[0], w) && Matches(t[k], w);
  }

  lemma AllZeroCode(x: nat, n: nat)
    requires x == 0 || x == Pow2(n)
    ensures FromNat(x, n) == Zeros(n)
  {
    ToNatOfFromNat(x, n);
    ModUnique(x, Pow2(n), if x == 0 then 0 else 1, 0);
    ToNatZeros(n);
    ToNatInjective(FromNat(x, n), Zeros(n));
  }

  /**
    The tables that the loop generates are prefix-free exactly when the length counts obey
    Kraft's inequality. When they do not, the code that overflows wraps round to the
    all-zero code, so the scan order decides.
   */
  lemma PrefixFreeIffKraft(sizes: seq<nat>, symbols: seq<byte>)
    requires Ordered(sizes) && |symbols| == |sizes|
    ensures Unambiguous(Table(sizes, symbols)) <==> Kraft(sizes)
  {
    if Kraft(sizes) {
      UnambiguousUnderKraft(sizes, symbols);
    } else {
      AmbiguousWithoutKraft(sizes, symbols);
    }
  }

  // The linear scan of lines 151-163

  /** The first entry from `k` on that matches, or |t|. */
  function FirstMatch(t: seq<Entry>, window: Word, k: nat): (r: nat)
    requires k <= |t|
    ensures k <= r <= |t|
    ensures r < |t| ==> Matches(t[r], window)
    ensures forall j :: k <= j < r ==> !Matches(t[j], window)
    decreases |t| - k
  {
    if k == |t| || Matches(t[k], window) then k else FirstMatch(t, window, k + 1)
  }

  lemma FirstMatchIsOnlyMatch(t: seq<Entry>, window: Word, k: nat)
    requires Unambiguous(t) && k < |t| && Matches(t[k], window)
    ensures FirstMatch(t, window, 0) == k
  {
    hide Matches;
    var r := FirstMatch(t, window, 0);
    assert r <= k && Matches(t[r], window);
  }

  /** A window that begins with the k-th code is recognised as the k-th entry. */
  lemma ScanFindsCode(sizes: seq<nat>, symbols: seq<byte>, k: nat, window: Word)
    requires Ordered(sizes) && |symbols| == |sizes| && Kraft(sizes) && k < |sizes|
    requires window[..sizes[k]] == FromNat(Code(sizes, k), sizes[k])
    ensures FirstMatch(Table(sizes, symbols), window, 0) == k
  {
    hide Matches, Unambiguous, FirstMatch;
    MatchesIsPrefix(Code(sizes, k), sizes[k], symbols[k], window);
    UnambiguousUnderKraft(sizes, symbols);
    FirstMatchIsOnlyMatch(Table(sizes, symbols), window, k);
  }
}
