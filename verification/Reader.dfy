/**
  The 32-bit bit reservoir of processJPEG_onlyCenter.c, with `readXC` and the RECEIVE step.
  The reservoir refines one infinite bit string, the bits of all bytes the refill loops
  will ever deliver: its top `bitlen` bits are the next ones, and `Gpos` is where the rest
  comes from.
 */
module Reader {
  import opened Bits
  import opened Huffman
  import opened Stuffing
  import opened Dht

  type BitString = nat -> bool

  /** Bit `i` of the scan. */
  function BitAt(mem: Memory, start: nat, i: nat): bool {
    FromNat(ByteAt(mem, start, i / 8) as nat, 8)[i % 8]
  }

  ghost function Stream(mem: Memory, start: nat): BitString {
    (i: nat) => BitAt(mem, start, i)
  }

  /** The `n` bits from `p` on. */
  function Window(bits: BitString, p: nat, n: nat): (w: seq<bool>)
    ensures |w| == n
  {
    seq(n, i requires 0 <= i < n => bits(p + i))
  }

  // Tables whose masks select a prefix of at most 16 bits

  ghost predicate Usable(t: seq<Entry>) {
    forall k :: 0 <= k < |t| ==> 1 <= t[k].len <= 16 && t[k].mask == Ones(t[k].len) + Zeros(32 - t[k].len)
  }

  lemma CanonicalIsUsable(sizes: seq<nat>, symbols: seq<byte>)
    requires Ordered(sizes) && |symbols| == |sizes|
    ensures Usable(Huffman.Table(sizes, symbols))
  {
    hide ShiftLeft, IntToWord, Pow2, Code;
    var t := Huffman.Table(sizes, symbols);
    forall k | 0 <= k < |t| ensures 1 <= t[k].len <= 16 && t[k].mask == Ones(t[k].len) + Zeros(32 - t[k].len) {
      MaskShape(sizes[k]);
    }
  }

  lemma MatchesOnPrefix(e: Entry, v: Word, w: Word)
    requires 1 <= e.len <= 16 && e.mask == Ones(e.len) + Zeros(32 - e.len)
    requires forall i :: 0 <= i < 16 ==> v[i] == w[i]
    ensures Matches(e, v) == Matches(e, w)
  {
    assert And(v, e.mask) == And(w, e.mask);
  }

  lemma {:induction false} FirstMatchOnPrefix(t: seq<Entry>, v: Word, w: Word, k: nat)
    requires Usable(t) && k <= |t|
    requires forall i :: 0 <= i < 16 ==> v[i] == w[i]
    ensures FirstMatch(t, v, k) == FirstMatch(t, w, k)
    decreases |t| - k
  {
    hide Matches;
    if k < |t| {
      MatchesOnPrefix(t[k], v, w);
      FirstMatchOnPrefix(t, v, w, k + 1);
    }
  }

  // What a table lookup yields

  datatype Symbol = NoSymbol | Symbol(value: byte, next: nat)

  /**
    The symbol at `p`. A code that the scan finds in the last place of the table counts as
    not found (lines 158-162).
   */
  function NextSymbol(t: seq<Entry>, bits: BitString, p: nat): Symbol {
    var k := FirstMatch(t, Window(bits, p, 16) + Zeros(16), 0);
    if k + 1 < |t| then Symbol(t[k].symbol, p + t[k].len) else NoSymbol
  }

  /** HUFF_EXTEND, with its shifts as multiplications; size 0 stands for the difference 0. */
  function Extend(x: nat, size: nat): int {
    if size == 0 then 0
    else if x < Pow2(size - 1) then x - Pow2(size) + 1
    else x
  }

  // Filling the register

  lemma {:induction false} SmallNumberBits(x: nat, m: nat, n: nat)
    requires x < Pow2(m) && m <= n
    ensures forall i :: 0 <= i < n - m ==> !FromNat(x, n)[i]
    ensures forall i :: 0 <= i < m ==> FromNat(x, n)[n - m + i] == FromNat(x, m)[i]
    decreases n
  {
    FromNatSuffix(x, n, m);
    forall i | 0 <= i < m ensures FromNat(x, n)[n - m + i] == FromNat(x, m)[i] {
      assert FromNat(x, n)[n - m..][i] == FromNat(x, m)[i];
    }
    if m == 0 {
      ToNatOfFromNat(0, n);
      ModUnique(0, Pow2(n), 0, 0);
      ToNatZeros(n);
      ToNatInjective(FromNat(x, n), Zeros(n));
    } else if m < n {
      SmallNumberBits(x / 2, m - 1, n - 1);
      var b, c := FromNat(x, n), FromNat(x / 2, n - 1);
      assert b == c + [x % 2 == 1];
    }
  }

  /** `data | (uc << (24 - bitlen))` appends a byte to the `used` bits of the register. */
  lemma AppendByte(data: Word, used: nat, b: byte) returns (r: Word)
    requires used < 24
    requires forall i :: used <= i < 32 ==> !data[i]
    ensures r == Or(data, ShiftLeft(IntToWord(b as nat), 24 - used))
    ensures forall i :: 0 <= i < used ==> r[i] == data[i]
    ensures forall i :: used <= i < used + 8 ==> r[i] == FromNat(b as nat, 8)[i - used]
    ensures forall i :: used + 8 <= i < 32 ==> !r[i]
  {
    var x := IntToWord(b as nat);
    assert Pow2(8) == 256;
    SmallNumberBits(b as nat, 8, 32);
    r := Or(data, ShiftLeft(x, 24 - used));
    forall i | 0 <= i < 32 ensures r[i] == (data[i] || (i < used + 8 && x[24 - used + i])) {
    }
    forall i | used <= i < used + 8 ensures r[i] == FromNat(b as nat, 8)[i - used] {
      assert x[24 + (i - used)] == FromNat(b as nat, 8)[i - used];
    }
  }

  /** The bytes that one pass of the refill loop delivers come next in the scan. */
  lemma PassSeen(mem: Memory, start: nat, n: nat, i: nat)
    requires i < |PassBytes(mem, Position(mem, start, n))|
    ensures ByteAt(mem, start, |Delivered(mem, start, n)| + i) == PassBytes(mem, Position(mem, start, n))[i]
  {
    hide Delivered, Position, ByteAt, PassBytes;
    OnePass(mem, start, n);
    DeliveredAt(mem, start, n + 1, |Delivered(mem, start, n)| + i);
  }

  /** A register with the `used` bits of the scan that follow the first `p`, and zeros below them. */
  ghost predicate Holding(mem: Memory, start: nat, data: Word, used: nat, p: nat) {
    && used <= 32
    && (forall i :: 0 <= i < used ==> data[i] == BitAt(mem, start, p + i))
    && (forall i :: used <= i < 32 ==> !data[i])
  }

  lemma AppendNext(mem: Memory, start: nat, data: Word, used: nat, p: nat, b: byte)
    requires Holding(mem, start, data, used, p) && used < 24
    requires (p + used) % 8 == 0 && b == ByteAt(mem, start, (p + used) / 8)
    ensures Holding(mem, start, Or(data, ShiftLeft(IntToWord(b as nat), 24 - used)), used + 8, p)
  {
    hide FromNat, BitAt, Or, ShiftLeft, ByteAt, IntToWord;
    var r := AppendByte(data, used, b);
    forall i | used <= i < used + 8 ensures r[i] == BitAt(mem, start, p + i) {
      var k := i - used;
      NextByteBits(mem, start, p + used, k);
      assert p + used + k == p + i && r[i] == FromNat(b as nat, 8)[k];
    }
    forall i | 0 <= i < used ensures r[i] == BitAt(mem, start, p + i) {
      assert r[i] == data[i];
    }
  }

  lemma NextByteBits(mem: Memory, start: nat, p: nat, i: nat)
    requires p % 8 == 0 && i < 8
    ensures BitAt(mem, start, p + i) == FromNat(ByteAt(mem, start, p / 8) as nat, 8)[i]
  {
    hide ByteAt, FromNat;
    assert (p + i) / 8 == p / 8 && (p + i) % 8 == i;
  }

  /** With 16 bits in the register the table scan sees what it would see in the scan itself. */
  lemma LookupInRegister(t: seq<Entry>, mem: Memory, start: nat, data: Word, used: nat, p: nat)
    requires Usable(t) && Holding(mem, start, data, used, p) && used >= 16
    ensures FirstMatch(t, data, 0) == FirstMatch(t, Window(Stream(mem, start), p, 16) + Zeros(16), 0)
    ensures FirstMatch(t, data, 0) < |t| ==> 1 <= t[FirstMatch(t, data, 0)].len <= 16
  {
    hide FirstMatch, Matches, BitAt;
    var w: Word := Window(Stream(mem, start), p, 16) + Zeros(16);
    assert forall i :: 0 <= i < 16 ==> data[i] == Stream(mem, start)(p + i);
    FirstMatchOnPrefix(t, data, w, 0);
  }

  class ScanReader {
    const mem: Memory
    const tables: HuffmanTables
    const start: nat
    var gpos: nat
    var data: Word
    var bitlen: nat
    ghost var passes: nat
    ghost var consumed: nat

    /** The register holds the next `bitlen` bits of the scan, and zeros below them. */
    ghost predicate InRegister()
      reads this`data, this`bitlen, this`consumed
    {
      Holding(mem, start, data, bitlen, consumed)
    }

    ghost predicate Valid()
      reads this
    {
      && InRegister()
      && gpos == Position(mem, start, passes)
      && consumed + bitlen == 8 * |Delivered(mem, start, passes)|
    }

    /** Lines 133-134: the first two bytes, as they are. */
    constructor (mem: Memory, start: nat, tables: HuffmanTables)
      ensures Valid() && consumed == 0 && bitlen == 16
      ensures this.mem == mem && this.start == start && this.tables == tables
    {
      this.mem, this.start, this.tables := mem, start, tables;
      passes, consumed := 0, 0;
      bitlen := 16;
      var high := ShiftLeft(IntToWord(mem(start) as nat), 24);
      data := Or(high, ShiftLeft(IntToWord(mem(start + 1) as nat), 16));
      gpos := start + 2;
      new;
      FirstBits(mem, start);
      hide BitAt, FromNat;
      var one := AppendByte(Zeros(32), 0, mem(start));
      assert one == high;
      var two := AppendByte(one, 8, mem(start + 1));
    }

    /** `data = data | (uc << (24 - bitlen)); bitlen += 8` for the next byte of the scan. */
    method ShiftIn(uc: byte)
      requires InRegister() && bitlen < 24 && (consumed + bitlen) % 8 == 0
      requires uc == ByteAt(mem, start, (consumed + bitlen) / 8)
      modifies this`data, this`bitlen
      ensures InRegister() && bitlen == old(bitlen) + 8
    {
      AppendNext(mem, start, data, bitlen, consumed, uc);
      hide Or, ShiftLeft, BitAt, ByteAt;
      data := Or(data, ShiftLeft(IntToWord(uc as nat), 24 - bitlen));
      bitlen := bitlen + 8;
    }

    /** One pass of the loop on lines 138-150 (and again on 165-177). */
    method RefillOnce()
      requires Valid() && bitlen < 16
      modifies this`gpos, this`data, this`bitlen, this`passes
      ensures Valid() && passes == old(passes) + 1 && bitlen > old(bitlen)
    {
      hide Position, Delivered, InRegister, ByteAt;
      OnePass(mem, start, passes);
      PassSeen(mem, start, passes, 0);
      var uc := mem(gpos);
      gpos := gpos + 1;
      ShiftIn(uc);
      if uc == 0xFF {
        PassSeen(mem, start, passes, 1);
        uc := mem(gpos);
        gpos := gpos + 1;
        if uc == 0 {
          uc := mem(gpos);
          gpos := gpos + 1;
        }
        ShiftIn(uc);
      }
      passes := passes + 1;
    }

    method Refill()
      requires Valid()
      modifies this`gpos, this`data, this`bitlen, this`passes
      ensures Valid() && bitlen >= 16 && passes >= old(passes)
    {
      while bitlen < 16
        invariant Valid() && passes >= old(passes)
        decreases 16 - bitlen
      {
        RefillOnce();
      }
    }

    /** `data <<= n; bitlen -= n`. */
    method Consume(n: nat)
      requires Valid() && n <= bitlen && n < 32
      modifies this`data, this`bitlen, this`consumed
      ensures Valid() && bitlen == old(bitlen) - n && consumed == old(consumed) + n
    {
      hide BitAt, Delivered, Position;
      ghost var before := data;
      data := ShiftLeft(data, n);
      bitlen := bitlen - n;
      consumed := consumed + n;
      assert forall i :: 0 <= i < 32 - n ==> data[i] == before[n + i];
    }

    /** The linear scan of lines 151-163; `k` is the matching entry, or nothing counts as found. */
    method Find(tab: nat) returns (found: bool, k: nat)
      requires tables.Valid() && tab < 4
      ensures found <==> FirstMatch(tables.Table(tab), data, 0) + 1 < |tables.Table(tab)|
      ensures found ==> k == FirstMatch(tables.Table(tab), data, 0)
    {
      hide Matches;
      ghost var t := tables.Table(tab);
      k := 0;
      var done := false;
      while !done
        invariant k <= FirstMatch(t, data, 0)
        invariant k == 0 || k < |t|
        invariant done ==> k == FirstMatch(t, data, 0) && k + 1 < |t|
        decreases !done, |t| - k
      {
        assert k < |t| ==> t[k] == tables.lookup[tab, k];
        if Matches(tables.lookup[tab, k], data) {
          done := true;
        }
        if k + 1 >= tables.size[tab] {
          return false, k;
        }
        if !done {
          k := k + 1;
        }
      }
      found := true;
    }

    /** One symbol from table `tab`, or -1; afterwards at least 16 bits are held. */
    method ReadXC(tab: nat) returns (res: int)
      requires Valid() && tables.Valid() && tab < 4 && Usable(tables.Table(tab))
      modifies this`gpos, this`data, this`bitlen, this`passes, this`consumed
      ensures Valid() && bitlen >= 16
      ensures match NextSymbol(tables.Table(tab), Stream(mem, start), old(consumed))
              case NoSymbol => res == -1 && consumed == old(consumed)
              case Symbol(value, next) => res == value as int && consumed == next
    {
      Refill();
      hide FirstMatch, Window, BitAt, Delivered, Position, Usable;
      LookupInRegister(tables.Table(tab), mem, start, data, bitlen, consumed);
      var found, k := Find(tab);
      if !found {
        return -1;
      }
      ghost var e := tables.Table(tab)[k];
      res := tables.lookup[tab, k].symbol as int;
      Consume(tables.lookup[tab, k].len);
      Refill();
    }

    /** RECEIVE of `size` bits, as lines 189 and 207 do it with `mask[size]`. */
    method Receive(size: nat) returns (value: nat)
      requires Valid() && size <= 16 <= bitlen
      modifies this`data, this`bitlen, this`consumed
      ensures Valid() && bitlen == old(bitlen) - size
      ensures consumed == old(consumed) + size
      ensures value == ToNat(Window(Stream(mem, start), old(consumed), size))
    {
      hide BitAt, Position, Delivered, ToNat;
      if size == 0 {
        EmptyWindow(Stream(mem, start), consumed);
        value := 0;
      } else {
        value := ToNat(And(ShiftRightSigned(data, 32 - size), IntToWord(Pow2(size) - 1)));
        TopBits(data, size);
        assert forall i :: 0 <= i < size ==> data[i] == Stream(mem, start)(consumed + i);
        assert data[..size] == Window(Stream(mem, start), consumed, size);
        Consume(size);
      }
    }
  }

  lemma EmptyWindow(bits: BitString, p: nat)
    ensures ToNat(Window(bits, p, 0)) == 0
  {
  }

  lemma FirstBits(mem: Memory, start: nat)
    ensures forall i :: 0 <= i < 16 ==> BitAt(mem, start, i) == FromNat(mem(start + i / 8) as nat, 8)[i % 8]
  {
    forall i | 0 <= i < 16 ensures BitAt(mem, start, i) == FromNat(mem(start + i / 8) as nat, 8)[i % 8] {
      DeliveredAt(mem, start, 0, i / 8);
    }
  }

  /** The entries of the table `mask[17]`. */
  lemma LowMask(size: nat)
    requires size <= 16
    ensures IntToWord(Pow2(size) - 1) == Zeros(32 - size) + Ones(size)
  {
    var x := Pow2(size) - 1;
    SmallNumberBits(x, size, 32);
    FromNatSuffix(x, 32, size);
    FromNatOnes(size);
    hide FromNat, Pow2;
    assert FromNat(x, 32) == FromNat(x, 32)[..32 - size] + FromNat(x, 32)[32 - size..];
    assert FromNat(x, 32)[..32 - size] == Zeros(32 - size);
  }

  lemma KeepLow(w: Word, size: nat)
    requires size <= 32
    ensures And(w, Zeros(32 - size) + Ones(size)) == Zeros(32 - size) + w[32 - size..]
  {
  }

  /** `(data >> (32 - size)) & mask[size]` is the number in the top `size` bits. */
  lemma TopBits(data: Word, size: nat)
    requires 1 <= size <= 16
    ensures ToNat(And(ShiftRightSigned(data, 32 - size), IntToWord(Pow2(size) - 1))) == ToNat(data[..size])
  {
    hide ToNat, Pow2, IntToWord, And, ShiftRightSigned;
    var shifted := ShiftRightSigned(data, 32 - size);
    LowMask(size);
    KeepLow(shifted, size);
    SignCopies(data, 32 - size);
    LeadingZeros(32 - size, data[..size]);
  }

  lemma SignCopies(w: Word, k: nat)
    requires k < 32
    ensures ShiftRightSigned(w, k)[k..] == w[..32 - k]
  {
  }

  lemma LeadingZeros(n: nat, b: seq<bool>)
    ensures ToNat(Zeros(n) + b) == ToNat(b)
  {
    hide ToNat, Pow2;
    ToNatConcat(Zeros(n), b);
    ToNatZeros(n);
  }
}
