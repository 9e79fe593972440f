/**
  The tables that `memcpy_picture` puts into a picture (`dht_data` of huffman.h), and what
  they mean to the decoder of the autofocus plugin.
 */
module StandardTables {
  import opened Bits
  import opened BlockCodec
  import opened Dht
  import opened DhtSplice
  import opened Huffman
  import opened Interleave
  import opened Misread
  import opened Reader
  import opened Scan
  import opened Stuffing

  // Section K.3 of T.81

  const DC_LUMINANCE_COUNTS: seq<byte> := [0, 1, 5, 1, 1, 1, 1, 1, 1, 0, 0, 0, 0, 0, 0, 0]
  const DC_LUMINANCE_FIRST: seq<byte> :=
    [0x00, 0x01, 0x02, 0x03, 0x04, 0x05, 0x06, 0x07, 0x08, 0x09, 0x0A]
  const DC_LUMINANCE_SYMBOLS: seq<byte> := DC_LUMINANCE_FIRST + [0x0B]
  const DC_LUMINANCE := TableSpec(0, 0, DC_LUMINANCE_COUNTS, DC_LUMINANCE_SYMBOLS)

  const DC_CHROMINANCE_COUNTS: seq<byte> := [0, 3, 1, 1, 1, 1, 1, 1, 1, 1, 1, 0, 0, 0, 0, 0]
  const DC_CHROMINANCE_FIRST: seq<byte> :=
    [0x00, 0x01, 0x02, 0x03, 0x04, 0x05, 0x06, 0x07, 0x08, 0x09, 0x0A]
  const DC_CHROMINANCE_SYMBOLS: seq<byte> := DC_CHROMINANCE_FIRST + [0x0B]
  const DC_CHROMINANCE := TableSpec(0, 1, DC_CHROMINANCE_COUNTS, DC_CHROMINANCE_SYMBOLS)

  const AC_LUMINANCE_COUNTS: seq<byte> := [0, 2, 1, 3, 3, 2, 4, 3, 5, 5, 4, 4, 0, 0, 1, 125]
  const AC_LUMINANCE_A: seq<byte> :=
    [0x01, 0x02, 0x03, 0x00, 0x04, 0x11, 0x05, 0x12, 0x21, 0x31, 0x41, 0x06, 0x13, 0x51, 0x61, 0x07, 0x22, 0x71]
    + [0x14, 0x32, 0x81, 0x91, 0xA1, 0x08, 0x23, 0x42, 0xB1, 0xC1, 0x15, 0x52, 0xD1, 0xF0, 0x24, 0x33, 0x62, 0x72]
    + [0x82, 0x09, 0x0A, 0x16, 0x17, 0x18, 0x19, 0x1A, 0x25, 0x26, 0x27, 0x28, 0x29, 0x2A, 0x34, 0x35, 0x36, 0x37]
  const AC_LUMINANCE_B: seq<byte> :=
    [0x38, 0x39, 0x3A, 0x43, 0x44, 0x45, 0x46, 0x47, 0x48, 0x49, 0x4A, 0x53, 0x54, 0x55, 0x56, 0x57, 0x58, 0x59]
    + [0x5A, 0x63, 0x64, 0x65, 0x66, 0x67, 0x68, 0x69, 0x6A, 0x73, 0x74, 0x75, 0x76, 0x77, 0x78, 0x79, 0x7A, 0x83]
    + [0x84, 0x85, 0x86, 0x87, 0x88, 0x89, 0x8A, 0x92, 0x93, 0x94, 0x95, 0x96, 0x97, 0x98, 0x99, 0x9A, 0xA2, 0xA3]
  const AC_LUMINANCE_C: seq<byte> :=
    [0xA4, 0xA5, 0xA6, 0xA7, 0xA8, 0xA9, 0xAA, 0xB2, 0xB3, 0xB4, 0xB5, 0xB6, 0xB7, 0xB8, 0xB9, 0xBA, 0xC2, 0xC3]
    + [0xC4, 0xC5, 0xC6, 0xC7, 0xC8, 0xC9, 0xCA, 0xD2, 0xD3, 0xD4, 0xD5, 0xD6, 0xD7, 0xD8, 0xD9, 0xDA, 0xE1, 0xE2]
    + [0xE3, 0xE4, 0xE5, 0xE6, 0xE7, 0xE8, 0xE9, 0xEA, 0xF1, 0xF2, 0xF3, 0xF4, 0xF5, 0xF6, 0xF7, 0xF8, 0xF9]
  const AC_LUMINANCE_FIRST := AC_LUMINANCE_A + AC_LUMINANCE_B + AC_LUMINANCE_C
  const AC_LUMINANCE_SYMBOLS: seq<byte> := AC_LUMINANCE_FIRST + [0xFA]
  const AC_LUMINANCE := TableSpec(1, 0, AC_LUMINANCE_COUNTS, AC_LUMINANCE_SYMBOLS)

  const AC_CHROMINANCE_COUNTS: seq<byte> := [0, 2, 1, 2, 4, 4, 3, 4, 7, 5, 4, 4, 0, 1, 2, 119]
  const AC_CHROMINANCE_A: seq<byte> :=
    [0x00, 0x01, 0x02, 0x03, 0x11, 0x04, 0x05, 0x21, 0x31, 0x06, 0x12, 0x41, 0x51, 0x07, 0x61, 0x71, 0x13, 0x22]
    + [0x32, 0x81, 0x08, 0x14, 0x42, 0x91, 0xA1, 0xB1, 0xC1, 0x09, 0x23, 0x33, 0x52, 0xF0, 0x15, 0x62, 0x72, 0xD1]
    + [0x0A, 0x16, 0x24, 0x34, 0xE1, 0x25, 0xF1, 0x17, 0x18, 0x19, 0x1A, 0x26, 0x27, 0x28, 0x29, 0x2A, 0x35, 0x36]
  const AC_CHROMINANCE_B: seq<byte> :=
    [0x37, 0x38, 0x39, 0x3A, 0x43, 0x44, 0x45, 0x46, 0x47, 0x48, 0x49, 0x4A, 0x53, 0x54, 0x55, 0x56, 0x57, 0x58]
    + [0x59, 0x5A, 0x63, 0x64, 0x65, 0x66, 0x67, 0x68, 0x69, 0x6A, 0x73, 0x74, 0x75, 0x76, 0x77, 0x78, 0x79, 0x7A]
    + [0x82, 0x83, 0x84, 0x85, 0x86, 0x87, 0x88, 0x89, 0x8A, 0x92, 0x93, 0x94, 0x95, 0x96, 0x97, 0x98, 0x99, 0x9A]
  const AC_CHROMINANCE_C: seq<byte> :=
    [0xA2, 0xA3, 0xA4, 0xA5, 0xA6, 0xA7, 0xA8, 0xA9, 0xAA, 0xB2, 0xB3, 0xB4, 0xB5, 0xB6, 0xB7, 0xB8, 0xB9, 0xBA]
    + [0xC2, 0xC3, 0xC4, 0xC5, 0xC6, 0xC7, 0xC8, 0xC9, 0xCA, 0xD2, 0xD3, 0xD4, 0xD5, 0xD6, 0xD7, 0xD8, 0xD9, 0xDA]
    + [0xE2, 0xE3, 0xE4, 0xE5, 0xE6, 0xE7, 0xE8, 0xE9, 0xEA, 0xF2, 0xF3, 0xF4, 0xF5, 0xF6, 0xF7, 0xF8, 0xF9]
  const AC_CHROMINANCE_FIRST := AC_CHROMINANCE_A + AC_CHROMINANCE_B + AC_CHROMINANCE_C
  const AC_CHROMINANCE_SYMBOLS: seq<byte> := AC_CHROMINANCE_FIRST + [0xFA]
  const AC_CHROMINANCE := TableSpec(1, 1, AC_CHROMINANCE_COUNTS, AC_CHROMINANCE_SYMBOLS)

  const STANDARD: seq<TableSpec> := [DC_LUMINANCE, DC_CHROMINANCE, AC_LUMINANCE, AC_CHROMINANCE]

  /** Marker, length and tables. */
  const DHT_DATA: seq<byte> := [0xFF, 0xC4, 0x01, 0xA2] + Segment(STANDARD, 4)

  // Counting codes by their lengths

  function Sum(counts: seq<byte>, n: nat): nat
    requires n <= |counts|
  {
    if n == 0 then 0 else Sum(counts, n - 1) + counts[n - 1] as nat
  }

  /** The windows that the codes of up to `n` bits cover. */
  function Covered(counts: seq<byte>, n: nat): nat
    requires n <= |counts| <= 16
  {
    if n == 0 then 0 else Covered(counts, n - 1) + counts[n - 1] as nat * Pow2(32 - n)
  }

  lemma {:induction false} SizesCount(counts: seq<byte>, n: nat)
    requires n <= |counts|
    ensures |Sizes(counts[..n])| == Sum(counts, n)
  {
    if n == 0 {
      assert counts[..0] == [];
    } else {
      SizesCount(counts, n - 1);
      SizesOfLength(counts, n - 1);
    }
  }

  lemma {:induction false} StartOfRun(sizes: seq<nat>, k: nat, c: nat, len: nat)
    requires Ordered(sizes) && k + c <= |sizes| && len <= 16
    requires forall i :: k <= i < k + c ==> sizes[i] == len
    ensures Start(sizes, k + c) == Start(sizes, k) + c * Pow2(32 - len)
  {
    if c > 0 {
      StartOfRun(sizes, k, c - 1, len);
      MulDistributes(c - 1, 1, Pow2(32 - len));
    }
  }

  lemma StartOfNextLength(counts: seq<byte>, n: nat)
    requires n < |counts| <= 16 && Sum(counts, n) <= |Sizes(counts)|
    ensures Sum(counts, n + 1) <= |Sizes(counts)|
    ensures Start(Sizes(counts), Sum(counts, n + 1))
         == Start(Sizes(counts), Sum(counts, n)) + counts[n] as nat * Pow2(32 - (n + 1))
  {
    SizesCount(counts, n);
    SizesOfLength(counts, n);
    hide Pow2, Start;
    assert Sum(counts, n + 1) == Sum(counts, n) + counts[n] as nat;
    StartOfRun(Sizes(counts), Sum(counts, n), counts[n] as nat, n + 1);
  }

  lemma {:induction false} StartIsCovered(counts: seq<byte>, n: nat)
    requires n <= |counts| <= 16
    ensures Sum(counts, n) <= |Sizes(counts)|
    ensures Start(Sizes(counts), Sum(counts, n)) == Covered(counts, n)
  {
    if n > 0 {
      StartIsCovered(counts, n - 1);
      hide Sizes, Pow2, Start, Sum;
      StartOfNextLength(counts, n - 1);
    }
  }

  /** What the counts alone say about a table. */
  lemma CountsDecide(counts: seq<byte>)
    requires |counts| == 16
    ensures |Sizes(counts)| == Sum(counts, 16)
    ensures Ordered(Sizes(counts)) && (Kraft(Sizes(counts)) <==> Covered(counts, 16) <= Pow2(32))
  {
    assert counts[..16] == counts;
    SizesCount(counts, 16);
    StartIsCovered(counts, 16);
    hide Start, Pow2, Covered, Sum;
  }

  lemma Powers()
    ensures Pow2(16) == 0x1_0000 && Pow2(17) == 0x2_0000 && Pow2(18) == 0x4_0000 && Pow2(19) == 0x8_0000
    ensures Pow2(20) == 0x10_0000 && Pow2(21) == 0x20_0000 && Pow2(22) == 0x40_0000 && Pow2(23) == 0x80_0000
    ensures Pow2(24) == 0x100_0000 && Pow2(25) == 0x200_0000 && Pow2(26) == 0x400_0000 && Pow2(27) == 0x800_0000
    ensures Pow2(28) == 0x1000_0000 && Pow2(29) == 0x2000_0000 && Pow2(30) == 0x4000_0000 && Pow2(31) == 0x8000_0000
    ensures Pow2(32) == 0x1_0000_0000
  {
    assert Pow2(4) == 16 && Pow2(8) == 256 && Pow2(12) == 4096;
    assert Pow2(16) == 65536;
  }

  lemma SumSixteen(c: seq<byte>)
    requires |c| == 16
    ensures Sum(c, 16) == c[0] as nat + c[1] as nat + c[2] as nat + c[3] as nat + c[4] as nat + c[5] as nat
      + c[6] as nat + c[7] as nat + c[8] as nat + c[9] as nat + c[10] as nat + c[11] as nat + c[12] as nat
      + c[13] as nat + c[14] as nat + c[15] as nat
  {
    assert Sum(c, 1) == Sum(c, 0) + c[0] as nat;
    assert Sum(c, 2) == Sum(c, 1) + c[1] as nat;
    assert Sum(c, 3) == Sum(c, 2) + c[2] as nat;
    assert Sum(c, 4) == Sum(c, 3) + c[3] as nat;
    assert Sum(c, 5) == Sum(c, 4) + c[4] as nat;
    assert Sum(c, 6) == Sum(c, 5) + c[5] as nat;
    assert Sum(c, 7) == Sum(c, 6) + c[6] as nat;
    assert Sum(c, 8) == Sum(c, 7) + c[7] as nat;
    assert Sum(c, 9) == Sum(c, 8) + c[8] as nat;
    assert Sum(c, 10) == Sum(c, 9) + c[9] as nat;
    assert Sum(c, 11) == Sum(c, 10) + c[10] as nat;
    assert Sum(c, 12) == Sum(c, 11) + c[11] as nat;
    assert Sum(c, 13) == Sum(c, 12) + c[12] as nat;
    assert Sum(c, 14) == Sum(c, 13) + c[13] as nat;
    assert Sum(c, 15) == Sum(c, 14) + c[14] as nat;
    assert Sum(c, 16) == Sum(c, 15) + c[15] as nat;
  }

  lemma CoveredStep(c: seq<byte>, n: nat, p: nat)
    requires 1 <= n <= |c| <= 16 && Pow2(32 - n) == p
    ensures Covered(c, n) == Covered(c, n - 1) + c[n - 1] as nat * p
  {
  }

  lemma CoveredSixteen(c: seq<byte>)
    requires |c| == 16
    ensures Covered(c, 16) == c[0] as nat * 0x8000_0000 + c[1] as nat * 0x4000_0000 + c[2] as nat * 0x2000_0000
      + c[3] as nat * 0x1000_0000 + c[4] as nat * 0x800_0000 + c[5] as nat * 0x400_0000 + c[6] as nat * 0x200_0000
      + c[7] as nat * 0x100_0000 + c[8] as nat * 0x80_0000 + c[9] as nat * 0x40_0000 + c[10] as nat * 0x20_0000
      + c[11] as nat * 0x10_0000 + c[12] as nat * 0x8_0000 + c[13] as nat * 0x4_0000 + c[14] as nat * 0x2_0000
      + c[15] as nat * 0x1_0000
  {
    Powers();
    hide Pow2;
    assert Covered(c, 0) == 0;
    hide Covered;
    CoveredStep(c, 1, 0x8000_0000);
    CoveredStep(c, 2, 0x4000_0000);
    CoveredStep(c, 3, 0x2000_0000);
    CoveredStep(c, 4, 0x1000_0000);
    CoveredStep(c, 5, 0x800_0000);
    CoveredStep(c, 6, 0x400_0000);
    CoveredStep(c, 7, 0x200_0000);
    CoveredStep(c, 8, 0x100_0000);
    CoveredStep(c, 9, 0x80_0000);
    CoveredStep(c, 10, 0x40_0000);
    CoveredStep(c, 11, 0x20_0000);
    CoveredStep(c, 12, 0x10_0000);
    CoveredStep(c, 13, 0x8_0000);
    CoveredStep(c, 14, 0x4_0000);
    CoveredStep(c, 15, 0x2_0000);
    CoveredStep(c, 16, 0x1_0000);
  }

  lemma Tally(c0: byte, c1: byte, c2: byte, c3: byte, c4: byte, c5: byte, c6: byte, c7: byte,
              c8: byte, c9: byte, c10: byte, c11: byte, c12: byte, c13: byte, c14: byte, c15: byte)
    ensures var c := [c0, c1, c2, c3, c4, c5, c6, c7, c8, c9, c10, c11, c12, c13, c14, c15];
      && |c| == 16
      && Sum(c, 16) == c0 as nat + c1 as nat + c2 as nat + c3 as nat + c4 as nat + c5 as nat + c6 as nat + c7 as nat
                       + c8 as nat + c9 as nat + c10 as nat + c11 as nat + c12 as nat + c13 as nat + c14 as nat + c15 as nat
      && Covered(c, 16)
         == c0 as nat * 0x8000_0000 + c1 as nat * 0x4000_0000 + c2 as nat * 0x2000_0000 + c3 as nat * 0x1000_0000
            + c4 as nat * 0x800_0000 + c5 as nat * 0x400_0000 + c6 as nat * 0x200_0000 + c7 as nat * 0x100_0000
            + c8 as nat * 0x80_0000 + c9 as nat * 0x40_0000 + c10 as nat * 0x20_0000 + c11 as nat * 0x10_0000
            + c12 as nat * 0x8_0000 + c13 as nat * 0x4_0000 + c14 as nat * 0x2_0000 + c15 as nat * 0x1_0000
  {
    var c := [c0, c1, c2, c3, c4, c5, c6, c7, c8, c9, c10, c11, c12, c13, c14, c15];
    hide Sum, Covered;
    SumSixteen(c);
    CoveredSixteen(c);
  }

  // The standard tables

  /** A table that fits its slot, and whose codes are prefix-free. */
  ghost predicate Sound(spec: TableSpec) {
    spec.Valid() && Kraft(Sizes(spec.counts))
  }

  lemma CountedTable(spec: TableSpec)
    requires spec.tableClass < 2 && spec.destination < 2 && |spec.counts| == 16
    requires |spec.symbols| == Sum(spec.counts, 16) <= 162 && Covered(spec.counts, 16) <= 0x1_0000_0000
    ensures Sound(spec)
  {
    CountsDecide(spec.counts);
    Powers();
    hide Sizes, Sum, Covered, Pow2;
  }

  lemma DcLuminanceCounts()
    ensures |DC_LUMINANCE_COUNTS| == 16 && Sum(DC_LUMINANCE_COUNTS, 16) == 12
    ensures Covered(DC_LUMINANCE_COUNTS, 16) <= 0x1_0000_0000
  {
    hide Sum, Covered;
    Tally(0, 1, 5, 1, 1, 1, 1, 1, 1, 0, 0, 0, 0, 0, 0, 0);
  }

  lemma DcLuminance()
    ensures Sound(DC_LUMINANCE) && |DC_LUMINANCE.symbols| == 12 && DC_LUMINANCE.symbols[11] == 0x0B
  {
    assert |DC_LUMINANCE_SYMBOLS| == 12 && DC_LUMINANCE_SYMBOLS[11] == 0x0B;
    hide Sound, DC_LUMINANCE_SYMBOLS, DC_LUMINANCE_COUNTS, Sum, Covered;
    DcLuminanceCounts();
    CountedTable(DC_LUMINANCE);
  }

  lemma DcChrominanceCounts()
    ensures |DC_CHROMINANCE_COUNTS| == 16 && Sum(DC_CHROMINANCE_COUNTS, 16) == 12
    ensures Covered(DC_CHROMINANCE_COUNTS, 16) <= 0x1_0000_0000
  {
    hide Sum, Covered;
    Tally(0, 3, 1, 1, 1, 1, 1, 1, 1, 1, 1, 0, 0, 0, 0, 0);
  }

  lemma DcChrominance()
    ensures Sound(DC_CHROMINANCE) && |DC_CHROMINANCE.symbols| == 12 && DC_CHROMINANCE.symbols[11] == 0x0B
  {
    assert |DC_CHROMINANCE_SYMBOLS| == 12 && DC_CHROMINANCE_SYMBOLS[11] == 0x0B;
    hide Sound, DC_CHROMINANCE_SYMBOLS, DC_CHROMINANCE_COUNTS, Sum, Covered;
    DcChrominanceCounts();
    CountedTable(DC_CHROMINANCE);
  }

  lemma AcLuminanceCounts()
    ensures |AC_LUMINANCE_COUNTS| == 16 && Sum(AC_LUMINANCE_COUNTS, 16) == 162
    ensures Covered(AC_LUMINANCE_COUNTS, 16) <= 0x1_0000_0000
  {
    hide Sum, Covered;
    Tally(0, 2, 1, 3, 3, 2, 4, 3, 5, 5, 4, 4, 0, 0, 1, 125);
  }

  lemma AcLuminance()
    ensures Sound(AC_LUMINANCE) && |AC_LUMINANCE.symbols| == 162 && AC_LUMINANCE.symbols[161] == 0xFA
  {
    assert |AC_LUMINANCE_SYMBOLS| == 162 && AC_LUMINANCE_SYMBOLS[161] == 0xFA;
    hide Sound, AC_LUMINANCE_SYMBOLS, AC_LUMINANCE_COUNTS, Sum, Covered;
    AcLuminanceCounts();
    CountedTable(AC_LUMINANCE);
  }

  lemma AcChrominanceCounts()
    ensures |AC_CHROMINANCE_COUNTS| == 16 && Sum(AC_CHROMINANCE_COUNTS, 16) == 162
    ensures Covered(AC_CHROMINANCE_COUNTS, 16) <= 0x1_0000_0000
  {
    hide Sum, Covered;
    Tally(0, 2, 1, 2, 4, 4, 3, 4, 7, 5, 4, 4, 0, 1, 2, 119);
  }

  lemma AcChrominance()
    ensures Sound(AC_CHROMINANCE) && |AC_CHROMINANCE.symbols| == 162 && AC_CHROMINANCE.symbols[161] == 0xFA
  {
    assert |AC_CHROMINANCE_SYMBOLS| == 162 && AC_CHROMINANCE_SYMBOLS[161] == 0xFA;
    hide Sound, AC_CHROMINANCE_SYMBOLS, AC_CHROMINANCE_COUNTS, Sum, Covered;
    AcChrominanceCounts();
    CountedTable(AC_CHROMINANCE);
  }

  /** All four are valid, and no window matches two codes of one of them. */
  lemma StandardIsSound(i: nat)
    requires i < 4
    ensures Sound(STANDARD[i])
    ensures Unambiguous(STANDARD[i].Entries())
  {
    DcLuminance();
    DcChrominance();
    AcLuminance();
    AcChrominance();
    hide Sound, DC_LUMINANCE, DC_CHROMINANCE, AC_LUMINANCE, AC_CHROMINANCE;
    assert Sound(STANDARD[i]);
    SoundIsUnambiguous(STANDARD[i]);
  }

  lemma SoundIsUnambiguous(spec: TableSpec)
    requires Sound(spec)
    ensures spec.Valid() && Unambiguous(spec.Entries())
  {
    PrefixFreeIffKraft(Sizes(spec.counts), spec.symbols);
  }

  // Loading them

  lemma SegmentLengths()
    ensures |Segment(STANDARD, 1)| == 29 && |Segment(STANDARD, 2)| == 58 && |Segment(STANDARD, 3)| == 237
    ensures |Segment(STANDARD, 4)| == 416
  {
    hide Sound, Sum, Covered, DC_LUMINANCE_SYMBOLS, DC_CHROMINANCE_SYMBOLS, AC_LUMINANCE_SYMBOLS, AC_CHROMINANCE_SYMBOLS;
    hide DC_LUMINANCE_COUNTS, DC_CHROMINANCE_COUNTS, AC_LUMINANCE_COUNTS, AC_CHROMINANCE_COUNTS;
    DcLuminance();
    DcLuminanceCounts();
    DcChrominance();
    DcChrominanceCounts();
    AcLuminance();
    AcLuminanceCounts();
    AcChrominance();
    AcChrominanceCounts();
    assert Segment(STANDARD, 0) == [];
    assert Segment(STANDARD, 1) == Segment(STANDARD, 0) + DC_LUMINANCE.Serialise();
    assert Segment(STANDARD, 2) == Segment(STANDARD, 1) + DC_CHROMINANCE.Serialise();
    assert Segment(STANDARD, 3) == Segment(STANDARD, 2) + AC_LUMINANCE.Serialise();
    assert Segment(STANDARD, 4) == Segment(STANDARD, 3) + AC_CHROMINANCE.Serialise();
  }

  /** A marker, and a length field that covers everything behind the marker. */
  lemma DhtDataShape()
    ensures |DHT_DATA| == 420 && DHT_DATA[0] == 0xFF && DHT_DATA[1] == 0xC4
    ensures DHT_DATA[2] as nat * 256 + DHT_DATA[3] as nat == |DHT_DATA| - 2
    ensures DHT_DATA[4..] == Segment(STANDARD, 4)
  {
    hide Segment, STANDARD;
    SegmentLengths();
  }

  function CodesOf(spec: TableSpec): CodeTable {
    CodeTable(Sizes(spec.counts), spec.symbols)
  }

  /** The tables by slot: DC and AC for luminance, DC and AC for chrominance. */
  function StandardCodes(): (ts: seq<CodeTable>)
    ensures |ts| == 4
  {
    [CodesOf(DC_LUMINANCE), CodesOf(AC_LUMINANCE), CodesOf(DC_CHROMINANCE), CodesOf(AC_CHROMINANCE)]
  }

  lemma StandardAllValid()
    ensures AllValid(STANDARD) && forall i :: 0 <= i < 4 ==> Kraft(Sizes(STANDARD[i].counts))
  {
    assert |STANDARD| == 4;
    hide STANDARD, Unambiguous, Kraft, Sizes;
    forall i | 0 <= i < 4 ensures Sound(STANDARD[i]) {
      StandardIsSound(i);
    }
  }

  lemma FourLoaded(tables: seq<seq<Entry>>, specs: seq<TableSpec>, a: TableSpec, b: TableSpec,
                   c: TableSpec, d: TableSpec)
    requires |tables| == 4 && AllValid(specs) && specs == [a, b, c, d]
    requires a.Slot() == 0 && b.Slot() == 2 && c.Slot() == 1 && d.Slot() == 3
    ensures a.Valid() && b.Valid() && c.Valid() && d.Valid()
    ensures Loaded(tables, specs, 4) == [a.Entries(), c.Entries(), b.Entries(), d.Entries()]
  {
    hide Sizes, Table;
    assert specs[0].Valid() && specs[1].Valid() && specs[2].Valid() && specs[3].Valid();
    var zero := Loaded(tables, specs, 0);
    var one := Loaded(tables, specs, 1);
    var two := Loaded(tables, specs, 2);
    var three := Loaded(tables, specs, 3);
    assert zero == tables && one == zero[0 := a.Entries()] && two == one[2 := b.Entries()];
    assert three == two[1 := c.Entries()] && Loaded(tables, specs, 4) == three[3 := d.Entries()];
  }

  lemma SameAsSpecs(a: TableSpec, b: TableSpec, c: TableSpec, d: TableSpec)
    requires Sound(a) && Sound(b) && Sound(c) && Sound(d)
    ensures SameTables([CodesOf(a), CodesOf(b), CodesOf(c), CodesOf(d)],
                       [a.Entries(), b.Entries(), c.Entries(), d.Entries()])
  {
    hide Sizes, Kraft, Table;
  }

  /** Whatever has been loaded before, the four slots are the standard tables afterwards. */
  lemma StandardLoads(tables: seq<seq<Entry>>)
    requires |tables| == 4
    ensures AllValid(STANDARD) && SameTables(StandardCodes(), Loaded(tables, STANDARD, 4))
  {
    StandardAllValid();
    DcLuminance();
    DcChrominance();
    AcLuminance();
    AcChrominance();
    SlotsOfStandard();
    hide Sound, AllValid, Loaded, SameTables, CodesOf, DC_LUMINANCE, DC_CHROMINANCE, AC_LUMINANCE, AC_CHROMINANCE;
    FourLoaded(tables, STANDARD, DC_LUMINANCE, DC_CHROMINANCE, AC_LUMINANCE, AC_CHROMINANCE);
    SameAsSpecs(DC_LUMINANCE, AC_LUMINANCE, DC_CHROMINANCE, AC_CHROMINANCE);
  }

  lemma SlotsOfStandard()
    ensures DC_LUMINANCE.Slot() == 0 && DC_CHROMINANCE.Slot() == 2 && AC_LUMINANCE.Slot() == 1
    ensures AC_CHROMINANCE.Slot() == 3
  {
    hide DC_LUMINANCE_COUNTS, DC_CHROMINANCE_COUNTS, AC_LUMINANCE_COUNTS, AC_CHROMINANCE_COUNTS;
    hide DC_LUMINANCE_SYMBOLS, DC_CHROMINANCE_SYMBOLS, AC_LUMINANCE_SYMBOLS, AC_CHROMINANCE_SYMBOLS;
  }

  /** The picture has the inserted bytes at `p`. */
  ghost predicate HasInserted(picture: seq<byte>, p: nat) {
    DHT_DATA <= picture[if p <= |picture| then p else |picture|..]
  }

  /** The DHT branch of the decoder at the inserted marker: all of the segment is used, and the tables are in place. */
  method LoadStandard(h: HuffmanTables, picture: seq<byte>, p: nat) returns (pos: nat)
    requires h.Valid() && HasInserted(picture, p)
    modifies h.lookup, h.size
    ensures h.Valid() && pos == |DHT_DATA| - 4
    ensures SameTables(StandardCodes(), h.Tables())
  {
    StandardLoads(h.Tables());
    ReadyToParse(picture, p);
    hide *;
    var cnt := picture[p + 2] as nat * 256 + picture[p + 3] as nat;
    pos := h.ParseDht(picture[p + 4..], cnt, STANDARD);
  }

  lemma ReadyToParse(picture: seq<byte>, p: nat)
    requires HasInserted(picture, p)
    ensures AllValid(STANDARD) && STANDARD != [] && |STANDARD| == 4 && |DHT_DATA| == 420 && p + 420 <= |picture|
    ensures picture[p + 2] as nat * 256 + picture[p + 3] as nat == 418
    ensures Segment(STANDARD, |STANDARD|) <= picture[p + 4..] && |Segment(STANDARD, |STANDARD|)| == 416
    ensures forall n :: 0 < n < |STANDARD| ==> |Segment(STANDARD, n)| < 416
  {
    StandardIsFour();
    hide DHT_DATA, STANDARD, AllValid, Segment;
    DhtDataShape();
    SegmentLengths();
    StandardAllValid();
    assert p <= |picture|;
    InsertedAt(DHT_DATA, picture, p);
  }

  lemma InsertedAt(data: seq<byte>, picture: seq<byte>, p: nat)
    requires p <= |picture| && data <= picture[p..] && |data| >= 4
    ensures p + |data| <= |picture| && picture[p + 2] == data[2] && picture[p + 3] == data[3]
    ensures data[4..] <= picture[p + 4..]
  {
    assert picture[p..][2] == picture[p + 2] && picture[p..][3] == picture[p + 3];
    assert picture[p + 4..] == picture[p..][4..];
  }

  lemma StandardIsFour()
    ensures |STANDARD| == 4
  {
  }

  // What they cannot carry

  /** The last symbol of a table, which occurs nowhere else in it. */
  ghost predicate EndsIn(t: CodeTable, last: byte) {
    |t.symbols| > 0 && t.symbols[|t.symbols| - 1] == last && last !in t.symbols[..|t.symbols| - 1]
  }

  lemma {:induction false} IndexOfLast(first: seq<byte>, last: byte)
    requires last !in first
    ensures IndexOf(first + [last], last) == |first|
  {
    if first != [] {
      IndexOfLast(first[1..], last);
      assert (first + [last])[1..] == first[1..] + [last];
    }
  }

  /** Every symbol but the last one of a table can be read. */
  lemma AllButTheLast(t: CodeTable, last: byte, s: byte)
    requires EndsIn(t, last) && t.Has(s)
    ensures t.CanRead(s) <==> s != last
  {
    var n := |t.symbols| - 1;
    assert t.symbols == t.symbols[..n] + [last];
    IndexOfLast(t.symbols[..n], last);
  }

  lemma DcFirst()
    ensures 0x0B !in DC_LUMINANCE_FIRST && 0x0B !in DC_CHROMINANCE_FIRST
  {
  }

  lemma AcLuminanceFirstA()
    ensures 0xFA !in AC_LUMINANCE_A
  {
  }

  lemma AcLuminanceFirstB()
    ensures 0xFA !in AC_LUMINANCE_B
  {
  }

  lemma AcLuminanceFirstC()
    ensures 0xFA !in AC_LUMINANCE_C
  {
  }

  lemma AcLuminanceFirst()
    ensures 0xFA !in AC_LUMINANCE_FIRST
  {
    hide AC_LUMINANCE_A, AC_LUMINANCE_B, AC_LUMINANCE_C;
    AcLuminanceFirstA();
    AcLuminanceFirstB();
    AcLuminanceFirstC();
  }

  lemma AcChrominanceFirstA()
    ensures 0xFA !in AC_CHROMINANCE_A
  {
  }

  lemma AcChrominanceFirstB()
    ensures 0xFA !in AC_CHROMINANCE_B
  {
  }

  lemma AcChrominanceFirstC()
    ensures 0xFA !in AC_CHROMINANCE_C
  {
  }

  lemma AcChrominanceFirst()
    ensures 0xFA !in AC_CHROMINANCE_FIRST
  {
    hide AC_CHROMINANCE_A, AC_CHROMINANCE_B, AC_CHROMINANCE_C;
    AcChrominanceFirstA();
    AcChrominanceFirstB();
    AcChrominanceFirstC();
  }

  lemma EndsInLast(t: CodeTable, first: seq<byte>, last: byte)
    requires t.symbols == first + [last] && last !in first
    ensures EndsIn(t, last)
  {
    assert t.symbols[..|t.symbols| - 1] == first;
  }

  /** DC category 11, and symbol 0xFA: a run of 15 before an AC coefficient of category 10. */
  ghost predicate StandardEnds(ts: seq<CodeTable>) {
    |ts| == 4 && EndsIn(ts[0], 0x0B) && EndsIn(ts[1], 0xFA) && EndsIn(ts[2], 0x0B) && EndsIn(ts[3], 0xFA)
  }

  lemma StandardCodesEnd()
    ensures StandardEnds(StandardCodes())
  {
    DcFirst();
    AcLuminanceFirst();
    AcChrominanceFirst();
    hide Sizes, DC_LUMINANCE_FIRST, DC_CHROMINANCE_FIRST, AC_LUMINANCE_FIRST, AC_CHROMINANCE_FIRST;
    hide DC_LUMINANCE_COUNTS, DC_CHROMINANCE_COUNTS, AC_LUMINANCE_COUNTS, AC_CHROMINANCE_COUNTS, EndsIn;
    EndsInLast(CodesOf(DC_LUMINANCE), DC_LUMINANCE_FIRST, 0x0B);
    EndsInLast(CodesOf(AC_LUMINANCE), AC_LUMINANCE_FIRST, 0xFA);
    EndsInLast(CodesOf(DC_CHROMINANCE), DC_CHROMINANCE_FIRST, 0x0B);
    EndsInLast(CodesOf(AC_CHROMINANCE), AC_CHROMINANCE_FIRST, 0xFA);
  }

  /** How many zeros are directly before coefficient `k`. */
  function Run(zz: seq<int>, k: nat): nat
    requires k < |zz|
  {
    if k <= 1 || zz[k - 1] != 0 then 0 else 1 + Run(zz, k - 1)
  }

  /** A coefficient that is sent as a run of 15 and category 10. */
  predicate LostAt(zz: seq<int>, k: nat)
    requires k < |zz|
  {
    Category(zz[k]) == 10 && Run(zz, k) % 16 == 15
  }

  ghost predicate LostFrom(zz: seq<int>, k: nat) {
    exists j :: k <= j < |zz| && LostAt(zz, j)
  }

  ghost predicate Sends(items: seq<Item>, symbol: byte) {
    exists i :: 0 <= i < |items| && items[i].symbol == symbol
  }

  lemma SendsFirst(item: Item, items: seq<Item>, symbol: byte)
    ensures Sends([item] + items, symbol) <==> item.symbol == symbol || Sends(items, symbol)
  {
    var all := [item] + items;
    if item.symbol == symbol {
      assert all[0].symbol == symbol;
    }
    if i :| 0 <= i < |items| && items[i].symbol == symbol {
      assert all[i + 1].symbol == symbol;
    }
    if i :| 1 <= i < |all| && all[i].symbol == symbol {
      assert items[i - 1].symbol == symbol;
    }
  }

  lemma LostFirst(zz: seq<int>, k: nat)
    requires k < |zz|
    ensures LostFrom(zz, k) <==> LostAt(zz, k) || LostFrom(zz, k + 1)
  {
    if LostFrom(zz, k) {
      var j :| k <= j < |zz| && LostAt(zz, j);
      assert j == k || k + 1 <= j;
    }
  }

  lemma LostSymbol(r: nat, category: nat)
    requires r <= 15 && category <= 15
    ensures (16 * r + category) as byte == 0xFA <==> r == 15 && category == 10
  {
  }

  /** The encoder's pending run, of which whole sixteens may have been sent. */
  predicate PendingRun(zz: seq<int>, k: nat, r: nat) {
    k < |zz| ==> r % 16 == Run(zz, k) % 16
  }

  lemma LongerRun(zz: seq<int>, k: nat, r: nat)
    requires 1 <= k < |zz| && PendingRun(zz, k, r) && zz[k] == 0
    ensures PendingRun(zz, k + 1, r + 1) && !LostAt(zz, k)
  {
    assert Category(0) == 0;
  }

  lemma SentRun(zz: seq<int>, k: nat, r: nat)
    requires 1 <= k < |zz| && PendingRun(zz, k, r) && zz[k] != 0
    ensures r > 15 ==> PendingRun(zz, k, r - 16)
    ensures r <= 15 ==> PendingRun(zz, k + 1, 0) && (LostAt(zz, k) <==> r == 15 && Category(zz[k]) == 10)
  {
    hide Category;
  }

  /** Symbol 0xFA is sent exactly for the coefficients of category 10 behind 15, 31 or 47 zeros. */
  lemma {:induction false} SendsIff(zz: seq<int>, k: nat, r: nat)
    requires IsBlock(zz) && 1 <= k <= 64 && PendingRun(zz, k, r)
    ensures Sends(AcItems(zz, k, r), 0xFA) <==> LostFrom(zz, k)
    decreases 64 - k, r
  {
    if k < 64 {
      LostFirst(zz, k);
      hide Category, ExtraBits, LostFrom, LostAt, Sends, PendingRun, Run;
      if zz[k] == 0 {
        LongerRun(zz, k, r);
        SendsIff(zz, k + 1, r + 1);
      } else {
        SentRun(zz, k, r);
        if r > 15 {
          SendsIff(zz, k, r - 16);
          SendsFirst(ZRL, AcItems(zz, k, r - 16), 0xFA);
        } else {
          SendsIff(zz, k + 1, 0);
          SendsFirst(Item((16 * r + Category(zz[k])) as byte, ExtraBits(zz[k])), AcItems(zz, k + 1, 0), 0xFA);
          LostSymbol(r, Category(zz[k]));
        }
      }
    }
  }

  /** What the standard tables can carry to the decoder, given that they can encode it. */
  ghost predicate Carriable(zz: seq<int>, lastDC: int) {
    |zz| == 64 && Category(zz[0] - lastDC) != 11 && !LostFrom(zz, 1)
  }

  lemma BlockIsReadable(dc: CodeTable, ac: CodeTable, zz: seq<int>, lastDC: int)
    requires Encodable(dc, ac, zz, lastDC) && EndsIn(dc, 0x0B) && EndsIn(ac, 0xFA)
    ensures Readable(dc, ac, zz, lastDC) <==> Carriable(zz, lastDC)
  {
    SendsIff(zz, 1, 0);
    hide Category, AcItems, CodeTable.Valid, EndsIn, LostFrom;
    AllButTheLast(dc, 0x0B, Category(zz[0] - lastDC) as byte);
    forall i | 0 <= i < |AcItems(zz, 1, 0)|
      ensures ac.CanRead(AcItems(zz, 1, 0)[i].symbol) <==> AcItems(zz, 1, 0)[i].symbol != 0xFA
    {
      AllButTheLast(ac, 0xFA, AcItems(zz, 1, 0)[i].symbol);
    }
  }

  ghost predicate UnitCarriable(units: seq<Unit>, u: nat)
    requires FullUnits(units) && u < |units|
  {
    && Carriable(units[u].y0, LastY(units, u)) && Carriable(units[u].y1, units[u].y0[0])
    && Carriable(units[u].cr, LastCr(units, u)) && Carriable(units[u].cb, LastCb(units, u))
  }

  /** Every block of the scan can be carried. */
  ghost predicate AllCarriable(units: seq<Unit>)
    requires FullUnits(units)
  {
    forall u :: 0 <= u < |units| ==> UnitCarriable(units, u)
  }

  lemma UnitIsReadable(ts: seq<CodeTable>, dcY: nat, acY: nat, units: seq<Unit>, u: nat)
    requires |ts| == 4 && StandardEnds(ts) && (dcY == 0 || dcY == 2) && (acY == 0 || acY == 2)
    requires FullUnits(units) && u < |units| && UnitEncodable(ts, dcY, acY, units, u)
    ensures UnitReadable(ts, dcY, acY, units, u) <==> UnitCarriable(units, u)
  {
    var unit := units[u];
    assert unit.Valid();
    hide Encodable, Readable, Carriable, EndsIn, LastY, LastCr, LastCb;
    BlockIsReadable(ts[dcY], ts[acY + 1], unit.y0, LastY(units, u));
    BlockIsReadable(ts[dcY], ts[acY + 1], unit.y1, unit.y0[0]);
    BlockIsReadable(ts[2], ts[3], unit.cr, LastCr(units, u));
    BlockIsReadable(ts[2], ts[3], unit.cb, LastCb(units, u));
  }

  lemma ScanIsReadable(ts: seq<CodeTable>, dcY: nat, acY: nat, units: seq<Unit>)
    requires |ts| == 4 && StandardEnds(ts) && (dcY == 0 || dcY == 2) && (acY == 0 || acY == 2)
    requires UnitsEncodable(ts, dcY, acY, units)
    ensures UnitsReadable(ts, dcY, acY, units) <==> AllCarriable(units)
  {
    forall u | 0 <= u < |units| ensures UnitReadable(ts, dcY, acY, units, u) <==> UnitCarriable(units, u) {
      assert UnitEncodable(ts, dcY, acY, units, u);
      hide UnitEncodable, UnitReadable, UnitCarriable, StandardEnds;
      UnitIsReadable(ts, dcY, acY, units, u);
    }
    hide UnitEncodable, UnitReadable, UnitCarriable, StandardEnds;
  }

  lemma EobAt(t: CodeTable, n: nat)
    requires n < |t.symbols| && t.symbols[n] == 0x00 && forall k :: 0 <= k < n ==> t.symbols[k] as nat % 16 != 0
    ensures EobFirst(t)
  {
    FirstPlace(t.symbols, 0x00, n);
  }

  lemma LuminanceBegins()
    ensures [0x01, 0x02, 0x03, 0x00] <= AC_LUMINANCE_A
  {
  }

  lemma ChrominanceBegins()
    ensures [0x00] <= AC_CHROMINANCE_A
  {
  }

  lemma SymbolsBegin()
    ensures [0x01, 0x02, 0x03, 0x00] <= AC_LUMINANCE_SYMBOLS && [0x00] <= AC_CHROMINANCE_SYMBOLS
  {
    LuminanceBegins();
    ChrominanceBegins();
    hide AC_LUMINANCE_A, AC_LUMINANCE_B, AC_LUMINANCE_C, AC_CHROMINANCE_A, AC_CHROMINANCE_B, AC_CHROMINANCE_C;
  }

  lemma LuminanceEobFirst()
    ensures EobFirst(CodesOf(AC_LUMINANCE))
  {
    SymbolsBegin();
    hide Sizes, AC_LUMINANCE_COUNTS, AC_LUMINANCE_SYMBOLS, AC_CHROMINANCE_SYMBOLS, EobFirst;
    var first: seq<byte> := [0x01, 0x02, 0x03, 0x00];
    assert forall k :: 0 <= k < 4 ==> AC_LUMINANCE_SYMBOLS[k] == first[k];
    EobAt(CodesOf(AC_LUMINANCE), 3);
  }

  lemma ChrominanceEobFirst()
    ensures EobFirst(CodesOf(AC_CHROMINANCE))
  {
    SymbolsBegin();
    hide Sizes, AC_CHROMINANCE_COUNTS, AC_LUMINANCE_SYMBOLS, AC_CHROMINANCE_SYMBOLS, EobFirst;
    EobAt(CodesOf(AC_CHROMINANCE), 0);
  }

  lemma StandardEobsFirst(acY: nat)
    requires acY == 0 || acY == 2
    ensures EobsFirst(StandardCodes(), acY)
  {
    LuminanceEobFirst();
    ChrominanceEobFirst();
    hide EobFirst, CodesOf;
  }

  /** The conditions of the general round trip, for the standard tables. */
  lemma StandardFacts(dcY: nat, acY: nat, units: seq<Unit>)
    requires (dcY == 0 || dcY == 2) && (acY == 0 || acY == 2) && UnitsEncodable(StandardCodes(), dcY, acY, units)
    ensures EobsFirst(StandardCodes(), acY) && FullUnits(units)
    ensures UnitsReadable(StandardCodes(), dcY, acY, units) <==> AllCarriable(units)
  {
    assert FullUnits(units);
    hide *;
    StandardCodesEnd();
    StandardEobsFirst(acY);
    ScanIsReadable(StandardCodes(), dcY, acY, units);
  }

  /**
    A picture that has been given the standard tables: a scan that is coded with them and
    stuffed decodes to its blocks with the tables that the inserted bytes load if and only if
    the blocks can be carried and the reader sees the bits of the code.
   */
  lemma StandardRoundTrip(before: seq<seq<Entry>>, dcY: nat, acY: nat, units: seq<Unit>, mem: Memory, start: nat)
    requires |before| == 4 && (dcY == 0 || dcY == 2) && (acY == 0 || acY == 2)
    requires UnitsEncodable(StandardCodes(), dcY, acY, units)
    requires At(mem, start, Stuff(CodedUnits(StandardCodes(), dcY, acY, units)))
    ensures AllValid(STANDARD) && |STANDARD| == 4
    ensures var r := DecodeBlocks(Loaded(before, STANDARD, 4), dcY, acY, Stream(mem, start), 0, [0, 0, 0], 0, 4 * |units|);
      && (r.ScanDone? && InOrder(units, r.blocks) <==> AllCarriable(units) && BitsSeen(StandardCodes(), dcY, acY, units))
      && (BitsSeen(StandardCodes(), dcY, acY, units) ==> (r.ScanDone? <==> AllCarriable(units)))
  {
    hide *;
    StandardIsFour();
    StandardLoads(before);
    StandardFacts(dcY, acY, units);
    UnitsRoundTrip(StandardCodes(), Loaded(before, STANDARD, 4), dcY, acY, units, mem, start);
  }

  lemma DcSymbolsAreSmall(dcY: nat)
    requires dcY == 0 || dcY == 2
    ensures forall s :: s in StandardCodes()[dcY].symbols || s in StandardCodes()[2].symbols ==> s <= 16
  {
    hide Sizes, DC_LUMINANCE_COUNTS, DC_CHROMINANCE_COUNTS, AC_LUMINANCE, AC_CHROMINANCE;
    assert DC_LUMINANCE_SYMBOLS == DC_CHROMINANCE_SYMBOLS;
  }

  /** The bytes of a completed picture, and whatever is behind them. */
  function MemoryOf(picture: seq<byte>, behind: Memory): Memory {
    (i: nat) => if i < |picture| then picture[i] else behind(i)
  }

  lemma Moved(m: Memory, size: nat, p: nat, dht: seq<byte>, start: nat, data: seq<byte>, behind: Memory)
    requires p <= start && start + |data| <= size && At(m, start, data)
    ensures var out := Region(m, 0, p) + dht + Region(m, p, size);
      |out| == size + |dht| && out[p..] == dht + Region(m, p, size) && At(MemoryOf(out, behind), start + |dht|, data)
  {
    var out, later := Region(m, 0, p) + dht + Region(m, p, size), Region(m, p, size);
    forall i | 0 <= i < |data| ensures MemoryOf(out, behind)(start + |dht| + i) == data[i] {
      assert out[start + |dht| + i] == later[start - p + i] == m(start + i);
    }
  }

  /** In a completed picture the inserted bytes are at the frame header, and what follows has moved behind them. */
  lemma CompletedPicture(m: Memory, size: nat, p: nat, out: seq<byte>, start: nat, data: seq<byte>, behind: Memory)
    requires !HasTables(m) && FirstFrameHeader(m, size, p) && Completed(m, size, DHT_DATA, out)
    requires p <= start && start + |data| <= size && At(m, start, data)
    ensures |DHT_DATA| == 420 && |out| == size + 420
    ensures HasInserted(out, p) && At(MemoryOf(out, behind), start + 420, data)
  {
    hide DHT_DATA, HasTables, Completed, At, MemoryOf;
    DhtDataShape();
    assert p < size;
    CompletedIs(m, size, p, DHT_DATA);
    CompletedUnique(m, size, DHT_DATA, out, Region(m, 0, p) + DHT_DATA + Region(m, p, size));
    hide FirstFrameHeader;
    Moved(m, size, p, DHT_DATA, start, data, behind);
  }

  lemma CompletedIs(m: Memory, size: nat, p: nat, dht: seq<byte>)
    requires !HasTables(m) && FirstFrameHeader(m, size, p)
    ensures Completed(m, size, dht, Region(m, 0, p) + dht + Region(m, p, size))
  {
  }

  /** The decoder, from the inserted tables to the blocks. */
  method DecodePicture(h: HuffmanTables, picture: seq<byte>, p: nat, mem: Memory, start: nat,
                       cnt: nat, dcY: nat, acY: nat, ghost units: seq<Unit>)
    returns (ok: bool, decoded: seq<seq<int>>)
    requires h.Valid() && (dcY == 0 || dcY == 2) && (acY == 0 || acY == 2) && |units| == cnt
    requires HasInserted(picture, p) && UnitsEncodable(StandardCodes(), dcY, acY, units)
    requires At(mem, start, Stuff(CodedUnits(StandardCodes(), dcY, acY, units)))
    modifies h.lookup, h.size
    ensures ok && InOrder(units, decoded) <==> AllCarriable(units) && BitsSeen(StandardCodes(), dcY, acY, units)
    ensures BitsSeen(StandardCodes(), dcY, acY, units) ==> (ok <==> AllCarriable(units))
  {
    hide *;
    StandardFacts(dcY, acY, units);
    DcSymbolsAreSmall(dcY);
    var _ := LoadStandard(h, picture, p);
    var r := new ScanReader(mem, start, h);
    ok, decoded := DecodeUnits(r, cnt, dcY, acY, StandardCodes(), units);
  }

  /**
    From the camera to the decoder: `memcpy_picture` completes a picture without tables, the
    decoder loads the tables from what has been written and reads the scan behind them. It gives
    the blocks that the camera coded if and only if they can be carried and the reader sees the
    bits of their code.
   */
  method DecodeCompleted(h: HuffmanTables, out: array<byte>, m: Memory, size: nat, p: nat, start: nat, behind: Memory,
                         cnt: nat, dcY: nat, acY: nat, ghost units: seq<Unit>)
    returns (ok: bool, decoded: seq<seq<int>>)
    requires h.Valid() && (dcY == 0 || dcY == 2) && (acY == 0 || acY == 2) && |units| == cnt
    requires !HasTables(m) && FirstFrameHeader(m, size, p) && size + |DHT_DATA| <= out.Length
    requires UnitsEncodable(StandardCodes(), dcY, acY, units)
    requires var segment := Stuff(CodedUnits(StandardCodes(), dcY, acY, units));
      p <= start && start + |segment| <= size && At(m, start, segment)
    modifies out, h.lookup, h.size
    ensures ok && InOrder(units, decoded) <==> AllCarriable(units) && BitsSeen(StandardCodes(), dcY, acY, units)
    ensures BitsSeen(StandardCodes(), dcY, acY, units) ==> (ok <==> AllCarriable(units))
  {
    hide *;
    var pos := MemcpyPicture(out, m, size, DHT_DATA);
    var picture := out[..pos];
    CompletedPicture(m, size, p, picture, start, Stuff(CodedUnits(StandardCodes(), dcY, acY, units)), behind);
    ok, decoded := DecodePicture(h, picture, p, MemoryOf(picture, behind), start + 420, cnt, dcY, acY, units);
  }
}
