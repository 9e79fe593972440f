/** Decimal numbers as printf and strftime write them. */
module Printf {
  import opened Bits

  function Digit(d: nat): byte
    requires d < 10
  {
    (48 + d) as byte
  }

  /** `%0<width>d`, at least `width` digits; `%d` with a width of 0. */
  function Padded(v: nat, width: nat): (d: seq<byte>)
    ensures |d| >= 1 && |d| >= width && forall i :: 0 <= i < |d| ==> 48 <= d[i] <= 57
    decreases v, width
  {
    if v < 10 && width <= 1 then [Digit(v)]
    else Padded(v / 10, if width == 0 then 0 else width - 1) + [Digit(v % 10)]
  }

  /** `%d` */
  function Decimal(n: int): (d: seq<byte>)
    ensures IsNumeral(d)
  {
    if n < 0 then ['-' as byte] + Padded(-n, 0) else Padded(n, 0)
  }

  /** `%06d`; the sign counts. */
  function Decimal6(n: int): (d: seq<byte>)
    ensures IsNumeral(d)
  {
    if n < 0 then ['-' as byte] + Padded(-n, 5) else Padded(n, 6)
  }

  /** Digits, after at most one minus sign. */
  ghost predicate IsNumeral(d: seq<byte>) {
    && |d| >= 1 && '0' as byte <= d[|d| - 1] <= '9' as byte
    && forall i :: 0 <= i < |d| ==> d[i] == '-' as byte || '0' as byte <= d[i] <= '9' as byte
  }

  lemma {:induction false} LeadingZero(v: nat, width: nat)
    ensures Padded(v, width)[0] == 48 ==> |Padded(v, width)| == if width == 0 then 1 else width
    ensures Padded(v, width)[0] == 48 && width <= 1 ==> v == 0
    decreases v, width
  {
    if !(v < 10 && width <= 1) {
      LeadingZero(v / 10, if width == 0 then 0 else width - 1);
    }
  }

  /** Digits only from place `from` on, at least one; a zero there stands alone, or fills up to `width` characters. */
  ghost predicate IsPadded(d: seq<byte>, from: nat, width: nat) {
    && |d| > from && |d| >= width
    && (forall i :: from <= i < |d| ==> '0' as byte <= d[i] <= '9' as byte)
    && (d[from] == '0' as byte ==> |d| == from + 1 || |d| == width)
  }

  /** Of the numerals for a number, `%d` gives the shortest and `%06d` the one with just as many zeros as it needs. */
  lemma NumeralShape(n: int)
    ensures n >= 0 ==> IsPadded(Decimal(n), 0, 1) && IsPadded(Decimal6(n), 0, 6)
    ensures n < 0 ==> && IsPadded(Decimal(n), 1, 2) && Decimal(n)[0] == '-' as byte && Decimal(n)[1] != '0' as byte
                      && IsPadded(Decimal6(n), 1, 6) && Decimal6(n)[0] == '-' as byte
  {
    if n >= 0 {
      LeadingZero(n, 0);
      LeadingZero(n, 6);
    } else {
      LeadingZero(-n, 0);
      LeadingZero(-n, 5);
    }
    hide Padded;
  }

  // Numbers read back

  predicate IsDigits(d: seq<byte>) {
    d != [] && forall i :: 0 <= i < |d| ==> 48 <= d[i] <= 57
  }

  /** Positional notation. */
  function ValueOf(d: seq<byte>): nat
    requires forall i :: 0 <= i < |d| ==> 48 <= d[i] <= 57
  {
    if d == [] then 0 else 10 * ValueOf(d[..|d| - 1]) + (d[|d| - 1] as nat - 48)
  }

  datatype Parsed = Parsed(value: int) | NotANumber

  function Number(d: seq<byte>): Parsed {
    if IsDigits(d) then Parsed(ValueOf(d))
    else if d != [] && d[0] == 45 && IsDigits(d[1..]) then Parsed(-(ValueOf(d[1..]) as int))
    else NotANumber
  }

  lemma {:induction false} PaddedValue(v: nat, width: nat)
    ensures ValueOf(Padded(v, width)) == v
    decreases v, width
  {
    var d := Padded(v, width);
    if v < 10 && width <= 1 {
      assert d[..0] == [];
    } else {
      PaddedValue(v / 10, if width == 0 then 0 else width - 1);
      assert d[..|d| - 1] == Padded(v / 10, if width == 0 then 0 else width - 1);
    }
  }

  lemma SignedValue(v: nat, width: nat)
    ensures Number(Padded(v, width)) == Parsed(v)
    ensures Number([45] + Padded(v, width)) == Parsed(-(v as int))
  {
    PaddedValue(v, width);
    var d := [45 as byte] + Padded(v, width);
    assert d[1..] == Padded(v, width) && d[0] == 45 && !IsDigits(d);
  }

  /** What printf writes reads back, whatever the sign and the padding. */
  lemma NumbersReadBack(n: int)
    ensures Number(Decimal(n)) == Parsed(n) && Number(Decimal6(n)) == Parsed(n)
  {
    hide Number, Padded;
    if n < 0 {
      SignedValue(-n, 0);
      SignedValue(-n, 5);
    } else {
      SignedValue(n, 0);
      SignedValue(n, 6);
    }
  }
}
