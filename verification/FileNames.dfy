/** The names of the pictures that output_file.c writes, their byte order, and the names it recognises. */
module FileNames {
  import opened Bits
  import opened Printf

  type Name = seq<byte>

  // Byte order

  /** strcmp; `alphasort` compares like this in the C locale. */
  predicate Less(a: Name, b: Name) {
    b != [] && (a == [] || a[0] < b[0] || (a[0] == b[0] && Less(a[1..], b[1..])))
  }

  lemma {:induction false} LessIsOrder(a: Name, b: Name)
    ensures Less(a, b) ==> !Less(b, a) && a != b
    ensures Less(a, b) || a == b || Less(b, a)
  {
    if a != [] && b != [] {
      LessIsOrder(a[1..], b[1..]);
      assert a == [a[0]] + a[1..] && b == [b[0]] + b[1..];
    }
  }

  lemma {:induction false} LessTransitive(a: Name, b: Name, c: Name)
    requires Less(a, b) && Less(b, c)
    ensures Less(a, c)
  {
    if a != [] && a[0] == b[0] == c[0] {
      LessTransitive(a[1..], b[1..], c[1..]);
    }
  }

  lemma {:induction false} LessConcat(p: Name, q: Name, x: Name, y: Name)
    requires |p| == |q|
    ensures Less(p + x, q + y) <==> Less(p, q) || (p == q && Less(x, y))
  {
    if p == [] {
      assert p + x == x && q + y == y;
    } else {
      LessConcat(p[1..], q[1..], x, y);
      assert (p + x)[1..] == p[1..] + x && (q + y)[1..] == q[1..] + y;
      assert p == [p[0]] + p[1..] && q == [q[0]] + q[1..];
    }
  }

  // Padded numbers

  function Pow10(n: nat): (p: nat)
    ensures p >= 1
  {
    if n == 0 then 1 else 10 * Pow10(n - 1)
  }

  lemma {:induction false} PaddedLength(v: nat, width: nat)
    requires 1 <= width && v < Pow10(width)
    ensures |Padded(v, width)| == width
  {
    if width > 1 {
      PaddedLength(v / 10, width - 1);
    }
  }

  /** Zero padding makes byte order the order of numbers. */
  lemma {:induction false} PaddedOrder(a: nat, b: nat, width: nat)
    requires 1 <= width && a < Pow10(width) && b < Pow10(width)
    ensures Less(Padded(a, width), Padded(b, width)) <==> a < b
    ensures Padded(a, width) == Padded(b, width) <==> a == b
    decreases width, 1
  {
    PaddedLess(a, b, width);
    PaddedLess(b, a, width);
    LessIsOrder(Padded(a, width), Padded(b, width));
    LessIsOrder(Padded(b, width), Padded(a, width));
  }

  lemma {:induction false} PaddedLess(a: nat, b: nat, width: nat)
    requires 1 <= width && a < Pow10(width) && b < Pow10(width)
    ensures Less(Padded(a, width), Padded(b, width)) <==> a < b
    decreases width, 0
  {
    if width > 1 {
      PaddedSplit(a, width);
      PaddedSplit(b, width);
      DigitLess(a % 10, b % 10);
      hide Less, Padded, Pow10, Digit;
      PaddedOrder(a / 10, b / 10, width - 1);
      LessConcat(Padded(a / 10, width - 1), Padded(b / 10, width - 1), [Digit(a % 10)], [Digit(b % 10)]);
    }
  }

  lemma PaddedSplit(v: nat, width: nat)
    requires 2 <= width && v < Pow10(width)
    ensures v / 10 < Pow10(width - 1) && |Padded(v / 10, width - 1)| == width - 1
    ensures Padded(v, width) == Padded(v / 10, width - 1) + [Digit(v % 10)]
  {
    PaddedLength(v / 10, width - 1);
  }

  lemma DigitLess(a: nat, b: nat)
    requires a < 10 && b < 10
    ensures Less([Digit(a)], [Digit(b)]) <==> a < b
  {
  }

  function DigitCount(v: nat): (n: nat)
    ensures n >= 1
  {
    if v < 10 then 1 else 1 + DigitCount(v / 10)
  }

  lemma {:induction false} Pow10Monotone(a: nat, b: nat)
    requires a <= b
    ensures Pow10(a) <= Pow10(b)
    decreases b
  {
    if a < b {
      Pow10Monotone(a, b - 1);
    }
  }

  lemma {:induction false} DigitsSuffice(v: nat, n: nat)
    requires DigitCount(v) <= n
    ensures v < Pow10(n)
  {
    if v >= 10 {
      DigitsSuffice(v / 10, n - 1);
    } else {
      Pow10Monotone(1, n);
    }
  }

  lemma {:induction false} DigitsNeeded(v: nat, n: nat)
    requires 1 <= n && v < Pow10(n)
    ensures DigitCount(v) <= n
  {
    if v >= 10 {
      DigitsNeeded(v / 10, n - 1);
    }
  }

  /** Padding to fewer digits than a number has changes nothing. */
  lemma {:induction false} PaddedOver(v: nat, width: nat)
    requires width <= DigitCount(v)
    ensures Padded(v, width) == Padded(v, DigitCount(v))
  {
    if v >= 10 {
      PaddedOver(v / 10, if width == 0 then 0 else width - 1);
    }
  }

  /** A number without its last `k` digits. */
  function Cut(v: nat, k: nat): nat {
    if k == 0 then v else Cut(v / 10, k - 1)
  }

  /** Its digits are the first ones of the number. */
  lemma {:induction false} PaddedTake(v: nat, n: nat, m: nat)
    requires 1 <= m <= n && v < Pow10(n)
    ensures Cut(v, n - m) < Pow10(m) && |Padded(v, n)| == n
    ensures Padded(v, n)[..m] == Padded(Cut(v, n - m), m)
    decreases n
  {
    PaddedLength(v, n);
    if m == n {
      assert Padded(v, n)[..n] == Padded(v, n);
    } else {
      PaddedSplit(v, n);
      PaddedTake(v / 10, n - 1, m);
      hide Padded, Digit;
    }
  }

  // A name is a list of fields with text behind each

  datatype Field = Field(value: nat, width: nat, text: Name)

  function FieldText(f: Field): Name {
    Padded(f.value, f.width) + f.text
  }

  function Spell(fields: seq<Field>): Name {
    if fields == [] then [] else FieldText(fields[0]) + Spell(fields[1..])
  }

  /** The order of the values, the first one deciding. */
  predicate Before(a: seq<Field>, b: seq<Field>)
    requires |a| == |b|
  {
    a != [] && (a[0].value < b[0].value || (a[0].value == b[0].value && Before(a[1..], b[1..])))
  }

  ghost predicate Alike(a: seq<Field>, b: seq<Field>) {
    && |a| == |b|
    && forall i :: 0 <= i < |a| ==>
         && a[i].width == b[i].width >= 1 && a[i].text == b[i].text
         && a[i].value < Pow10(a[i].width) && b[i].value < Pow10(b[i].width)
  }

  lemma FirstField(a: Field, b: Field)
    requires a.width == b.width >= 1 && a.text == b.text && a.value < Pow10(a.width) && b.value < Pow10(b.width)
    ensures |FieldText(a)| == |FieldText(b)|
    ensures Less(FieldText(a), FieldText(b)) <==> a.value < b.value
    ensures FieldText(a) == FieldText(b) <==> a.value == b.value
  {
    PaddedLength(a.value, a.width);
    PaddedLength(b.value, b.width);
    PaddedOrder(a.value, b.value, a.width);
    LessConcat(Padded(a.value, a.width), Padded(b.value, b.width), a.text, a.text);
    LessIsOrder(a.text, a.text);
    var p, q := Padded(a.value, a.width), Padded(b.value, b.width);
    hide *;
    assert p == (p + a.text)[..a.width] && q == (q + a.text)[..a.width];
  }

  lemma {:induction false} SpellOrder(a: seq<Field>, b: seq<Field>)
    requires Alike(a, b)
    ensures Less(Spell(a), Spell(b)) <==> Before(a, b)
  {
    if a != [] {
      SpellOrder(a[1..], b[1..]);
      FirstField(a[0], b[0]);
      LessConcat(FieldText(a[0]), FieldText(b[0]), Spell(a[1..]), Spell(b[1..]));
      hide Less, FieldText;
    }
  }

  /** Local time, as strftime prints it. */
  datatype Stamp = Stamp(year: nat, month: nat, day: nat, hour: nat, minute: nat, second: nat) {
    /** A time with a year of four digits. */
    predicate Valid() {
      1000 <= year < 10000 && month < 100 && day < 100 && hour < 100 && minute < 100 && second < 100
    }
  }

  const UNDERSCORE: byte := 95
  const PICTURE: Name := [95, 112, 105, 99, 116, 117, 114, 101, 95]  // _picture_
  const JPG: Name := [46, 106, 112, 103]                             // .jpg

  function StampFields(t: Stamp): seq<Field> {
    [Field(t.year, 4, [UNDERSCORE]), Field(t.month, 2, [UNDERSCORE]), Field(t.day, 2, [UNDERSCORE]),
     Field(t.hour, 2, [UNDERSCORE]), Field(t.minute, 2, [UNDERSCORE]), Field(t.second, 2, PICTURE)]
  }

  function Fields(t: Stamp, counter: nat): seq<Field> {
    StampFields(t) + [Field(counter, 9, JPG)]
  }

  /** Lines 259 and 266, without the folder. */
  function PictureName(t: Stamp, counter: nat): Name {
    Spell(Fields(t, counter))
  }

  predicate Earlier(t: Stamp, u: Stamp) {
    if t.year != u.year then t.year < u.year
    else if t.month != u.month then t.month < u.month
    else if t.day != u.day then t.day < u.day
    else if t.hour != u.hour then t.hour < u.hour
    else if t.minute != u.minute then t.minute < u.minute
    else t.second < u.second
  }

  lemma BeforeFirst(a: Field, b: Field, x: seq<Field>, y: seq<Field>)
    requires |x| == |y|
    ensures Before([a] + x, [b] + y) <==> a.value < b.value || (a.value == b.value && Before(x, y))
  {
    assert ([a] + x)[1..] == x && ([b] + y)[1..] == y;
  }

  lemma StampOrder(t: Stamp, u: Stamp)
    ensures Before(StampFields(t), StampFields(u)) <==> Earlier(t, u)
  {
    assert !Before([], []);
    hide Before;
    FieldOrder(t, u, 5);
    FieldOrder(t, u, 4);
    FieldOrder(t, u, 3);
    FieldOrder(t, u, 2);
    FieldOrder(t, u, 1);
    FieldOrder(t, u, 0);
    assert StampFields(t)[0..] == StampFields(t) && StampFields(u)[0..] == StampFields(u);
    assert StampFields(t)[6..] == [];
  }

  lemma FieldOrder(t: Stamp, u: Stamp, i: nat)
    requires i < 6
    ensures var a, b := StampFields(t), StampFields(u);
      Before(a[i..], b[i..]) <==> a[i].value < b[i].value || (a[i].value == b[i].value && Before(a[i + 1..], b[i + 1..]))
  {
    var a, b := StampFields(t), StampFields(u);
    BeforeFirst(a[i], b[i], a[i + 1..], b[i + 1..]);
    assert a[i..] == [a[i]] + a[i + 1..] && b[i..] == [b[i]] + b[i + 1..];
  }

  lemma Powers()
    ensures Pow10(2) == 100 && Pow10(4) == 10000 && Pow10(9) == 1000000000
  {
    assert Pow10(5) == 100000;
  }

  lemma StampsAlike(t: Stamp, u: Stamp)
    requires t.Valid() && u.Valid()
    ensures Alike(StampFields(t), StampFields(u))
  {
    Powers();
  }

  lemma {:induction false} AlikeLength(a: seq<Field>, b: seq<Field>)
    requires Alike(a, b)
    ensures |Spell(a)| == |Spell(b)|
  {
    if a != [] {
      AlikeLength(a[1..], b[1..]);
      FirstField(a[0], b[0]);
      hide FieldText;
    }
  }

  lemma {:induction false} SpellConcat(a: seq<Field>, b: seq<Field>)
    ensures Spell(a + b) == Spell(a) + Spell(b)
  {
    if a == [] {
      assert a + b == b;
    } else {
      SpellConcat(a[1..], b);
      assert (a + b)[1..] == a[1..] + b && (a + b)[0] == a[0];
      SpellFirst(a);
      SpellFirst(a + b);
      hide *;
      Associative(FieldText(a[0]), Spell(a[1..]), Spell(b));
    }
  }

  lemma SpellFirst(a: seq<Field>)
    requires a != []
    ensures Spell(a) == FieldText(a[0]) + Spell(a[1..])
  {
  }

  lemma Associative(a: Name, b: Name, c: Name)
    ensures a + (b + c) == a + b + c
  {
  }

  /** The end of a name. */
  function CounterText(counter: nat): Name {
    Padded(counter, 9) + JPG
  }

  lemma NameParts(t: Stamp, counter: nat)
    ensures PictureName(t, counter) == Spell(StampFields(t)) + CounterText(counter)
  {
    var f := Field(counter, 9, JPG);
    SpellConcat(StampFields(t), [f]);
    assert Spell([f][1..]) == [];
    hide Padded, StampFields;
    assert Spell([f]) == CounterText(counter);
  }

  // What a name looks like

  /** `width` digits of `s`, from place `at` on, are the number `v`. */
  ghost predicate NumberAt(s: Name, at: nat, width: nat, v: nat) {
    at + width <= |s| && IsDigits(s[at..at + width]) && ValueOf(s[at..at + width]) == v
  }

  lemma NumberIsAt(s: Name, at: nat, v: nat, width: nat, d: nat)
    requires width >= 1 && d == |Padded(v, width)| && at + d <= |s| && s[at..at + d] == Padded(v, width)
    ensures NumberAt(s, at, d, v)
  {
    PaddedValue(v, width);
  }

  /** `%Y_%m_%d_%H_%M_%S_picture_%09llu.jpg` */
  function Joined(year: Name, month: Name, day: Name, hour: Name, minute: Name, second: Name, counter: Name): Name {
    year + [95] + (month + [95] + (day + [95] + (hour + [95] + (minute + [95] + (second + PICTURE))))) + (counter + JPG)
  }

  lemma NameIsJoined(t: Stamp, c: nat)
    ensures PictureName(t, c)
            == Joined(Padded(t.year, 4), Padded(t.month, 2), Padded(t.day, 2),
                      Padded(t.hour, 2), Padded(t.minute, 2), Padded(t.second, 2), Padded(c, 9))
  {
    NameParts(t, c);
    var f := StampFields(t);
    hide Padded, Spell, PictureName;
    SpellFirst(f);
    SpellFirst(f[1..]);
    SpellFirst(f[2..]);
    SpellFirst(f[3..]);
    SpellFirst(f[4..]);
    SpellFirst(f[5..]);
    SpellNothing(f[6..]);
  }

  lemma SpellNothing(fields: seq<Field>)
    requires |fields| == 0
    ensures Spell(fields) == []
  {
  }

  lemma PartsOfJoined(year: Name, month: Name, day: Name, hour: Name, minute: Name, second: Name, counter: Name)
    requires |year| == 4 && |month| == |day| == |hour| == |minute| == |second| == 2
    ensures var s := Joined(year, month, day, hour, minute, second, counter);
      && |s| == 32 + |counter|
      && s[0..4] == year && s[5..7] == month && s[8..10] == day
      && s[11..13] == hour && s[14..16] == minute && s[17..19] == second
      && s[4] == s[7] == s[10] == s[13] == s[16] == 95
      && s[19..28] == PICTURE && s[28..|s| - 4] == counter && s[|s| - 4..] == JPG
  {
  }

  /** The numbers of a stamp in their places, and behind the counter, of nine digits or more, the ending. */
  lemma WrittenName(t: Stamp, c: nat)
    requires 1000 <= t.year <= 9999 && t.month <= 99 && t.day <= 99
    requires t.hour <= 99 && t.minute <= 99 && t.second <= 99
    ensures var s := PictureName(t, c);
      && |s| >= 41 && NumberAt(s, 0, 4, t.year) && NumberAt(s, 5, 2, t.month) && NumberAt(s, 8, 2, t.day)
      && NumberAt(s, 11, 2, t.hour) && NumberAt(s, 14, 2, t.minute) && NumberAt(s, 17, 2, t.second)
      && NumberAt(s, 28, |s| - 32, c) && (s[28] == '0' as byte ==> |s| == 41)
      && s[4] == s[7] == s[10] == s[13] == s[16] == '_' as byte
      && s[19..28] == ['_' as byte, 'p' as byte, 'i' as byte, 'c' as byte, 't' as byte,
                       'u' as byte, 'r' as byte, 'e' as byte, '_' as byte]
      && s[|s| - 4..] == ['.' as byte, 'j' as byte, 'p' as byte, 'g' as byte]
  {
    NameIsJoined(t, c);
    PowersOfTen();
    LeadingZero(c, 9);
    PaddedLength(t.year, 4);
    PaddedLength(t.month, 2);
    PaddedLength(t.day, 2);
    PaddedLength(t.hour, 2);
    PaddedLength(t.minute, 2);
    PaddedLength(t.second, 2);
    PartsOfJoined(Padded(t.year, 4), Padded(t.month, 2), Padded(t.day, 2),
                  Padded(t.hour, 2), Padded(t.minute, 2), Padded(t.second, 2), Padded(c, 9));
    hide PictureName, Joined, NumberAt, Padded, Pow10;
    var s := PictureName(t, c);
    NumberIsAt(s, 0, t.year, 4, 4);
    NumberIsAt(s, 5, t.month, 2, 2);
    NumberIsAt(s, 8, t.day, 2, 2);
    NumberIsAt(s, 11, t.hour, 2, 2);
    NumberIsAt(s, 14, t.minute, 2, 2);
    NumberIsAt(s, 17, t.second, 2, 2);
    NumberIsAt(s, 28, c, 9, |s| - 32);
    assert s[28] == s[28..|s| - 4][0];
  }

  lemma PowersOfTen()
    ensures Pow10(2) == 100 && Pow10(4) == 10000
  {
    assert Pow10(3) == 10 * Pow10(2);
  }

  // Counters of any length

  /** How many digits a counter is written with. */
  function CounterDigits(c: nat): (n: nat)
    ensures n >= 9
  {
    if DigitCount(c) < 9 then 9 else DigitCount(c)
  }

  /** The order of written counters: that of the numbers, once the longer one is cut off. */
  predicate CounterLess(c: nat, d: nat) {
    var m, n := CounterDigits(c), CounterDigits(d);
    if m == n then c < d
    else if m < n then c <= Cut(d, n - m)
    else Cut(c, m - n) < d
  }

  lemma CounterWritten(c: nat)
    ensures var n := CounterDigits(c); c < Pow10(n) && Padded(c, 9) == Padded(c, n) && |Padded(c, n)| == n
  {
    DigitsSuffice(c, CounterDigits(c));
    PaddedLength(c, CounterDigits(c));
    if DigitCount(c) >= 9 {
      PaddedOver(c, 9);
    }
  }

  lemma DotAndDigits(d: Name)
    requires d != [] && 48 <= d[0] <= 57
    ensures Less(JPG, d) && !Less(d, JPG)
  {
  }

  /** A shorter counter in front of a longer one. */
  lemma ShorterLess(c: nat, m: nat, d: nat, n: nat)
    requires 1 <= m < n && c < Pow10(m) && d < Pow10(n)
    ensures Less(Padded(c, m) + JPG, Padded(d, n) + JPG) <==> c <= Cut(d, n - m)
    ensures Less(Padded(d, n) + JPG, Padded(c, m) + JPG) <==> Cut(d, n - m) < c
  {
    hide *;
    PaddedTake(d, n, m);
    Behind(Padded(d, n), m, d, n);
    CutOff(c, Cut(d, n - m), m, Padded(d, n)[m..] + JPG);
  }

  lemma Behind(b: Name, m: nat, d: nat, n: nat)
    requires b == Padded(d, n) && m < n
    ensures |b| > m && b + JPG == b[..m] + (b[m..] + JPG) && 48 <= (b[m..] + JPG)[0] <= 57
  {
    assert (b[m..] + JPG)[0] == b[m];
    hide JPG;
  }

  lemma CutOff(c: nat, q: nat, m: nat, rest: Name)
    requires 1 <= m && c < Pow10(m) && q < Pow10(m) && rest != [] && 48 <= rest[0] <= 57
    ensures Less(Padded(c, m) + JPG, Padded(q, m) + rest) <==> c <= q
    ensures Less(Padded(q, m) + rest, Padded(c, m) + JPG) <==> q < c
  {
    DotAndDigits(rest);
    hide Padded, Less, JPG, Pow10;
    PaddedLength(c, m);
    PaddedLength(q, m);
    PaddedOrder(c, q, m);
    PaddedOrder(q, c, m);
    LessConcat(Padded(c, m), Padded(q, m), JPG, rest);
    LessConcat(Padded(q, m), Padded(c, m), rest, JPG);
  }

  lemma CounterOrder(c: nat, d: nat)
    ensures Less(CounterText(c), CounterText(d)) <==> CounterLess(c, d)
  {
    var m, n := CounterDigits(c), CounterDigits(d);
    CounterWritten(c);
    CounterWritten(d);
    hide Padded, Less, CounterDigits;
    if m == n {
      PaddedOrder(c, d, m);
      LessConcat(Padded(c, m), Padded(d, m), JPG, JPG);
      LessIsOrder(JPG, JPG);
    } else if m < n {
      ShorterLess(c, m, d, n);
    } else {
      ShorterLess(d, n, c, m);
    }
  }

  /** Byte order is the order of time; within a second it is the order of the written counters. */
  lemma NameOrder(t: Stamp, u: Stamp, c: nat, d: nat)
    requires t.Valid() && u.Valid()
    ensures Less(PictureName(t, c), PictureName(u, d)) <==> Earlier(t, u) || (t == u && CounterLess(c, d))
  {
    NameParts(t, c);
    NameParts(u, d);
    StampsAlike(t, u);
    StampsAlike(u, t);
    AlikeLength(StampFields(t), StampFields(u));
    SpellOrder(StampFields(t), StampFields(u));
    SpellOrder(StampFields(u), StampFields(t));
    StampOrder(t, u);
    StampOrder(u, t);
    CounterOrder(c, d);
    SameTime(t, u);
    hide Spell, StampFields, CounterText, Less, PictureName, Alike, Before, CounterLess, Earlier;
    LessIsOrder(Spell(StampFields(t)), Spell(StampFields(u)));
    LessConcat(Spell(StampFields(t)), Spell(StampFields(u)), CounterText(c), CounterText(d));
  }

  lemma SameTime(t: Stamp, u: Stamp)
    ensures t == u <==> !Earlier(t, u) && !Earlier(u, t)
  {
  }

  /** Up to nine digits that is the order of the counters; the tenth digit breaks it, except behind small counters. */
  lemma TenDigits(c: nat, d: nat)
    requires c < 1000000000
    ensures d < 1000000000 ==> (CounterLess(c, d) <==> c < d)
    ensures 1000000000 <= d < 10000000000 ==> (CounterLess(c, d) <==> c <= d / 10)
  {
    Powers();
    DigitsNeeded(c, 9);
    if d < 1000000000 {
      DigitsNeeded(d, 9);
    } else if d < 10000000000 {
      assert Pow10(10) == 10000000000 && Pow10(1) == 10;
      DigitsNeeded(d, 10);
      assert Cut(d, 1) == d / 10;
      if DigitCount(d) <= 9 {
        DigitsSuffice(d, 9);
      }
    }
  }

  // sscanf

  /** `%<width>d` or `%<width>llu`, without a limit when the width is 0; or bytes that must come next. */
  datatype Directive = Number(width: nat) | Literal(text: Name)

  datatype Scanned = Rest(rest: Name) | NoNumber

  predicate IsDigit(b: byte) { 48 <= b <= 57 }

  function SkipSpaces(s: Name): Name {
    if s != [] && (s[0] == 32 || 9 <= s[0] <= 13) then SkipSpaces(s[1..]) else s
  }

  function SkipDigits(s: Name, max: nat): Name {
    if max > 0 && s != [] && IsDigit(s[0]) then SkipDigits(s[1..], max - 1) else s
  }

  /** White space, a sign, and at least one digit; the width counts the sign and the digits. */
  function AfterNumber(s: Name, width: nat): Scanned {
    var max := if width == 0 then |s| else width;
    var t := SkipSpaces(s);
    var signed := t != [] && (t[0] == 43 || t[0] == 45);
    var u := if signed then t[1..] else t;
    var left := if signed then max - 1 else max;
    if left > 0 && u != [] && IsDigit(u[0]) then Rest(SkipDigits(u, left)) else NoNumber
  }

  /** The number of conversions. */
  function Sscanf(s: Name, format: seq<Directive>): nat
    decreases |format|
  {
    if format == [] then 0
    else match format[0]
      case Literal(text) => if text <= s then Sscanf(s[|text|..], format[1..]) else 0
      case Number(width) =>
        match AfterNumber(s, width)
        case NoNumber => 0
        case Rest(rest) => 1 + Sscanf(rest, format[1..])
  }

  const FORMAT: seq<Directive> :=
    [Number(0), Literal([UNDERSCORE]), Number(0), Literal([UNDERSCORE]), Number(0), Literal([UNDERSCORE]),
     Number(0), Literal([UNDERSCORE]), Number(0), Literal([UNDERSCORE]), Number(0), Literal(PICTURE),
     Number(9), Literal(JPG)]

  predicate CheckForFilename(name: Name) {
    Sscanf(name, FORMAT) == 7
  }

  lemma {:induction false} SkipAllDigits(d: Name, later: Name, max: nat)
    requires forall i :: 0 <= i < |d| ==> IsDigit(d[i])
    requires |d| <= max && (later == [] || !IsDigit(later[0]))
    ensures SkipDigits(d + later, max) == later
  {
    if d == [] {
      assert d + later == later;
    } else {
      SkipAllDigits(d[1..], later, max - 1);
      assert (d + later)[1..] == d[1..] + later;
    }
  }

  lemma ScanField(f: Field, later: Name, format: seq<Directive>)
    requires f.text != [] && !IsDigit(f.text[0])
    ensures Sscanf(Padded(f.value, f.width) + f.text + later, [Number(0), Literal(f.text)] + format)
            == 1 + Sscanf(later, format)
  {
    var d := Padded(f.value, f.width);
    var s, directives := d + f.text + later, [Number(0), Literal(f.text)] + format;
    assert s == d + (f.text + later);
    SkipAllDigits(d, f.text + later, |s|);
    assert AfterNumber(s, 0) == Rest(f.text + later);
    assert directives[1..] == [Literal(f.text)] + format && directives[1..][1..] == format;
    assert f.text <= f.text + later && (f.text + later)[|f.text|..] == later;
  }

  lemma ScanLast(f: Field)
    ensures Sscanf(Padded(f.value, f.width) + f.text, [Number(9), Literal(f.text)]) == 1
  {
    var s, directives := Padded(f.value, f.width) + f.text, [Number(9), Literal(f.text)];
    assert AfterNumber(s, 9).Rest?;
    assert directives[1..] == [Literal(f.text)] && directives[1..][1..] == [];
    assert Sscanf(AfterNumber(s, 9).rest, directives[1..]) == 0;
  }

  function FormatOf(fields: seq<Field>): seq<Directive>
    requires fields != []
  {
    [Number(if |fields| == 1 then 9 else 0), Literal(fields[0].text)]
    + if |fields| == 1 then [] else FormatOf(fields[1..])
  }

  lemma {:induction false} ScanSpelled(fields: seq<Field>)
    requires fields != []
    requires forall i :: 0 <= i < |fields| ==> fields[i].text != [] && !IsDigit(fields[i].text[0])
    ensures Sscanf(Spell(fields), FormatOf(fields)) == |fields|
  {
    var f := fields[0];
    if |fields| == 1 {
      ScanLast(f);
      assert Spell(fields[1..]) == [];
      assert Spell(fields) == Padded(f.value, f.width) + f.text;
      assert FormatOf(fields) == [Number(9), Literal(f.text)];
    } else {
      ScanSpelled(fields[1..]);
      ScanField(f, Spell(fields[1..]), FormatOf(fields[1..]));
      hide Sscanf, Padded;
    }
  }

  lemma FormatOfName(t: Stamp, counter: nat)
    ensures FormatOf(Fields(t, counter)) == FORMAT
  {
    var f := Fields(t, counter);
    assert FormatOf(f[6..]) == FORMAT[12..];
    FormatStep(f, 5);
    FormatStep(f, 4);
    FormatStep(f, 3);
    FormatStep(f, 2);
    FormatStep(f, 1);
    FormatStep(f, 0);
    hide FormatOf;
    assert f[0..] == f;
  }

  lemma FormatStep(f: seq<Field>, i: nat)
    requires i + 1 < |f|
    ensures FormatOf(f[i..]) == [Number(0), Literal(f[i].text)] + FormatOf(f[i + 1..])
  {
    assert f[i..][1..] == f[i + 1..];
  }

  /** Every name that is written is recognised, with any time and any counter. */
  lemma WrittenNamesMatch(t: Stamp, counter: nat)
    ensures CheckForFilename(PictureName(t, counter))
  {
    ScanSpelled(Fields(t, counter));
    FormatOfName(t, counter);
  }

  // Which names are recognised

  predicate IsSpace(b: byte) {
    b == 32 || 9 <= b <= 13
  }

  /** White space, at most one sign, and digits from `j` on. */
  ghost predicate SpelledAt(n: Name, i: nat, j: nat) {
    && i <= j < |n| && j <= i + 1
    && (forall k :: 0 <= k < i ==> IsSpace(n[k]))
    && (j == i + 1 ==> n[i] == '+' as byte || n[i] == '-' as byte)
    && forall k :: j <= k < |n| ==> '0' as byte <= n[k] <= '9' as byte
  }

  /** A number as `%d` takes it, of at most `most` characters behind the white space. */
  ghost predicate IsNumber(n: Name, most: nat) {
    exists i: nat, j: nat :: SpelledAt(n, i, j) && |n| - i <= most
  }

  /** What stands between the numbers of a picture's name. */
  ghost function Between(i: nat): Name {
    if i < 5 then ['_' as byte] else ['_' as byte, 'p' as byte, 'i' as byte, 'c' as byte, 't' as byte, 'u' as byte,
      'r' as byte, 'e' as byte, '_' as byte]
  }

  /** From the i-th of seven numbers on; behind the last one, of at most nine characters, anything may follow. */
  ghost predicate ShapedFrom(s: Name, i: nat)
    requires i <= 6
    decreases 6 - i
  {
    if i == 6 then exists n: Name :: n <= s && IsNumber(n, 9)
    else exists n: Name :: IsNumber(n, |n|) && n + Between(i) <= s && ShapedFrom(s[|n + Between(i)|..], i + 1)
  }

  /** Six numbers, underscores between them, `_picture_`, and a seventh number. */
  ghost predicate IsShaped(name: Name) {
    ShapedFrom(name, 0)
  }

  /** The number of white-space bytes at the beginning. */
  function Spaces(s: Name): (i: nat)
    ensures i <= |s| && (forall k :: 0 <= k < i ==> IsSpace(s[k])) && (i < |s| ==> !IsSpace(s[i]))
    ensures SkipSpaces(s) == s[i..]
  {
    if s != [] && IsSpace(s[0]) then 1 + Spaces(s[1..]) else 0
  }

  /** How many digits are skipped. */
  function Digits(s: Name, max: nat): (n: nat)
    ensures n <= |s| && n <= max && (forall k :: 0 <= k < n ==> IsDigit(s[k]))
    ensures n < max && n < |s| ==> !IsDigit(s[n])
    ensures SkipDigits(s, max) == s[n..]
  {
    if max > 0 && s != [] && IsDigit(s[0]) then 1 + Digits(s[1..], max - 1) else 0
  }

  /** Where the digits begin. */
  function SignEnd(s: Name): (j: nat)
    ensures Spaces(s) <= j <= |s| && j <= Spaces(s) + 1
    ensures j == Spaces(s) + 1 ==> s[Spaces(s)] == 43 || s[Spaces(s)] == 45
    ensures j == Spaces(s) < |s| ==> s[j] != 43 && s[j] != 45
  {
    var i := Spaces(s);
    if i < |s| && (s[i] == 43 || s[i] == 45) then i + 1 else i
  }

  /** How many digits are allowed, with the width counting from the sign on. */
  function Allowed(s: Name, width: nat): int {
    (if width == 0 then |s| else width) - (SignEnd(s) - Spaces(s))
  }

  lemma AfterNumberIs(s: Name, width: nat)
    ensures var j, left := SignEnd(s), Allowed(s, width);
      AfterNumber(s, width)
      == if left > 0 && j < |s| && IsDigit(s[j]) then Rest(s[j..][Digits(s[j..], left)..]) else NoNumber
  {
    var i, j := Spaces(s), SignEnd(s);
    var t := SkipSpaces(s);
    hide Spaces, SkipSpaces, SkipDigits, Digits;
    assert t == s[i..];
    assert (if j == i + 1 then t[1..] else t) == s[j..];
  }

  lemma DigitsTaken(u: Name, left: nat)
    requires left > 0 && u != [] && IsDigit(u[0])
    ensures 1 <= Digits(u, left) <= left && Digits(u, left) <= |u|
    ensures forall k :: 0 <= k < Digits(u, left) ==> IsDigit(u[k])
  {
  }

  lemma SpelledPrefix(s: Name, i: nat, j: nat, d: nat)
    requires i <= j <= i + 1 && d >= 1 && j + d <= |s| && (forall k :: 0 <= k < i ==> IsSpace(s[k]))
    requires (j == i + 1 ==> s[i] == 43 || s[i] == 45) && forall k :: 0 <= k < d ==> IsDigit(s[j..][k])
    ensures SpelledAt(s[..j + d], i, j) && s[..j + d] + s[j..][d..] == s
  {
    forall k | j <= k < j + d ensures '0' as byte <= s[k] <= '9' as byte {
      assert s[j..][k - j] == s[k];
    }
  }

  lemma NumberBy(n: Name, i: nat, j: nat, most: nat)
    requires SpelledAt(n, i, j) && |n| - i <= most
    ensures IsNumber(n, most)
  {
  }

  /** What a conversion takes is a number, of at most as many characters as it may. */
  lemma NumberTaken(s: Name, width: nat) returns (n: Name)
    requires AfterNumber(s, width).Rest?
    ensures n + AfterNumber(s, width).rest == s && IsNumber(n, if width == 0 then |n| else width)
  {
    AfterNumberIs(s, width);
    var i, j, left := Spaces(s), SignEnd(s), Allowed(s, width);
    assert left == (if width == 0 then |s| else width) - (j - i);
    hide AfterNumber, Digits, SkipSpaces, Allowed, SpelledAt, IsNumber, IsDigit;
    assert s[j..][0] == s[j];
    DigitsTaken(s[j..], left);
    var d := Digits(s[j..], left);
    n := s[..j + d];
    SpelledPrefix(s, i, j, d);
    NumberBy(n, i, j, if width == 0 then |n| else width);
  }

  lemma {:induction false} SpacesAre(s: Name, i: nat)
    requires i < |s| && (forall k :: 0 <= k < i ==> IsSpace(s[k])) && !IsSpace(s[i])
    ensures Spaces(s) == i
  {
    if i > 0 {
      SpacesAre(s[1..], i - 1);
    }
  }

  lemma {:induction false} DigitsAre(u: Name, d: nat, max: nat)
    requires d <= |u| && (forall k :: 0 <= k < d ==> IsDigit(u[k])) && (d < |u| ==> !IsDigit(u[d])) && d <= max
    ensures Digits(u, max) == d
  {
    if d > 0 {
      assert IsDigit(u[0]);
      DigitsAre(u[1..], d - 1, max - 1);
    }
  }

  lemma NumberParts(n: Name, i: nat, j: nat, rest: Name)
    requires SpelledAt(n, i, j)
    ensures Spaces(n + rest) == i && SignEnd(n + rest) == j && IsDigit((n + rest)[j])
    ensures (n + rest)[j..] == n[j..] + rest
  {
    var s := n + rest;
    assert s[i] == n[i] && s[j] == n[j];
    SpacesAre(s, i);
    hide Spaces;
  }

  /** The digits of a number, and where they end. */
  lemma TailDigits(n: Name, i: nat, j: nat, rest: Name)
    requires SpelledAt(n, i, j) && (rest == [] || !IsDigit(rest[0]))
    ensures var u, d := n[j..] + rest, |n| - j;
      && 1 <= d <= |u| && (forall k :: 0 <= k < d ==> IsDigit(u[k])) && (d < |u| ==> !IsDigit(u[d])) && u[d..] == rest
  {
  }

  /** A number in front of something that is no digit is taken as a whole. */
  lemma NumberIsTaken(n: Name, rest: Name)
    requires IsNumber(n, |n|) && (rest == [] || !IsDigit(rest[0]))
    ensures AfterNumber(n + rest, 0) == Rest(rest)
  {
    var i: nat, j: nat :| SpelledAt(n, i, j) && |n| - i <= |n|;
    var s := n + rest;
    NumberParts(n, i, j, rest);
    TailDigits(n, i, j, rest);
    AfterNumberIs(s, 0);
    assert Allowed(s, 0) == |s| - (j - i);
    assert i <= j < |n|;
    hide AfterNumber, Digits, Spaces, SignEnd, Allowed, SpelledAt, IsDigit;
    DigitsAre(n[j..] + rest, |n| - j, |s| - (j - i));
  }

  /** A number of at most `width` characters is at least begun. */
  lemma NumberIsBegun(n: Name, rest: Name, width: nat)
    requires width > 0 && IsNumber(n, width)
    ensures AfterNumber(n + rest, width).Rest?
  {
    var i: nat, j: nat :| SpelledAt(n, i, j) && |n| - i <= width;
    NumberParts(n, i, j, rest);
    AfterNumberIs(n + rest, width);
  }

  lemma FormatAt(i: nat)
    requires i <= 6
    ensures |FORMAT| == 14 && FORMAT[2 * i] == Number(if i < 6 then 0 else 9)
    ensures FORMAT[2 * i + 1] == Literal(if i < 6 then Between(i) else JPG)
  {
    assert UNDERSCORE == '_' as byte;
  }

  /** One number and what stands behind it. */
  lemma FormatTurn(s: Name, i: nat)
    requires i <= 6
    ensures |FORMAT| == 14
    ensures Sscanf(s, FORMAT[2 * i..])
         == match AfterNumber(s, if i < 6 then 0 else 9)
            case NoNumber => 0
            case Rest(rest) =>
              var text := if i < 6 then Between(i) else JPG;
              1 + if text <= rest then Sscanf(rest[|text|..], FORMAT[2 * i + 2..]) else 0
  {
    FormatAt(i);
    hide FORMAT, AfterNumber, Between, JPG;
    var f := FORMAT[2 * i..];
    assert f[0] == FORMAT[2 * i] && f[1..][0] == FORMAT[2 * i + 1] && f[1..][1..] == FORMAT[2 * i + 2..];
  }

  lemma BetweenBegins(i: nat)
    ensures Between(i) != [] && !IsDigit(Between(i)[0])
  {
  }

  /** A conversion that is followed by what has to follow it. */
  lemma TurnTaken(s: Name, i: nat) returns (n: Name)
    requires i < 6 && AfterNumber(s, 0).Rest? && Between(i) <= AfterNumber(s, 0).rest
    ensures IsNumber(n, |n|) && n + Between(i) <= s
    ensures s[|n + Between(i)|..] == AfterNumber(s, 0).rest[|Between(i)|..]
  {
    hide AfterNumber, IsNumber, Between;
    n := NumberTaken(s, 0);
    var rest := AfterNumber(s, 0).rest;
    assert s == n + rest;
    assert s[|n + Between(i)|..] == rest[|Between(i)|..];
  }

  lemma TurnIsTaken(s: Name, i: nat, n: Name)
    requires i < 6 && IsNumber(n, |n|) && n + Between(i) <= s
    ensures AfterNumber(s, 0) == Rest(s[|n|..]) && Between(i) <= s[|n|..]
    ensures s[|n|..][|Between(i)|..] == s[|n + Between(i)|..]
  {
    BetweenBegins(i);
    hide AfterNumber, IsNumber, Between;
    var rest := s[|n|..];
    assert s == n + rest && rest[..|Between(i)|] == Between(i);
    NumberIsTaken(n, rest);
  }

  lemma LastTurn(s: Name)
    ensures |FORMAT| == 14
    ensures Sscanf(s, FORMAT[12..]) == 1 <==> ShapedFrom(s, 6)
    ensures Sscanf(s, FORMAT[12..]) <= 1
  {
    FormatTurn(s, 6);
    hide FORMAT, AfterNumber, IsNumber;
    assert forall t: Name :: Sscanf(t, FORMAT[14..]) == 0;
    if AfterNumber(s, 9).Rest? {
      var n := NumberTaken(s, 9);
      assert n <= s && IsNumber(n, 9);
    }
    if n: Name :| n <= s && IsNumber(n, 9) {
      assert s == n + s[|n|..];
      NumberIsBegun(n, s[|n|..], 9);
    }
  }

  lemma ShapedBy(s: Name, i: nat, n: Name)
    requires i < 6 && IsNumber(n, |n|) && n + Between(i) <= s && ShapedFrom(s[|n + Between(i)|..], i + 1)
    ensures ShapedFrom(s, i)
  {
    hide IsNumber, Between;
  }

  lemma ShapedWith(s: Name, i: nat) returns (n: Name)
    requires i < 6 && ShapedFrom(s, i)
    ensures IsNumber(n, |n|) && n + Between(i) <= s && ShapedFrom(s[|n + Between(i)|..], i + 1)
  {
    hide IsNumber, Between;
    n :| IsNumber(n, |n|) && n + Between(i) <= s && ShapedFrom(s[|n + Between(i)|..], i + 1);
  }

  /** The shape, one conversion at a time. */
  lemma ShapedTurn(s: Name, i: nat)
    requires i < 6
    ensures ShapedFrom(s, i)
       <==> && AfterNumber(s, 0).Rest? && Between(i) <= AfterNumber(s, 0).rest
            && ShapedFrom(AfterNumber(s, 0).rest[|Between(i)|..], i + 1)
  {
    hide *;
    if AfterNumber(s, 0).Rest? && Between(i) <= AfterNumber(s, 0).rest
       && ShapedFrom(AfterNumber(s, 0).rest[|Between(i)|..], i + 1)
    {
      var n := TurnTaken(s, i);
      ShapedBy(s, i, n);
    }
    if ShapedFrom(s, i) {
      var n := ShapedWith(s, i);
      TurnIsTaken(s, i, n);
    }
  }

  lemma {:induction false} ShapedIff(s: Name, i: nat)
    requires i <= 6
    ensures |FORMAT| == 14
    ensures Sscanf(s, FORMAT[2 * i..]) == 7 - i <==> ShapedFrom(s, i)
    decreases 6 - i
  {
    hide *;
    if i == 6 {
      LastTurn(s);
    } else {
      FormatTurn(s, i);
      ShapedTurn(s, i);
      if AfterNumber(s, 0).Rest? && Between(i) <= AfterNumber(s, 0).rest {
        ShapedIff(AfterNumber(s, 0).rest[|Between(i)|..], i + 1);
      }
    }
  }

  /** The pattern recognises exactly the names of this shape. */
  lemma RecognisedIff(name: Name)
    ensures CheckForFilename(name) <==> IsShaped(name)
  {
    ShapedIff(name, 0);
    hide Sscanf, FORMAT, ShapedFrom;
    assert FORMAT[0..] == FORMAT;
  }
}
