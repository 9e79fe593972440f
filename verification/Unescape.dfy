/** `unescape` of httpd.c, which decodes a C string in place, against section 2.1 of RFC 3986. */
module Unescape {
  import opened Bits
  import opened CString

  const PERCENT: byte := '%' as byte

  /** `hex_char_to_int`. */
  function HexCharToInt(c: byte): (v: int)
    ensures -1 <= v < 16
  {
    var t := c as int;
    if 48 <= t <= 57 then t - 48
    else if 97 <= t <= 102 then t - 97 + 10
    else if 65 <= t <= 70 then t - 65 + 10
    else -1
  }

  // What is decoded

  /** At `i` there is a `%` and two hexadecimal digits. */
  predicate IsEscape(s: seq<byte>, i: nat) {
    i + 2 < |s| && s[i] == PERCENT && HexCharToInt(s[i + 1]) != -1 && HexCharToInt(s[i + 2]) != -1
  }

  ghost predicate WellFormed(s: seq<byte>) {
    forall i :: 0 <= i < |s| && s[i] == PERCENT ==> IsEscape(s, i)
  }

  function Escaped(s: seq<byte>): byte
    requires IsEscape(s, 0)
  {
    (HexCharToInt(s[1]) * 16 + HexCharToInt(s[2])) as byte
  }

  datatype Decoded = Good(bytes: seq<byte>) | Malformed

  /** The pure decoder, from left to right. */
  function Decode(s: seq<byte>): Decoded {
    if s == [] then Good([])
    else if s[0] != PERCENT then Behind([s[0]], Decode(s[1..]))
    else if IsEscape(s, 0) then Behind([Escaped(s)], Decode(s[3..]))
    else Malformed
  }

  function Behind(out: seq<byte>, d: Decoded): Decoded {
    match d
    case Good(bytes) => Good(out + bytes)
    case Malformed => Malformed
  }

  /** Digits are not `%`, so skipping over them skips no other escape. */
  lemma {:induction false} MalformedIff(s: seq<byte>)
    ensures Decode(s).Good? <==> WellFormed(s)
  {
    if s != [] {
      if s[0] != PERCENT {
        MalformedIff(s[1..]);
        WellFormedLater(s, 1);
      } else if IsEscape(s, 0) {
        MalformedIff(s[3..]);
        WellFormedLater(s, 3);
      }
    }
  }

  lemma WellFormedLater(s: seq<byte>, n: nat)
    requires n <= |s| && forall i :: 0 <= i < n && s[i] == PERCENT ==> IsEscape(s, i)
    ensures WellFormed(s) <==> WellFormed(s[n..])
  {
    var t := s[n..];
    forall i | 0 <= i < |t| ensures IsEscape(t, i) <==> IsEscape(s, n + i) {
      assert t[i] == s[n + i];
    }
    if WellFormed(t) {
      forall i | 0 <= i < |s| && s[i] == PERCENT ensures IsEscape(s, i) {
        if n <= i {
          assert t[i - n] == PERCENT;
        }
      }
    }
  }

  // Decoding in place

  /** The loop invariant of lines 274-300. */
  ghost predicate Between(was: seq<byte>, now: seq<byte>, out: seq<byte>, src: nat) {
    && NUL in was && |out| <= src <= StrLen(was) && Written(now, out, was)
    && Decode(Text(was)) == Behind(out, Decode(Text(was)[src..]))
  }

  lemma AtStart(was: seq<byte>)
    requires NUL in was
    ensures Between(was, was, [], 0)
  {
    assert Text(was)[0..] == Text(was);
    BehindNothing(Decode(Text(was)));
  }

  lemma BehindNothing(d: Decoded)
    ensures Behind([], d) == d
  {
    if d.Good? {
      assert [] + d.bytes == d.bytes;
    }
  }

  lemma BehindTwice(a: seq<byte>, b: seq<byte>, d: Decoded)
    ensures Behind(a, Behind(b, d)) == Behind(a + b, d)
  {
    if d.Good? {
      assert a + (b + d.bytes) == a + b + d.bytes;
    }
  }

  /** The write index has not passed the read index, so what is to be read is still the original string. */
  lemma NotOverwritten(was: seq<byte>, now: seq<byte>, out: seq<byte>, src: nat)
    requires Between(was, now, out, src)
    ensures |out| <= src <= |Text(was)| == StrLen(was) < |was| == |now|
    ensures now[StrLen(was)] == NUL && Text(was)[src..] == now[src..StrLen(was)]
  {
  }

  lemma CopyByte(was: seq<byte>, now: seq<byte>, out: seq<byte>, src: nat)
    requires Between(was, now, out, src) && src < StrLen(was) && now[src] != PERCENT
    ensures Between(was, now[|out| := now[src]], out + [now[src]], src + 1)
  {
    NotOverwritten(was, now, out, src);
    var s := Text(was)[src..];
    assert s[1..] == Text(was)[src + 1..];
    BehindTwice(out, [s[0]], Decode(s[1..]));
  }

  lemma ReplaceEscape(was: seq<byte>, now: seq<byte>, out: seq<byte>, src: nat)
    requires Between(was, now, out, src) && src < StrLen(was) && IsEscape(Text(was)[src..], 0)
    ensures var b := Escaped(Text(was)[src..]); Between(was, now[|out| := b], out + [b], src + 3)
  {
    var s := Text(was)[src..];
    assert s[3..] == Text(was)[src + 3..];
    BehindTwice(out, [Escaped(s)], Decode(s[3..]));
  }

  lemma NoEscape(was: seq<byte>, now: seq<byte>, out: seq<byte>, src: nat)
    requires Between(was, now, out, src) && src < StrLen(was) && !IsEscape(Text(was)[src..], 0) && now[src] == PERCENT
    ensures !WellFormed(Text(was))
  {
    MalformedIff(Text(was));
  }

  lemma AtEnd(was: seq<byte>, now: seq<byte>, out: seq<byte>)
    requires NUL in was && Between(was, now, out, StrLen(was))
    ensures WellFormed(Text(was)) && Decode(Text(was)) == Good(out)
    ensures |out| < |now| && Replaced(now[|out| := NUL], out, was)
  {
    MalformedIff(Text(was));
    assert out + [] == out;
    assert now[|out| := NUL] == out + [NUL] + was[|out| + 1..];
  }

  /** Nothing from the NUL of the original string on has changed. */
  ghost predicate TailKept(now: seq<byte>, was: seq<byte>) {
    NUL in was && |now| == |was| && forall k :: StrLen(was) <= k < |was| ==> now[k] == was[k]
  }

  lemma BetweenTail(was: seq<byte>, now: seq<byte>, out: seq<byte>, src: nat, b: byte)
    requires Between(was, now, out, src) && src < StrLen(was)
    ensures TailKept(now, was) && TailKept(now[|out| := b], was)
  {
  }

  /** Lines 287-299: an escape at `src` is replaced by its value. */
  method TakeEscape(data: array<byte>, src: nat, dst: nat, length: nat, ghost was: seq<byte>, ghost out: seq<byte>)
    returns (ok: bool, ghost value: byte)
    requires Between(was, data[..], out, src) && dst == |out| && src < length == StrLen(was) && data[src] == PERCENT
    modifies data
    ensures ok <==> IsEscape(Text(was)[src..], 0)
    ensures ok ==> Between(was, data[..], out + [value], src + 3)
    ensures !ok ==> TailKept(data[..], was)
  {
    ghost var now := data[..];
    ghost var s := Text(was)[src..];
    value := 0;
    NotOverwritten(was, now, out, src);
    BetweenTail(was, now, out, src, 0);
    if src + 2 > length {
      return false, value;
    }
    assert s[0] == PERCENT && |s| >= 2;
    var rc := HexCharToInt(data[src + 1]);
    assert data[src + 1] == now[src + 1] == s[1];
    if rc == -1 {
      return false, value;
    }
    BetweenTail(was, now, out, src, (rc * 16) as byte);
    data[dst] := (rc * 16) as byte;
    assert data[..] == now[dst := (rc * 16) as byte];
    rc := HexCharToInt(data[src + 2]);
    assert data[src + 2] == now[src + 2];
    assert |s| > 2 ==> s[2] == now[src + 2];
    if rc == -1 {
      return false, value;
    }
    data[dst] := ((data[dst] as int + rc) % 256) as byte;
    ReplaceEscape(was, now, out, src);
    value := Escaped(s);
    assert data[..] == now[dst := value];
    return true, value;
  }

  /** 0 and the decoded string, or -1 exactly when some `%` is not followed by two hexadecimal digits. */
  method UnescapeInPlace(data: array<byte>) returns (rc: int)
    requires NUL in data[..]
    modifies data
    ensures var text := Text(old(data[..]));
      if WellFormed(text) then rc == 0 && Decode(text).Good? && Replaced(data[..], Decode(text).bytes, old(data[..]))
      else rc == -1 && TailKept(data[..], old(data[..]))
  {
    ghost var was, out: seq<byte> := data[..], [];
    var length := Strlen(data);
    AtStart(was);
    var dst, src := 0, 0;
    hide WellFormed, Decode, Text, StrLen, Replaced, TailKept, Written, IsEscape;
    while src < length
      invariant Between(was, data[..], out, src) && |out| == dst <= src <= length < data.Length
    {
      NotOverwritten(was, data[..], out, src);
      if data[src] != PERCENT {
        CopyByte(was, data[..], out, src);
        ghost var now := data[..];
        out := out + [data[src]];
        data[dst] := data[src];
        assert data[..] == now[dst := now[src]];
        dst := dst + 1;
        src := src + 1;
      } else {
        ghost var now := data[..];
        var ok, value := TakeEscape(data, src, dst, length, was, out);
        if !ok {
          NoEscape(was, now, out, src);
          return -1;
        }
        out := out + [value];
        dst := dst + 1;
        src := src + 3;
        NotOverwritten(was, data[..], out, src);
      }
    }
    AtEnd(was, data[..], out);
    ghost var now := data[..];
    data[dst] := NUL;
    assert data[..] == now[dst := NUL];
    return 0;
  }

  method Strlen(s: array<byte>) returns (n: nat)
    requires NUL in s[..]
    ensures n == StrLen(s[..])
  {
    n := 0;
    while s[n] != NUL
      invariant n <= StrLen(s[..])
      decreases s.Length - n
    {
      assert s[..][n] == s[n];
      n := n + 1;
    }
    assert s[..][n] == s[n];
  }

  // Percent-encoding: any byte may be escaped, with digits of either case; `%` must be

  datatype Form = Literal | Percent(upperHigh: bool, upperLow: bool)

  function HexDigit(v: nat, upper: bool): byte
    requires v < 16
  {
    if v < 10 then (48 + v) as byte else if upper then (65 + v - 10) as byte else (97 + v - 10) as byte
  }

  function Spell(b: byte, f: Form): seq<byte> {
    match f
    case Literal => [b]
    case Percent(high, low) => [PERCENT, HexDigit(b as int / 16, high), HexDigit(b as int % 16, low)]
  }

  function Encode(plain: seq<byte>, forms: seq<Form>): seq<byte>
    requires |plain| == |forms|
  {
    if plain == [] then [] else Spell(plain[0], forms[0]) + Encode(plain[1..], forms[1..])
  }

  ghost predicate Encodable(plain: seq<byte>, forms: seq<Form>) {
    && |plain| == |forms|
    && forall i :: 0 <= i < |plain| && forms[i].Literal? ==> plain[i] != PERCENT && plain[i] != NUL
  }

  lemma HexDigitValue(v: nat, upper: bool)
    requires v < 16
    ensures HexCharToInt(HexDigit(v, upper)) == v
  {
  }

  lemma HexDigitOf(c: byte)
    requires HexCharToInt(c) != -1
    ensures HexDigit(HexCharToInt(c), c < 97) == c
  {
  }

  lemma DecodeSpelled(b: byte, f: Form, later: seq<byte>)
    requires f.Literal? ==> b != PERCENT && b != NUL
    ensures Decode(Spell(b, f) + later) == Behind([b], Decode(later))
    ensures NUL !in Spell(b, f)
  {
    var s := Spell(b, f) + later;
    if f.Percent? {
      HexDigitValue(b as int / 16, f.upperHigh);
      HexDigitValue(b as int % 16, f.upperLow);
      assert s[3..] == later;
    } else {
      assert s[1..] == later;
    }
  }

  /** Decoding undoes any percent-encoding of any bytes. */
  lemma {:induction false} DecodeInvertsEncode(plain: seq<byte>, forms: seq<Form>)
    requires Encodable(plain, forms)
    ensures NUL !in Encode(plain, forms)
    ensures Decode(Encode(plain, forms)) == Good(plain)
  {
    if plain != [] {
      DecodeInvertsEncode(plain[1..], forms[1..]);
      DecodeSpelled(plain[0], forms[0], Encode(plain[1..], forms[1..]));
      hide Decode, Spell;
      assert [plain[0]] + plain[1..] == plain;
    }
  }

  /** Whatever is decoded without an error is a percent-encoding of the result. */
  lemma {:induction false} DecodedIsEncoded(text: seq<byte>) returns (forms: seq<Form>)
    requires NUL !in text && WellFormed(text)
    ensures Decode(text).Good? && Encodable(Decode(text).bytes, forms)
    ensures Encode(Decode(text).bytes, forms) == text
    decreases |text|
  {
    MalformedIff(text);
    if text == [] {
      forms := [];
    } else {
      var n := if text[0] != PERCENT then 1 else 3;
      MalformedIff(text[n..]);
      forms := DecodedIsEncoded(text[n..]);
      FirstForm(text, n, forms);
      forms := [FormOf(text)] + forms;
    }
  }

  function FormOf(text: seq<byte>): Form
    requires text != [] && (text[0] == PERCENT ==> IsEscape(text, 0))
  {
    if text[0] != PERCENT then Literal else Percent(text[1] < 97, text[2] < 97)
  }

  lemma FirstForm(text: seq<byte>, n: nat, forms: seq<Form>)
    requires text != [] && NUL !in text && n == (if text[0] != PERCENT then 1 else 3)
    requires text[0] == PERCENT ==> IsEscape(text, 0)
    requires var d := Decode(text[n..]); d.Good? && Encodable(d.bytes, forms) && Encode(d.bytes, forms) == text[n..]
    ensures var d := Decode(text); d.Good? && Encodable(d.bytes, [FormOf(text)] + forms)
                                   && Encode(d.bytes, [FormOf(text)] + forms) == text
  {
    var later, bytes, all := Decode(text[n..]).bytes, Decode(text).bytes, [FormOf(text)] + forms;
    assert bytes[1..] == later && all[1..] == forms;
    if n == 3 {
      HexDigitOf(text[1]);
      HexDigitOf(text[2]);
    }
    assert Spell(bytes[0], all[0]) == text[..n];
    assert text[..n] + text[n..] == text;
  }

  /** A successful call on a percent-encoding leaves a C string equal to what was encoded, exactly when that has no NUL. */
  lemma RoundTrip(was: seq<byte>, now: seq<byte>, plain: seq<byte>, forms: seq<Form>)
    requires Encodable(plain, forms) && NUL in was && Text(was) == Encode(plain, forms)
    requires WellFormed(Text(was)) && Decode(Text(was)).Good? ==> Replaced(now, Decode(Text(was)).bytes, was)
    ensures WellFormed(Text(was)) && NUL in now
    ensures Text(now) == plain <==> NUL !in plain
  {
    DecodeInvertsEncode(plain, forms);
    MalformedIff(Text(was));
    Terminated(plain, was[|plain| + 1..]);
  }
}
