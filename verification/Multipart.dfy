/**
  `send_stream` of httpd.c writes a multipart stream, `extract_data` reads it back: what the
  server sends, and exactly when the client receives it.
 */
module Multipart {
  import opened Bits
  import opened Extractor
  import opened Matcher
  import opened Printf

  // The server

  function Join(texts: seq<string>): seq<byte> {
    if texts == [] then [] else Ascii(texts[0]) + Join(texts[1..])
  }

  const STATUS := Ascii("HTTP/1.0 200 OK\r\n")
  const ORIGIN: string := "Access-Control-Allow-Origin: *\r\n"
  const CONNECTION: string := "Connection: close\r\n"
  const SERVER: string := "Server: MJPG-Streamer/0.2\r\n"
  const NO_STORE: string := "Cache-Control: no-store, "
  const NO_CACHE: string := "no-cache, must-revalidate, "
  const PRE_CHECK: string := "pre-check=0, post-check=0, "
  const MAX_AGE: string := "max-age=0\r\n"
  const PRAGMA: string := "Pragma: no-cache\r\n"
  const EXPIRES: string := "Expires: Mon, 3 Jan 2000 "
  const MIDDAY: string := "12:34:56 GMT\r\n"
  const MULTIPART: string := "Content-Type: multipart/"
  const REPLACE: string := "x-mixed-replace;"
  const BOUNDARY_FIELD: string := "boundary=boundarydonotcross\r\n"
  const FIELD_TEXTS: seq<string> :=
    [ORIGIN, CONNECTION, SERVER, NO_STORE, NO_CACHE, PRE_CHECK, MAX_AGE,
     PRAGMA, EXPIRES, MIDDAY, MULTIPART, REPLACE, BOUNDARY_FIELD]
  const FIELDS := Join(FIELD_TEXTS)
  const CRLF := Ascii("\r\n")

  datatype Frame = Frame(bytes: seq<byte>, sec: int, usec: int)

  /** Lines 466-471. */
  const PREAMBLE := STATUS + FIELDS + CRLF + BOUNDARY + CRLF

  const TYPE_LINE := Ascii("Content-Type: ") + (Ascii("image/jpeg") + Ascii("\r\nContent-Length: "))
  const TIME_LINE := Ascii("\r\nX-Timestamp: ")
  const POINT := Ascii(".")

  /** Lines 521-524. */
  function PartHeader(f: Frame): seq<byte> {
    TYPE_LINE + Decimal(|f.bytes|) + TIME_LINE + Decimal(f.sec) + (POINT + Decimal6(f.usec)) + (CRLF + CRLF)
  }

  /** The j-th call of write: first the preamble, then three for every frame. */
  function WriteNo(frames: seq<Frame>, j: nat): seq<byte>
    requires j <= 3 * |frames|
  {
    if j == 0 then PREAMBLE else
      var f, k := frames[(j - 1) / 3], (j - 1) % 3;
      if k == 0 then PartHeader(f) else if k == 1 then f.bytes else CRLF + BOUNDARY + CRLF
  }

  /** What `n` successful writes put on the wire. */
  function Sent(frames: seq<Frame>, n: nat): seq<byte>
    requires n <= 3 * |frames| + 1
  {
    if n == 0 then [] else Sent(frames, n - 1) + WriteNo(frames, n - 1)
  }

  function Wire(frames: seq<Frame>): seq<byte> {
    Sent(frames, 3 * |frames| + 1)
  }

  /**
    `send_stream` for the frames it gets to see before it stops; `budget` is the number of
    writes that succeed before one fails.
   */
  method SendStream(frames: seq<Frame>, budget: nat) returns (wire: seq<byte>)
    ensures wire == if budget <= 3 * |frames| then Sent(frames, budget) else Wire(frames)
  {
    hide PREAMBLE, PartHeader, CRLF, BOUNDARY, WriteNo;
    FirstWrite(frames);
    wire := [];
    if budget == 0 {
      return;
    }
    wire := PREAMBLE;
    var written := 1;
    var i := 0;
    while i < |frames|
      invariant i <= |frames| && written == 3 * i + 1 <= budget
      invariant wire == Sent(frames, written)
    {
      var f := frames[i];
      ThreeWrites(frames, i);
      if written == budget {
        return;
      }
      wire, written := wire + PartHeader(f), written + 1;
      assert wire == Sent(frames, written);
      if written == budget {
        return;
      }
      wire, written := wire + f.bytes, written + 1;
      assert wire == Sent(frames, written);
      if written == budget {
        return;
      }
      wire, written := wire + (CRLF + BOUNDARY + CRLF), written + 1;
      i := i + 1;
    }
  }

  lemma FirstWrite(frames: seq<Frame>)
    ensures Sent(frames, 0) == [] && Sent(frames, 1) == PREAMBLE
  {
    hide PREAMBLE;
    assert [] + PREAMBLE == PREAMBLE;
  }

  lemma ThreeWrites(frames: seq<Frame>, i: nat)
    requires i < |frames|
    ensures WriteNo(frames, 3 * i + 1) == PartHeader(frames[i])
    ensures WriteNo(frames, 3 * i + 2) == frames[i].bytes
    ensures WriteNo(frames, 3 * i + 3) == CRLF + BOUNDARY + CRLF
  {
    hide PREAMBLE, PartHeader, CRLF, BOUNDARY;
    assert (3 * i) / 3 == i && (3 * i + 1) / 3 == i && (3 * i + 2) / 3 == i;
    assert (3 * i) % 3 == 0 && (3 * i + 1) % 3 == 1 && (3 * i + 2) % 3 == 2;
  }

  // Headers: the line-end tests stay quiet until the empty line

  ghost predicate Hit(h: seq<byte>, i: int) {
    3 <= i < |h| && HasCr(h[i - 3]) && HasLf(h[i - 2]) && HasCr(h[i - 1]) && HasLf(h[i])
  }

  ghost predicate Plain(b: byte) {
    !HasCr(b) && !HasLf(b)
  }

  ghost predicate Quiet(h: seq<byte>) {
    && (forall i :: 0 <= i < |h| ==> h[i] < 128)
    && (forall i {:trigger Hit(h, i)} :: 0 <= i < |h| ==> !Hit(h, i))
  }

  /** Behind a byte without any of the bits, nothing carries over. */
  lemma QuietConcat(x: seq<byte>, y: seq<byte>)
    requires Quiet(x) && Quiet(y) && x != [] && Plain(x[|x| - 1])
    ensures Quiet(x + y)
  {
    hide HasCr, HasLf;
    var h := x + y;
    forall i {:trigger Hit(h, i)} | 0 <= i < |h| ensures !Hit(h, i) {
      if i < |x| {
        assert !Hit(x, i);
      } else {
        assert !Hit(y, i - |x|);
      }
    }
  }

  lemma NumeralBytes(d: seq<byte>)
    requires IsNumeral(d)
    ensures forall i :: 0 <= i < |d| ==> d[i] < 128 && !HasLf(d[i])
    ensures Quiet(d) && Plain(d[|d| - 1])
  {
    forall i {:trigger Hit(d, i)} | 0 <= i < |d| ensures !Hit(d, i) {
      assert !HasLf(d[i]);
    }
  }

  lemma PointAndNumeral(d: seq<byte>)
    requires IsNumeral(d)
    ensures Quiet(POINT + d) && Plain((POINT + d)[|POINT + d| - 1])
  {
    NumeralBytes(d);
    hide HasCr, HasLf;
    var h := POINT + d;
    forall i {:trigger Hit(h, i)} | 0 <= i < |h| ensures !Hit(h, i) {
      if 3 <= i {
        assert h[i] == d[i - 1];
      }
    }
  }

  ghost predicate QuietText(t: seq<byte>) {
    Quiet(t) && t != [] && Plain(t[|t| - 1])
  }

  lemma JoinTexts(x: seq<byte>, y: seq<byte>)
    requires QuietText(x) && QuietText(y)
    ensures QuietText(x + y)
  {
    hide Quiet, Plain;
    QuietConcat(x, y);
    assert (x + y)[|x + y| - 1] == y[|y| - 1];
  }

  lemma TypeLineIsQuiet()
    ensures QuietText(CRLF + TYPE_LINE)
  {
    TypeIsQuiet();
    TextB();
    TextC();
    hide QuietText;
    var a, b, c := Ascii("Content-Type: "), Ascii("image/jpeg"), Ascii("\r\nContent-Length: ");
    JoinTexts(CRLF + a, b);
    JoinTexts(CRLF + a + b, c);
    assert CRLF + TYPE_LINE == CRLF + a + b + c;
  }

  /** Two places of LF bits two apart only right behind the third byte. */
  lemma LfPlaces(t: seq<byte>, places: set<int>)
    requires forall i :: 0 <= i < |t| ==> t[i] < 128 && (HasLf(t[i]) ==> i in places)
    requires |t| > 2 ==> !HasCr(t[2])
    requires forall i :: i in places && i - 2 in places ==> i == 3
    ensures Quiet(t)
  {
    hide HasCr, HasLf;
    forall i {:trigger Hit(t, i)} | 0 <= i < |t| ensures !Hit(t, i) {
      if 3 <= i {
        assert HasLf(t[i]) ==> i in places;
        assert HasLf(t[i - 2]) ==> i - 2 in places;
      }
    }
  }

  lemma TypeIsQuiet()
    ensures QuietText(CRLF + Ascii("Content-Type: "))
  {
    TextA();
    assert CRLF + Ascii("Content-Type: ") == Ascii("\r\nContent-Type: ");
  }

  lemma TextA()
    ensures QuietText(Ascii("\r\nContent-Type: "))
  {
    var t := Ascii("\r\nContent-Type: ");
    assert forall i :: 0 <= i < |t| ==> t[i] < 128 && (HasLf(t[i]) ==> i in {1, 3, 4, 7, 14});
    assert Plain(t[|t| - 1]) && (|t| > 2 ==> !HasCr(t[2]));
    LfPlaces(t, {1, 3, 4, 7, 14});
  }

  lemma TextB()
    ensures QuietText(Ascii("image/jpeg"))
  {
    var t := Ascii("image/jpeg");
    assert forall i :: 0 <= i < |t| ==> t[i] < 128 && (HasLf(t[i]) ==> i in {5, 6});
    assert Plain(t[|t| - 1]) && (|t| > 2 ==> !HasCr(t[2]));
    LfPlaces(t, {5, 6});
  }

  lemma TextC()
    ensures QuietText(Ascii("\r\nContent-Length: "))
  {
    var t := Ascii("\r\nContent-Length: ");
    assert forall i :: 0 <= i < |t| ==> t[i] < 128 && (HasLf(t[i]) ==> i in {1, 3, 4, 7, 12, 16});
    assert Plain(t[|t| - 1]) && (|t| > 2 ==> !HasCr(t[2]));
    LfPlaces(t, {1, 3, 4, 7, 12, 16});
  }

  lemma TimeLineIsQuiet()
    ensures QuietText(TIME_LINE)
  {
    var t := Ascii("\r\nX-Timestamp: ");
    assert forall i :: 0 <= i < |t| ==> t[i] < 128 && (HasLf(t[i]) ==> i in {1, 13});
    assert Plain(t[|t| - 1]) && (|t| > 2 ==> !HasCr(t[2]));
    LfPlaces(t, {1, 13});
  }

  lemma PartHeaderIsQuiet(f: Frame)
    ensures QuietText(CRLF + TYPE_LINE + Decimal(|f.bytes|) + TIME_LINE + Decimal(f.sec) + (POINT + Decimal6(f.usec)))
  {
    var a, b, c := CRLF + TYPE_LINE, Decimal(|f.bytes|), Decimal(f.sec);
    TypeLineIsQuiet();
    TimeLineIsQuiet();
    NumeralBytes(b);
    NumeralBytes(c);
    PointAndNumeral(Decimal6(f.usec));
    hide QuietText, Decimal, Decimal6, TYPE_LINE, TIME_LINE, POINT, CRLF, Quiet, Plain;
    NumeralText(b);
    NumeralText(c);
    JoinTexts(a, b);
    JoinTexts(a + b, TIME_LINE);
    JoinTexts(a + b + TIME_LINE, c);
    JoinTexts(a + b + TIME_LINE + c, POINT + Decimal6(f.usec));
  }

  lemma NumeralText(d: seq<byte>)
    requires IsNumeral(d)
    ensures QuietText(d)
  {
    NumeralBytes(d);
  }

  // Running the header

  function ByteOr0(h: seq<byte>, i: int): byte {
    if 0 <= i < |h| then h[i] else 0
  }

  /** The parser in the middle of a header. */
  ghost predicate InHeader(s: State, h: seq<byte>, received: seq<Callback>) {
    && s.Valid() && s.part == HEADER && s.content == [] && s.boundaryPos == 0 && s.received == received
    && var n := |h|;
       HoldsBytes(s.lastFour, ByteOr0(h, n - 4), ByteOr0(h, n - 3), ByteOr0(h, n - 2), ByteOr0(h, n - 1))
  }

  /** The parser at the beginning of a content. */
  ghost predicate AtContent(s: State, received: seq<Callback>) {
    s.Valid() && s.part == CONTENT && s.content == [] && s.boundaryPos == 0 && s.received == received
  }

  lemma HeaderStep(s: State, h: seq<byte>, b: byte, received: seq<Callback>)
    requires InHeader(s, h, received) && b < 128
    ensures if Hit(h + [b], |h|) then AtContent(Step(s, b), received) else InHeader(Step(s, b), h + [b], received)
  {
    var n := |h|;
    var a, c, d := ByteOr0(h, n - 3), ByteOr0(h, n - 2), ByteOr0(h, n - 1);
    PushShifts(s.lastFour, ByteOr0(h, n - 4), a, c, d, b);
    LineEndTests(PushByte(s.lastFour, b), a, c, d, b);
    StepInHeader(s, b);
    hide PushByte, IsCrlf, IsCrlfCrlf, HoldsBytes, Step, State.Valid;
    assert !HasLf(0) && !HasCr(0);
  }

  lemma {:induction false} QuietRun(h: seq<byte>, received: seq<Callback>)
    requires Quiet(h)
    ensures Init(received).Valid() && InHeader(Run(Init(received), h), h, received)
    decreases |h|
  {
    if h == [] {
      EmptyRegister();
    } else {
      var n := |h| - 1;
      QuietPrefix(h, n);
      QuietRun(h[..n], received);
      assert h == h[..n] + [h[n]];
      assert !Hit(h, n);
      HeaderStep(Run(Init(received), h[..n]), h[..n], h[n], received);
    }
  }

  lemma QuietPrefix(h: seq<byte>, n: nat)
    requires Quiet(h) && n <= |h|
    ensures Quiet(h[..n])
  {
    hide HasCr, HasLf;
    forall i {:trigger Hit(h[..n], i)} | 0 <= i < n ensures !Hit(h[..n], i) {
      assert !Hit(h, i);
    }
  }
}
