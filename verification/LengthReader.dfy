/**
  A client that goes by the numbers in the headers: it takes the boundary from the response
  header, and of every part as many bytes as Content-Length says (sections 5.1 of RFC 2046 and
  3.3.2 of RFC 7230). It recovers everything that `send_stream` was given, whatever the frames
  contain.
 */
module LengthReader {
  import opened Bits
  import opened Extractor
  import opened Multipart
  import opened Printf
  import opened Transport

  // Lines of text

  datatype Line = Line(text: seq<byte>, rest: seq<byte>) | NoLine

  /** Up to the first CR LF. */
  function TakeText(s: seq<byte>): (l: Line)
    ensures l.Line? ==> |l.rest| < |s|
  {
    if |s| < 2 then NoLine
    else if s[0] == 13 && s[1] == 10 then Line([], s[2..])
    else
      match TakeText(s[1..])
      case NoLine => NoLine
      case Line(text, rest) => Line([s[0]] + text, rest)
  }

  datatype Header = Header(lines: seq<seq<byte>>, rest: seq<byte>) | NoHeader

  /** The lines up to the empty one. */
  function TakeHeader(s: seq<byte>): (h: Header)
    ensures h.Header? ==> |h.rest| < |s|
    decreases |s|
  {
    match TakeText(s)
    case NoLine => NoHeader
    case Line(text, rest) =>
      if text == [] then Header([], rest)
      else
        match TakeHeader(rest)
        case NoHeader => NoHeader
        case Header(lines, behind) => Header([text] + lines, behind)
  }

  datatype Value = Value(text: seq<byte>) | NoValue

  /** What stands behind `name` in the first line that begins with it. */
  function FieldOf(lines: seq<seq<byte>>, name: seq<byte>): Value {
    if lines == [] then NoValue
    else if name <= lines[0] then Value(lines[0][|name|..])
    else FieldOf(lines[1..], name)
  }

  /** Where the first point is, or |s|. */
  function PointAt(s: seq<byte>): (n: nat)
    ensures n <= |s|
  {
    if s == [] || s[0] == 46 then 0 else 1 + PointAt(s[1..])
  }

  // The stream

  function Before(s: seq<byte>, n: nat): seq<byte> {
    if n <= |s| then s[..n] else s
  }

  function Behind(s: seq<byte>, n: nat): (r: seq<byte>)
    ensures |r| <= |s|
  {
    if n <= |s| then s[n..] else []
  }

  /** The frame of one part: its header has been read, `rest` is what follows. */
  datatype Part = Whole(frame: Frame, rest: seq<byte>) | Broken

  function TakePart(lines: seq<seq<byte>>, rest: seq<byte>): (p: Part)
    ensures p.Whole? ==> |p.rest| <= |rest|
  {
    match FieldOf(lines, Ascii("Content-Length: "))
    case NoValue => Broken
    case Value(length) =>
      match FieldOf(lines, Ascii("X-Timestamp: "))
      case NoValue => Broken
      case Value(stamp) =>
        var size, point := Number(length), PointAt(stamp);
        var sec, usec := Number(Before(stamp, point)), Number(Behind(stamp, point + 1));
        if size.NotANumber? || sec.NotANumber? || usec.NotANumber? || size.value < 0 || size.value + 2 > |rest| then Broken
        else Whole(Frame(rest[..size.value], sec.value, usec.value), rest[size.value + 2..])
  }

  /** The frames of a multipart body, each part introduced by `delimiter`. */
  function TakeParts(s: seq<byte>, delimiter: seq<byte>): seq<Frame>
    decreases |s|
  {
    if delimiter <= s then
      match TakeHeader(s[|delimiter|..])
      case NoHeader => []
      case Header(lines, rest) =>
        match TakePart(lines, rest)
        case Broken => []
        case Whole(frame, behind) => [frame] + TakeParts(behind, delimiter)
    else []
  }

  const FORM: string := "Content-Type: multipart/" + "x-mixed-replace;" + "boundary="

  /** The whole response. */
  function ReadStream(wire: seq<byte>): seq<Frame> {
    match TakeHeader(wire)
    case NoHeader => []
    case Header(lines, rest) =>
      match FieldOf(lines, Ascii(FORM))
      case NoValue => []
      case Value(boundary) => TakeParts(rest, [45, 45] + boundary + [13, 10])
  }

  // Taking lines

  lemma {:induction false} TextTaken(text: seq<byte>, rest: seq<byte>)
    requires 13 !in text
    ensures TakeText(text + [13, 10] + rest) == Line(text, rest)
  {
    var s := text + [13, 10] + rest;
    if text == [] {
      assert s[2..] == rest;
    } else {
      TextTaken(text[1..], rest);
      assert s[1..] == text[1..] + [13, 10] + rest && s[0] == text[0];
      assert text == [text[0]] + text[1..];
    }
  }

  /** Lines, each with its end. */
  function Lines(texts: seq<seq<byte>>): seq<byte> {
    if texts == [] then [] else texts[0] + [13, 10] + Lines(texts[1..])
  }

  ghost predicate AreTexts(texts: seq<seq<byte>>) {
    forall i :: 0 <= i < |texts| ==> texts[i] != [] && 13 !in texts[i]
  }

  lemma OneMoreLine(text: seq<byte>, later: seq<byte>, lines: seq<seq<byte>>, rest: seq<byte>)
    requires text != [] && 13 !in text && TakeHeader(later) == Header(lines, rest)
    ensures TakeHeader(text + [13, 10] + later) == Header([text] + lines, rest)
  {
    TextTaken(text, later);
    hide TakeText;
  }

  lemma EmptyLine(rest: seq<byte>)
    ensures TakeHeader([13, 10] + rest) == Header([], rest)
  {
    TextTaken([], rest);
    assert [] + [13, 10] + rest == [13, 10] + rest;
    hide TakeText;
  }

  lemma FirstLine(texts: seq<seq<byte>>, rest: seq<byte>)
    requires texts != []
    ensures Lines(texts) + [13, 10] + rest == texts[0] + [13, 10] + (Lines(texts[1..]) + [13, 10] + rest)
    ensures texts == [texts[0]] + texts[1..]
  {
  }

  lemma {:induction false} HeaderTaken(texts: seq<seq<byte>>, rest: seq<byte>)
    requires AreTexts(texts)
    ensures TakeHeader(Lines(texts) + [13, 10] + rest) == Header(texts, rest)
  {
    if texts == [] {
      EmptyLine(rest);
      assert Lines([]) + [13, 10] + rest == [13, 10] + rest;
    } else {
      assert texts[0] != [] && 13 !in texts[0] && AreTexts(texts[1..]);
      hide *;
      HeaderTaken(texts[1..], rest);
      FirstLine(texts, rest);
      OneMoreLine(texts[0], Lines(texts[1..]) + [13, 10] + rest, texts[1..], rest);
    }
  }

  // The headers that the server writes

  lemma CrlfIs()
    ensures CRLF == [13, 10] && BOUNDARY == [45, 45] + Ascii("boundarydonotcross")
  {
    var s := "--boundarydonotcross";
    assert |s| == 20 && s[2..] == "boundarydonotcross" && s[0] == '-' && s[1] == '-';
    assert BOUNDARY == Ascii(s);
    forall i | 2 <= i < 20 ensures Ascii(s)[i] == Ascii("boundarydonotcross")[i - 2] {
      assert s[i] == s[2..][i - 2];
    }
  }

  lemma AsciiConcat(a: string, b: string)
    ensures Ascii(a + b) == Ascii(a) + Ascii(b)
  {
  }

  /** A text without a line end. */
  ghost predicate Even(t: string) {
    t != [] && forall i :: 0 <= i < |t| ==> t[i] != '\r' && t[i] < 128 as char
  }

  lemma EvenAscii(t: string)
    requires Even(t)
    ensures Ascii(t) != [] && 13 !in Ascii(t)
  {
  }

  lemma EvenConcat(a: string, b: string)
    requires Even(a) && Even(b)
    ensures Even(a + b)
  {
  }

  const CACHE: string :=
    "Cache-Control: no-store, " + "no-cache, must-revalidate, " + "pre-check=0, post-check=0, " + "max-age=0"
  const DATE: string := "Expires: Mon, 3 Jan 2000 " + "12:34:56 GMT"

  /** The lines of the response header. */
  const RESPONSE: seq<string> :=
    ["HTTP/1.0 200 OK", "Access-Control-Allow-Origin: *", "Connection: close", "Server: MJPG-Streamer/0.2", CACHE,
     "Pragma: no-cache", DATE, FORM + "boundarydonotcross"]

  function Asciis(texts: seq<string>): (r: seq<seq<byte>>)
    ensures |r| == |texts| && forall i :: 0 <= i < |texts| ==> r[i] == Ascii(texts[i])
  {
    if texts == [] then [] else [Ascii(texts[0])] + Asciis(texts[1..])
  }

  lemma EvenA()
    ensures Even("HTTP/1.0 200 OK") && Even("Access-Control-Allow-Origin: *") && Even("Connection: close")
  {
  }

  lemma EvenB()
    ensures Even("Server: MJPG-Streamer/0.2") && Even("Pragma: no-cache") && Even("boundarydonotcross")
  {
  }

  lemma EvenCacheA()
    ensures Even("Cache-Control: no-store, ") && Even("no-cache, must-revalidate, ")
  {
  }

  lemma EvenCacheB()
    ensures Even("pre-check=0, post-check=0, ") && Even("max-age=0")
  {
  }

  lemma EvenCache()
    ensures Even(CACHE)
  {
    EvenCacheA();
    EvenCacheB();
    hide Even;
    EvenConcat("Cache-Control: no-store, ", "no-cache, must-revalidate, ");
    EvenConcat("Cache-Control: no-store, " + "no-cache, must-revalidate, ", "pre-check=0, post-check=0, ");
    EvenConcat("Cache-Control: no-store, " + "no-cache, must-revalidate, " + "pre-check=0, post-check=0, ", "max-age=0");
  }

  lemma EvenDateA()
    ensures Even("Expires: Mon, 3 Jan 2000 ")
  {
  }

  lemma EvenDateB()
    ensures Even("12:34:56 GMT")
  {
  }

  lemma EvenDate()
    ensures Even(DATE)
  {
    EvenDateA();
    EvenDateB();
    hide Even;
    EvenConcat("Expires: Mon, 3 Jan 2000 ", "12:34:56 GMT");
  }

  lemma EvenFormA()
    ensures Even("Content-Type: multipart/") && Even("x-mixed-replace;") && Even("boundary=")
  {
  }

  lemma EvenForm()
    ensures Even(FORM)
  {
    EvenFormA();
    hide Even;
    EvenConcat("Content-Type: multipart/", "x-mixed-replace;");
    EvenConcat("Content-Type: multipart/" + "x-mixed-replace;", "boundary=");
  }

  lemma ResponseTexts()
    ensures AreTexts(Asciis(RESPONSE))
  {
    EvenA();
    EvenB();
    EvenCache();
    EvenDate();
    EvenForm();
    hide Even, CACHE, DATE, FORM;
    EvenConcat(FORM, "boundarydonotcross");
    forall i | 0 <= i < |RESPONSE| ensures Asciis(RESPONSE)[i] != [] && 13 !in Asciis(RESPONSE)[i] {
      assert Even(RESPONSE[i]);
      EvenAscii(RESPONSE[i]);
    }
  }

  // The same bytes as they are written

  lemma LineEnd(t: string, line: string)
    requires line == t + "\r\n"
    ensures Ascii(line) == Ascii(t) + [13, 10]
  {
    assert Ascii("\r\n") == [13, 10];
    AsciiConcat(t, "\r\n");
    hide Ascii;
  }

  lemma JoinStep(texts: seq<string>, i: nat)
    requires i < |texts|
    ensures Join(texts[i..]) == Ascii(texts[i]) + Join(texts[i + 1..])
  {
    hide Ascii;
    assert texts[i..][1..] == texts[i + 1..];
  }

  lemma JoinEnd(texts: seq<string>)
    ensures Join(texts[|texts|..]) == []
  {
  }

  /** A line of the response, written as one text. */
  lemma OneText(texts: seq<string>, i: nat, t: string)
    requires i < |texts| && texts[i] == t + "\r\n"
    ensures Join(texts[i..]) == Ascii(t) + [13, 10] + Join(texts[i + 1..])
  {
    JoinStep(texts, i);
    LineEnd(t, texts[i]);
  }

  /** A text that the next one continues. */
  lemma MoreText(texts: seq<string>, i: nat, t: string, rest: seq<byte>)
    requires i < |texts| && Join(texts[i + 1..]) == Ascii(t) + rest
    ensures Join(texts[i..]) == Ascii(texts[i] + t) + rest
  {
    JoinStep(texts, i);
    AsciiConcat(texts[i], t);
    hide Ascii;
  }

  lemma FieldsByText()
    ensures |FIELD_TEXTS| == 13
    ensures FIELD_TEXTS[0] == ORIGIN && FIELD_TEXTS[1] == CONNECTION && FIELD_TEXTS[2] == SERVER
    ensures FIELD_TEXTS[3] == NO_STORE && FIELD_TEXTS[4] == NO_CACHE && FIELD_TEXTS[5] == PRE_CHECK
    ensures FIELD_TEXTS[6] == MAX_AGE && FIELD_TEXTS[7] == PRAGMA && FIELD_TEXTS[8] == EXPIRES
    ensures FIELD_TEXTS[9] == MIDDAY && FIELD_TEXTS[10] == MULTIPART && FIELD_TEXTS[11] == REPLACE
    ensures FIELD_TEXTS[12] == BOUNDARY_FIELD
  {
    hide ORIGIN, CONNECTION, SERVER, NO_STORE, NO_CACHE, PRE_CHECK, MAX_AGE, PRAGMA, EXPIRES, MIDDAY, MULTIPART, REPLACE,
         BOUNDARY_FIELD;
  }

  lemma TextsA()
    ensures ORIGIN == "Access-Control-Allow-Origin: *" + "\r\n" && CONNECTION == "Connection: close" + "\r\n"
    ensures SERVER == "Server: MJPG-Streamer/0.2" + "\r\n"
  {
  }

  lemma TextsB()
    ensures NO_STORE == "Cache-Control: no-store, " && NO_CACHE == "no-cache, must-revalidate, "
    ensures PRE_CHECK == "pre-check=0, post-check=0, " && MAX_AGE == "max-age=0" + "\r\n"
  {
  }

  lemma TextsC()
    ensures PRAGMA == "Pragma: no-cache" + "\r\n" && EXPIRES == "Expires: Mon, 3 Jan 2000 "
    ensures MIDDAY == "12:34:56 GMT" + "\r\n"
  {
  }

  lemma TextsD()
    ensures MULTIPART == "Content-Type: multipart/" && REPLACE == "x-mixed-replace;"
    ensures BOUNDARY_FIELD == "boundary=" + "boundarydonotcross" + "\r\n"
  {
  }

  lemma FormText()
    ensures |FIELD_TEXTS| == 13
    ensures Join(FIELD_TEXTS[10..]) == Ascii(FORM + "boundarydonotcross") + [13, 10]
  {
    FieldsByText();
    TextsD();
    hide Join, Ascii, FIELD_TEXTS, ORIGIN, CONNECTION, SERVER, NO_STORE, NO_CACHE, PRE_CHECK, MAX_AGE, PRAGMA, EXPIRES,
         MIDDAY, MULTIPART, REPLACE, BOUNDARY_FIELD;
    var t := FIELD_TEXTS;
    JoinEnd(t);
    OneText(t, 12, "boundary=" + "boundarydonotcross");
    assert Ascii("boundary=" + "boundarydonotcross") + [13, 10] + [] == Ascii("boundary=" + "boundarydonotcross") + [13, 10];
    MoreText(t, 11, "boundary=" + "boundarydonotcross", [13, 10]);
    MoreText(t, 10, "x-mixed-replace;" + ("boundary=" + "boundarydonotcross"), [13, 10]);
    assert "Content-Type: multipart/" + ("x-mixed-replace;" + ("boundary=" + "boundarydonotcross"))
        == FORM + "boundarydonotcross";
  }

  lemma FieldsA()
    ensures |FIELD_TEXTS| == 13
    ensures Join(FIELD_TEXTS[7..]) == Ascii("Pragma: no-cache") + [13, 10] + Join(FIELD_TEXTS[8..])
    ensures Join(FIELD_TEXTS[8..]) == Ascii(DATE) + [13, 10] + Join(FIELD_TEXTS[10..])
  {
    FieldsByText();
    TextsC();
    hide Join, Ascii, FIELD_TEXTS, ORIGIN, CONNECTION, SERVER, NO_STORE, NO_CACHE, PRE_CHECK, MAX_AGE, PRAGMA, EXPIRES,
         MIDDAY, MULTIPART, REPLACE, BOUNDARY_FIELD;
    var t := FIELD_TEXTS;
    OneText(t, 9, "12:34:56 GMT");
    var rest := [13, 10] + Join(t[10..]);
    assert Ascii("12:34:56 GMT") + [13, 10] + Join(t[10..]) == Ascii("12:34:56 GMT") + rest;
    MoreText(t, 8, "12:34:56 GMT", rest);
    assert Ascii(DATE) + rest == Ascii(DATE) + [13, 10] + Join(t[10..]);
    OneText(t, 7, "Pragma: no-cache");
  }

  lemma FieldsB()
    ensures |FIELD_TEXTS| == 13
    ensures Join(FIELD_TEXTS[3..]) == Ascii(CACHE) + [13, 10] + Join(FIELD_TEXTS[7..])
  {
    FieldsByText();
    TextsB();
    hide Join, Ascii, FIELD_TEXTS, ORIGIN, CONNECTION, SERVER, NO_STORE, NO_CACHE, PRE_CHECK, MAX_AGE, PRAGMA, EXPIRES,
         MIDDAY, MULTIPART, REPLACE, BOUNDARY_FIELD;
    var t := FIELD_TEXTS;
    OneText(t, 6, "max-age=0");
    var rest := [13, 10] + Join(t[7..]);
    assert Ascii("max-age=0") + [13, 10] + Join(t[7..]) == Ascii("max-age=0") + rest;
    MoreText(t, 5, "max-age=0", rest);
    MoreText(t, 4, "pre-check=0, post-check=0, " + "max-age=0", rest);
    MoreText(t, 3, "no-cache, must-revalidate, " + ("pre-check=0, post-check=0, " + "max-age=0"), rest);
    assert "Cache-Control: no-store, "
           + ("no-cache, must-revalidate, " + ("pre-check=0, post-check=0, " + "max-age=0")) == CACHE;
    assert Ascii(CACHE) + rest == Ascii(CACHE) + [13, 10] + Join(t[7..]);
  }

  lemma StatusText()
    ensures STATUS == Ascii("HTTP/1.0 200 OK") + [13, 10]
  {
    assert STATUS == Ascii("HTTP/1.0 200 OK" + "\r\n");
    hide Ascii, STATUS;
    LineEnd("HTTP/1.0 200 OK", "HTTP/1.0 200 OK" + "\r\n");
  }

  lemma FieldsC()
    ensures |FIELD_TEXTS| == 13
    ensures Join(FIELD_TEXTS[0..]) == Ascii("Access-Control-Allow-Origin: *") + [13, 10] + Join(FIELD_TEXTS[1..])
    ensures Join(FIELD_TEXTS[1..]) == Ascii("Connection: close") + [13, 10] + Join(FIELD_TEXTS[2..])
    ensures Join(FIELD_TEXTS[2..]) == Ascii("Server: MJPG-Streamer/0.2") + [13, 10] + Join(FIELD_TEXTS[3..])
  {
    FieldsByText();
    TextsA();
    hide *;
    OneText(FIELD_TEXTS, 0, "Access-Control-Allow-Origin: *");
    OneText(FIELD_TEXTS, 1, "Connection: close");
    OneText(FIELD_TEXTS, 2, "Server: MJPG-Streamer/0.2");
  }

  lemma LinesStep(texts: seq<seq<byte>>, i: nat)
    requires i < |texts|
    ensures Lines(texts[i..]) == texts[i] + [13, 10] + Lines(texts[i + 1..])
  {
    assert texts[i..][1..] == texts[i + 1..];
  }

  lemma ResponseIs()
    ensures |RESPONSE| == 8
    ensures RESPONSE[0] == "HTTP/1.0 200 OK" && RESPONSE[1] == "Access-Control-Allow-Origin: *"
    ensures RESPONSE[2] == "Connection: close" && RESPONSE[3] == "Server: MJPG-Streamer/0.2"
    ensures RESPONSE[4] == CACHE && RESPONSE[5] == "Pragma: no-cache" && RESPONSE[6] == DATE
    ensures RESPONSE[7] == FORM + "boundarydonotcross"
  {
  }

  lemma NoLines(texts: seq<seq<byte>>)
    ensures Lines(texts[|texts|..]) == []
  {
  }

  lemma ResponseIsWritten()
    ensures STATUS + FIELDS == Lines(Asciis(RESPONSE))
  {
    ResponseIs();
    FormText();
    FieldsA();
    FieldsB();
    FieldsC();
    StatusText();
    assert FIELD_TEXTS[0..] == FIELD_TEXTS && FIELDS == Join(FIELD_TEXTS);
    hide Ascii, Asciis, Join, Lines, STATUS, FIELDS, FIELD_TEXTS, CACHE, DATE, FORM, RESPONSE;
    var r, t := Asciis(RESPONSE), FIELD_TEXTS;
    AsciisAt(RESPONSE);
    NoLines(r);
    LinesStep(r, 7);
    assert Lines(r[7..]) == Join(t[10..]);
    LinesStep(r, 6);
    LinesStep(r, 5);
    LinesStep(r, 4);
    LinesStep(r, 3);
    LinesStep(r, 2);
    LinesStep(r, 1);
    assert Lines(r[1..]) == FIELDS;
    LinesStep(r, 0);
    assert r[0..] == r;
  }

  lemma AsciisAt(texts: seq<string>)
    ensures |Asciis(texts)| == |texts| && forall i :: 0 <= i < |texts| ==> Asciis(texts)[i] == Ascii(texts[i])
  {
  }

  // Finding the fields

  lemma {:induction false} Skip(lines: seq<seq<byte>>, name: seq<byte>, k: nat)
    requires k < |lines| && (forall i :: 0 <= i < k ==> !(name <= lines[i])) && name <= lines[k]
    ensures FieldOf(lines, name) == Value(lines[k][|name|..])
  {
    if k > 0 {
      assert !(name <= lines[0]);
      Skip(lines[1..], name, k - 1);
    }
  }

  /** Two texts that differ somewhere are not the beginning of each other. */
  lemma Differ(name: seq<byte>, line: seq<byte>, i: nat)
    requires i < |name| && (i < |line| ==> name[i] != line[i])
    ensures !(name <= line)
  {
  }

  lemma AsciiAt(t: string, i: nat)
    requires i < |t| && t[i] < 128 as char
    ensures |Ascii(t)| == |t| && Ascii(t)[i] == t[i] as byte
  {
  }

  lemma OtherName(name: string, line: string, i: nat)
    requires i < |name| && i < |line| && name[i] < 128 as char && line[i] < 128 as char && name[i] != line[i]
    ensures !(Ascii(name) <= Ascii(line))
  {
    AsciiAt(name, i);
    AsciiAt(line, i);
    hide Ascii;
    Differ(Ascii(name), Ascii(line), i);
  }

  lemma FormBegins()
    ensures |FORM| > 3 && FORM[0] == 'C' && FORM[1] == 'o' && FORM[3] == 't'
    ensures |CACHE| > 1 && CACHE[1] == 'a' && |DATE| > 0 && DATE[0] == 'E'
  {
  }

  lemma BoundaryFound()
    ensures FieldOf(Asciis(RESPONSE), Ascii(FORM)) == Value(Ascii("boundarydonotcross"))
  {
    ResponseIs();
    FormBegins();
    AsciisAt(RESPONSE);
    hide Ascii, Asciis, FORM, CACHE, DATE, RESPONSE;
    var r := Asciis(RESPONSE);
    OtherName(FORM, "HTTP/1.0 200 OK", 0);
    OtherName(FORM, "Access-Control-Allow-Origin: *", 0);
    OtherName(FORM, "Connection: close", 3);
    OtherName(FORM, "Server: MJPG-Streamer/0.2", 0);
    OtherName(FORM, CACHE, 1);
    OtherName(FORM, "Pragma: no-cache", 0);
    OtherName(FORM, DATE, 0);
    AsciiConcat(FORM, "boundarydonotcross");
    assert r[7] == Ascii(FORM) + Ascii("boundarydonotcross");
    forall i | 0 <= i < 7 ensures !(Ascii(FORM) <= r[i]) {
    }
    Skip(r, Ascii(FORM), 7);
  }

  // Parts

  /** The lines of a part header. */
  function PartLines(f: Frame): seq<seq<byte>> {
    [Ascii("Content-Type: image/jpeg"), Ascii("Content-Length: ") + Decimal(|f.bytes|),
     Ascii("X-Timestamp: ") + (Decimal(f.sec) + [46] + Decimal6(f.usec))]
  }

  lemma PartNames()
    ensures Even("Content-Type: image/jpeg") && Even("Content-Length: ") && Even("X-Timestamp: ")
  {
  }

  lemma NumeralIsEven(d: seq<byte>)
    requires IsNumeral(d)
    ensures d != [] && 13 !in d && 46 !in d
  {
  }

  lemma PartTexts(f: Frame)
    ensures AreTexts(PartLines(f))
  {
    PartNames();
    EvenAscii("Content-Type: image/jpeg");
    EvenAscii("Content-Length: ");
    EvenAscii("X-Timestamp: ");
    NumeralIsEven(Decimal(|f.bytes|));
    NumeralIsEven(Decimal(f.sec));
    NumeralIsEven(Decimal6(f.usec));
    hide Even, Ascii, Decimal, Decimal6;
  }

  lemma ThreeLines(a: seq<byte>, b: seq<byte>, c: seq<byte>)
    ensures Lines([a, b, c]) == a + [13, 10] + (b + [13, 10] + (c + [13, 10]))
  {
    var t := [a, b, c];
    NoLines(t);
    LinesStep(t, 2);
    LinesStep(t, 1);
    LinesStep(t, 0);
    hide Lines;
    assert t[0..] == t && c + [13, 10] + [] == c + [13, 10];
  }

  lemma TypeLineIs()
    ensures TYPE_LINE == Ascii("Content-Type: image/jpeg") + [13, 10] + Ascii("Content-Length: ")
    ensures TIME_LINE == [13, 10] + Ascii("X-Timestamp: ") && POINT == [46] && CRLF == [13, 10]
  {
    CrlfIs();
    AsciiConcat("Content-Type: ", "image/jpeg");
    AsciiConcat("\r\n", "Content-Length: ");
    AsciiConcat("\r\n", "X-Timestamp: ");
    assert "Content-Type: " + "image/jpeg" == "Content-Type: image/jpeg";
    assert "\r\n" + "Content-Length: " == "\r\nContent-Length: " && "\r\n" + "X-Timestamp: " == "\r\nX-Timestamp: ";
    assert Ascii("\r\n") == [13, 10];
    hide Ascii;
  }

  lemma PartIsWritten(f: Frame)
    ensures PartHeader(f) == Lines(PartLines(f)) + [13, 10]
  {
    TypeLineIs();
    hide Ascii, TYPE_LINE, TIME_LINE, POINT, CRLF, Decimal, Decimal6, Lines;
    var kind, length, stamp := Ascii("Content-Type: image/jpeg"), Ascii("Content-Length: "), Ascii("X-Timestamp: ");
    ThreeLines(kind, length + Decimal(|f.bytes|), stamp + (Decimal(f.sec) + [46] + Decimal6(f.usec)));
  }

  lemma {:induction false} PointFound(a: seq<byte>, b: seq<byte>)
    requires 46 !in a
    ensures PointAt(a + [46] + b) == |a|
  {
    var s := a + [46] + b;
    if a != [] {
      PointFound(a[1..], b);
      assert s[1..] == a[1..] + [46] + b && s[0] == a[0];
    }
  }

  lemma PartFields(f: Frame)
    ensures FieldOf(PartLines(f), Ascii("Content-Length: ")) == Value(Decimal(|f.bytes|))
    ensures FieldOf(PartLines(f), Ascii("X-Timestamp: ")) == Value(Decimal(f.sec) + [46] + Decimal6(f.usec))
  {
    var kind, length, stamp := Ascii("Content-Type: image/jpeg"), Ascii("Content-Length: "), Ascii("X-Timestamp: ");
    OtherName("Content-Length: ", "Content-Type: image/jpeg", 8);
    OtherName("X-Timestamp: ", "Content-Type: image/jpeg", 0);
    AsciiAt("X-Timestamp: ", 0);
    AsciiAt("Content-Length: ", 0);
    hide Ascii, Decimal, Decimal6;
    var lines := PartLines(f);
    Differ(stamp, lines[1], 0);
    Skip(lines, length, 1);
    Skip(lines, stamp, 2);
    assert lines[1][|length|..] == Decimal(|f.bytes|);
    assert lines[2][|stamp|..] == Decimal(f.sec) + [46] + Decimal6(f.usec);
  }

  lemma SplitAtPoint(a: seq<byte>, b: seq<byte>)
    requires 46 !in a
    ensures var s := a + [46] + b; Before(s, PointAt(s)) == a && Behind(s, PointAt(s) + 1) == b
  {
    PointFound(a, b);
    hide PointAt;
    var s := a + [46] + b;
    assert s[..|a|] == a && s[|a| + 1..] == b;
  }

  lemma StampTaken(sec: int, usec: int)
    ensures var stamp := Decimal(sec) + [46] + Decimal6(usec);
      && Number(Before(stamp, PointAt(stamp))) == Parsed(sec)
      && Number(Behind(stamp, PointAt(stamp) + 1)) == Parsed(usec)
  {
    NumeralIsEven(Decimal(sec));
    hide *;
    NumbersReadBack(sec);
    NumbersReadBack(usec);
    SplitAtPoint(Decimal(sec), Decimal6(usec));
  }

  lemma FrameTaken(bytes: seq<byte>, later: seq<byte>)
    ensures var rest := bytes + [13, 10] + later;
      |bytes| + 2 <= |rest| && rest[..|bytes|] == bytes && rest[|bytes| + 2..] == later
  {
  }

  /** The header of a part says how long the frame is and when it was taken. */
  lemma PartTaken(f: Frame, later: seq<byte>)
    ensures TakePart(PartLines(f), f.bytes + [13, 10] + later) == Whole(f, later)
  {
    hide Ascii, Decimal, Decimal6, FieldOf, PartLines, Number, PointAt, Before, Behind;
    PartFields(f);
    NumbersReadBack(|f.bytes|);
    StampTaken(f.sec, f.usec);
    FrameTaken(f.bytes, later);
  }

  // The stream

  /** From a boundary on. */
  function FromBoundary(frames: seq<Frame>): seq<byte> {
    BOUNDARY + Units(frames) + CRLF
  }

  lemma FirstPart(frames: seq<Frame>)
    requires frames != []
    ensures var f := frames[0];
      FromBoundary(frames)
      == (BOUNDARY + CRLF) + (Lines(PartLines(f)) + [13, 10] + (f.bytes + [13, 10] + FromBoundary(frames[1..])))
  {
    var f := frames[0];
    CrlfIs();
    PartIsWritten(f);
    hide BOUNDARY, CRLF, PartHeader, Lines, PartLines;
    assert Units(frames) == Unit(f) + Units(frames[1..]);
    hide Units;
    assert Unit(f) == CRLF + PartHeader(f) + (f.bytes + CRLF + BOUNDARY);
    hide Unit;
    Regrouped(BOUNDARY, [13, 10], PartHeader(f), f.bytes, Units(frames[1..]));
  }

  lemma Regrouped(b: seq<byte>, n: seq<byte>, h: seq<byte>, bytes: seq<byte>, later: seq<byte>)
    ensures b + ((n + h + (bytes + n + b)) + later) + n == (b + n) + (h + (bytes + n + (b + later + n)))
  {
  }

  lemma OneMorePart(delimiter: seq<byte>, head: seq<byte>, lines: seq<seq<byte>>, rest: seq<byte>,
                    f: Frame, later: seq<byte>)
    requires TakeHeader(head) == Header(lines, rest) && TakePart(lines, rest) == Whole(f, later)
    ensures TakeParts(delimiter + head, delimiter) == [f] + TakeParts(later, delimiter)
  {
    assert (delimiter + head)[|delimiter|..] == head;
    hide TakeHeader, TakePart;
  }

  lemma NoMoreParts(delimiter: seq<byte>)
    ensures TakeParts(delimiter, delimiter) == []
  {
    assert delimiter[|delimiter|..] == [];
  }

  lemma FromLast()
    ensures FromBoundary([]) == BOUNDARY + CRLF
  {
    hide BOUNDARY, CRLF;
    assert Units([]) == [];
  }

  lemma {:induction false} PartsTaken(frames: seq<Frame>)
    ensures TakeParts(FromBoundary(frames), BOUNDARY + CRLF) == frames
    decreases |frames|
  {
    hide *;
    if frames == [] {
      FromLast();
      NoMoreParts(BOUNDARY + CRLF);
    } else {
      var f, later := frames[0], FromBoundary(frames[1..]);
      PartsTaken(frames[1..]);
      FirstPart(frames);
      PartTexts(f);
      var rest := f.bytes + [13, 10] + later;
      HeaderTaken(PartLines(f), rest);
      PartTaken(f, later);
      OneMorePart(BOUNDARY + CRLF, Lines(PartLines(f)) + [13, 10] + rest, PartLines(f), rest, f, later);
      assert frames == [f] + frames[1..];
    }
  }

  /**
    A client that goes by Content-Length gets every frame that the server sends, with its size
    and time stamp: for any frames, whatever is in them.
   */
  lemma StreamReadBack(frames: seq<Frame>)
    ensures ReadStream(Wire(frames)) == frames
  {
    CrlfIs();
    WireByFrame(frames);
    ResponseIsWritten();
    ResponseTexts();
    BoundaryFound();
    PartsTaken(frames);
    hide Ascii, Asciis, FORM, RESPONSE, STATUS, FIELDS, BOUNDARY, CRLF;
    hide Units, Wire, TakeHeader, TakeParts, FieldOf, Lines, AreTexts;
    var rest := FromBoundary(frames);
    HeaderTaken(Asciis(RESPONSE), rest);
    assert Wire(frames) == Lines(Asciis(RESPONSE)) + [13, 10] + rest by {
      Ordered(STATUS, FIELDS, [13, 10], BOUNDARY, Units(frames));
    }
  }

  lemma Ordered(s: seq<byte>, f: seq<byte>, n: seq<byte>, b: seq<byte>, u: seq<byte>)
    ensures s + (f + n + b) + u + n == (s + f) + n + (b + u + n)
  {
  }
}
