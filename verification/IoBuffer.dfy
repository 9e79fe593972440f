/**
  Buffered reading in httpd.c: `_read`, `_readline` and the request-header loop of
  `client_thread`. The socket is the list of what its system calls will return.
 */
module IoBuffer {
  import opened Bits

  const IO_BUFFER: nat := 256
  const LF: byte := 10
  const CR: byte := 13

  /** What `select` and `read` come back with. */
  datatype SocketEvent =
    | Data(bytes: seq<byte>)  // read returns 1 to 256 bytes
    | Timeout                 // select returns 0
    | Failed                  // read returns 0 or -1

  // The byte stream, without its division into reads

  datatype Item = Byte(b: byte) | Late | Broken

  function Bytes(s: seq<byte>): (r: seq<Item>)
    ensures |r| == |s| && forall i :: 0 <= i < |s| ==> r[i] == Byte(s[i])
  {
    seq(|s|, i requires 0 <= i < |s| => Byte(s[i]))
  }

  function Items(events: seq<SocketEvent>): seq<Item> {
    if events == [] then [] else
      (match events[0]
       case Data(bytes) => Bytes(bytes)
       case Timeout => [Late]
       case Failed => [Broken]) + Items(events[1..])
  }

  // Reading as functions of the stream

  datatype Outcome =
    | Complete(bytes: seq<byte>, rest: seq<Item>)
    | TimedOut(bytes: seq<byte>, rest: seq<Item>)
    | Error

  /** `len` bytes, unless the stream is interrupted first; a stream without more events stays silent. */
  function TakeBytes(s: seq<Item>, len: nat): Outcome {
    if len == 0 then Complete([], s)
    else if s == [] then TimedOut([], [])
    else match s[0]
      case Late => TimedOut([], s[1..])
      case Broken => Error
      case Byte(b) =>
        match TakeBytes(s[1..], len - 1)
        case Complete(bytes, rest) => Complete([b] + bytes, rest)
        case TimedOut(bytes, rest) => TimedOut([b] + bytes, rest)
        case Error => Error
  }

  /** The next bytes of the stream, `len` of them unless it is interrupted, or silent, before. */
  ghost predicate IsOutcome(s: seq<Item>, len: nat, o: Outcome) {
    match o
    case Complete(bytes, rest) => |bytes| == len && s == Bytes(bytes) + rest
    case TimedOut(bytes, rest) =>
      |bytes| < len && (s == Bytes(bytes) + ([Late] + rest) || (s == Bytes(bytes) && rest == []))
    case Error => exists n: nat :: n < len && FailsBehind(s, n)
  }

  /** A failed read behind `n` bytes. */
  ghost predicate FailsBehind(s: seq<Item>, n: nat) {
    n < |s| && s[n] == Broken && forall i :: 0 <= i < n ==> s[i].Byte?
  }

  /** What TakeBytes means. */
  lemma {:induction false} BytesShape(s: seq<Item>, len: nat)
    ensures IsOutcome(s, len, TakeBytes(s, len))
  {
    if len == 0 {
      assert s == Bytes([]) + s;
    } else if s == [] {
      assert s == Bytes([]);
    } else {
      match s[0]
      case Late => assert s == Bytes([]) + ([Late] + s[1..]);
      case Broken => assert FailsBehind(s, 0);
      case Byte(b) =>
        BytesShape(s[1..], len - 1);
        OutcomeLater(s, len, TakeBytes(s[1..], len - 1));
        hide IsOutcome;
    }
  }

  lemma OutcomeLater(s: seq<Item>, len: nat, o: Outcome)
    requires s != [] && s[0].Byte? && len > 0 && IsOutcome(s[1..], len - 1, o)
    ensures IsOutcome(s, len, match o
                              case Complete(bytes, rest) => Complete([s[0].b] + bytes, rest)
                              case TimedOut(bytes, rest) => TimedOut([s[0].b] + bytes, rest)
                              case Error => Error)
  {
    match o
    case Complete(bytes, rest) => FirstByte(s, bytes, rest);
    case TimedOut(bytes, rest) =>
      if s[1..] == Bytes(bytes) {
        assert s == [s[0]] + s[1..] == Bytes([s[0].b] + bytes);
      } else {
        FirstByte(s, bytes, [Late] + rest);
      }
    case Error =>
      var n: nat :| n < len - 1 && FailsBehind(s[1..], n);
      assert FailsBehind(s, n + 1);
  }

  lemma FirstByte(s: seq<Item>, bytes: seq<byte>, rest: seq<Item>)
    requires s != [] && s[0].Byte? && s[1..] == Bytes(bytes) + rest
    ensures s == Bytes([s[0].b] + bytes) + rest
  {
    assert s == [s[0]] + s[1..];
  }

  datatype LineOutcome = Line(bytes: seq<byte>, rest: seq<Item>) | NoLine

  /** The bytes through the first LF, or `len` bytes. */
  function TakeLine(s: seq<Item>, len: nat): (r: LineOutcome)
    ensures r.Line? ==> |r.bytes| + |r.rest| == |s|
  {
    if len == 0 then Line([], s)
    else if s == [] || !s[0].Byte? then NoLine
    else if s[0].b == LF then Line([LF], s[1..])
    else match TakeLine(s[1..], len - 1)
      case NoLine => NoLine
      case Line(bytes, rest) => Line([s[0].b] + bytes, rest)
  }

  /** The stream is interrupted, or ends, after `n` bytes without LF. */
  ghost predicate InterruptedAt(s: seq<Item>, n: nat) {
    && n <= |s| && (n == |s| || !s[n].Byte?)
    && forall i :: 0 <= i < n ==> s[i].Byte? && s[i].b != LF
  }

  /** `bytes` come next, have no LF but their last byte, and stop no earlier than they must. */
  ghost predicate IsLine(s: seq<Item>, len: nat, bytes: seq<byte>, rest: seq<Item>) {
    && s == Bytes(bytes) + rest && |bytes| <= len
    && (forall i :: 0 <= i < |bytes| - 1 ==> bytes[i] != LF)
    && (|bytes| == len || (bytes != [] && bytes[|bytes| - 1] == LF))
  }

  /** What TakeLine means. */
  lemma {:induction false} LineShape(s: seq<Item>, len: nat)
    ensures TakeLine(s, len).Line? ==> IsLine(s, len, TakeLine(s, len).bytes, TakeLine(s, len).rest)
    ensures TakeLine(s, len).NoLine? ==> exists n: nat :: n < len && InterruptedAt(s, n)
  {
    if len == 0 {
      assert s == Bytes([]) + s;
    } else if s == [] || !s[0].Byte? {
      assert InterruptedAt(s, 0);
    } else if s[0].b == LF {
      assert s == Bytes([LF]) + s[1..];
    } else {
      LineShape(s[1..], len - 1);
      match TakeLine(s[1..], len - 1)
      case Line(bytes, rest) =>
        LineLater(s, len, bytes, rest);
      case NoLine =>
        var n: nat :| n < len - 1 && InterruptedAt(s[1..], n);
        InterruptedLater(s, n);
    }
  }

  lemma LineLater(s: seq<Item>, len: nat, bytes: seq<byte>, rest: seq<Item>)
    requires len > 0 && s != [] && s[0].Byte? && s[0].b != LF && IsLine(s[1..], len - 1, bytes, rest)
    ensures IsLine(s, len, [s[0].b] + bytes, rest)
  {
    var line := [s[0].b] + bytes;
    assert s == [s[0]] + s[1..] == Bytes(line) + rest;
    assert forall i :: 0 < i < |line| ==> line[i] == bytes[i - 1];
  }

  lemma InterruptedLater(s: seq<Item>, n: nat)
    requires s != [] && s[0].Byte? && s[0].b != LF && InterruptedAt(s[1..], n)
    ensures InterruptedAt(s, n + 1)
  {
    assert forall i :: 0 < i < |s| ==> s[i] == s[1..][i - 1];
  }

  datatype HeaderOutcome = Headers(lines: seq<seq<byte>>, rest: seq<Item>) | NoHeaders

  /** Lines up to and including the first one of at most two bytes. */
  function TakeHeaders(s: seq<Item>, len: nat): HeaderOutcome
    requires len > 2
    decreases |s|
  {
    match TakeLine(s, len)
    case NoLine => NoHeaders
    case Line(bytes, rest) =>
      if |bytes| <= 2 then Headers([bytes], rest)
      else
        match TakeHeaders(rest, len)
        case NoHeaders => NoHeaders
        case Headers(lines, end) => Headers([bytes] + lines, end)
  }

  // Splitting a read

  lemma {:induction false} TakeMore(s: seq<byte>, rest: seq<Item>, len: nat)
    requires |s| <= len
    ensures TakeBytes(Bytes(s) + rest, len) == Behind(s, TakeBytes(rest, len - |s|))
    decreases |s|
  {
    if s == [] {
      assert Bytes(s) + rest == rest;
      NothingBefore(TakeBytes(rest, len));
    } else {
      TakeMore(s[1..], rest, len - 1);
      TakeFirst(s[0], Bytes(s[1..]) + rest, len);
      hide TakeBytes;
      BehindTwice([s[0]], s[1..], TakeBytes(rest, len - |s|));
      assert [s[0]] + s[1..] == s;
      assert [Byte(s[0])] + (Bytes(s[1..]) + rest) == Bytes(s) + rest;
    }
  }

  lemma TakeFirst(b: byte, s: seq<Item>, len: nat)
    requires len > 0
    ensures TakeBytes([Byte(b)] + s, len) == Behind([b], TakeBytes(s, len - 1))
  {
    assert ([Byte(b)] + s)[1..] == s;
  }

  class Connection {
    const buffer: array<byte>
    var level: nat
    var events: seq<SocketEvent>
    /** Set when a read has failed; the server closes the connection then. */
    var closed: bool

    ghost predicate Valid()
      reads this
    {
      && buffer.Length == IO_BUFFER
      && (!closed ==> level <= IO_BUFFER)
      && forall i :: 0 <= i < |events| && events[i].Data? ==> 1 <= |events[i].bytes| <= IO_BUFFER
    }

    /** The right-aligned bytes that have been read but not delivered. */
    ghost function Held(): seq<byte>
      requires Valid() && !closed
      reads this, buffer
    {
      buffer[IO_BUFFER - level..]
    }

    /** Everything that is still to be delivered. */
    ghost function Unread(): seq<Item>
      requires Valid() && !closed
      reads this, buffer
    {
      Bytes(Held()) + Items(events)
    }

    constructor (events: seq<SocketEvent>)
      requires forall i :: 0 <= i < |events| && events[i].Data? ==> 1 <= |events[i].bytes| <= IO_BUFFER
      ensures Valid() && !closed && Unread() == Items(events) && fresh(buffer)
    {
      buffer := new byte[IO_BUFFER](_ => 0);
      level := 0;
      closed := false;
      this.events := events;
      new;
      assert Held() == [];
    }

    /** Lines 144-158: read into the front of the buffer, then move to its end. */
    method Fill(bytes: seq<byte>)
      requires buffer.Length == IO_BUFFER && 1 <= |bytes| <= IO_BUFFER
      modifies this`level, buffer
      ensures level == |bytes| && buffer[IO_BUFFER - level..] == bytes
    {
      for i := 0 to IO_BUFFER {
        buffer[i] := 0;
      }
      forall i | 0 <= i < |bytes| {
        buffer[i] := bytes[i];
      }
      level := |bytes|;
      assert buffer[..level] == bytes;
      forall i | 0 <= i < level {
        buffer[IO_BUFFER - level + i] := buffer[i];
      }
    }

    /** The memcpy of line 124. */
    method Deliver(n: nat) returns (moved: seq<byte>)
      requires Valid() && !closed && n <= level
      modifies this`level
      ensures Valid() && !closed
      ensures old(Held()) == moved + Held() && |moved| == n
    {
      moved := buffer[IO_BUFFER - level..IO_BUFFER - level + n];
      level := level - n;
    }

    /** Lines 131-158, when nothing is held: what the next system calls bring. */
    method Await() returns (e: SocketEvent)
      requires Valid() && !closed && level == 0
      modifies this`level, this`events, this`closed, buffer
      ensures Valid()
      ensures closed <==> e.Failed?
      ensures old(events) == [] ==> e.Timeout? && events == []
      ensures old(events) != [] ==> e == old(events)[0] && events == old(events)[1..]
      ensures !closed ==> Held() == if e.Data? then e.bytes else []
    {
      if events == [] {
        return Timeout;
      }
      e := events[0];
      events := events[1..];
      match e
      case Timeout =>
      case Failed => closed := true;
      case Data(bytes) => Fill(bytes);
    }

    /** `_read`: the bytes copied, and its return value. */
    method Read(len: nat) returns (copied: seq<byte>, rc: int)
      requires Valid() && !closed
      modifies this`level, this`events, this`closed, buffer
      ensures Valid()
      ensures match TakeBytes(old(Unread()), len)
        case Complete(bytes, rest) => !closed && copied == bytes && rc == len && Unread() == rest
        case TimedOut(bytes, rest) => !closed && copied == bytes && rc == |bytes| && Unread() == rest
        case Error => closed && rc == -1
    {
      hide TakeBytes, Items, Bytes, Behind;
      copied := [];
      ghost var goal := TakeBytes(Unread(), len);
      NothingBefore(goal);
      while |copied| < len
        invariant Valid() && !closed && |copied| <= len
        invariant goal == Behind(copied, TakeBytes(Unread(), len - |copied|))
        decreases len - |copied|, |events|
      {
        var moved := Deliver(if level < len - |copied| then level else len - |copied|);
        DeliverStep(copied, moved, Held(), Items(events), len - |copied|);
        copied := copied + moved;
        if |copied| >= len {
          NothingMore(copied, Unread());
          return copied, |copied|;
        }
        AwaitStep(copied, events, len - |copied|);
        var e := Await();
        match e
        case Timeout => return copied, |copied|;
        case Failed => return copied, -1;
        case Data(bytes) =>
      }
      NothingMore(copied, Unread());
      return copied, |copied|;
    }

    /** `_readline`; an interruption loses the line. */
    method ReadLine(len: nat) returns (line: seq<byte>, rc: int)
      requires Valid() && !closed
      modifies this`level, this`events, this`closed, buffer
      ensures Valid()
      ensures match TakeLine(old(Unread()), len)
        case Line(bytes, rest) => !closed && line == bytes && rc == |bytes| && Unread() == rest
        case NoLine => rc == -1
    {
      hide Items, TakeLine, Unread;
      line := [];
      ghost var goal := TakeLine(Unread(), len);
      NoLineBefore(goal);
      var c: byte := 0;
      while |line| < len && c != LF
        invariant Valid() && !closed && |line| <= len
        invariant c != LF ==> goal == BehindLine(line, TakeLine(Unread(), len - |line|))
        invariant c == LF ==> goal == Line(line, Unread())
        decreases len - |line|
      {
        LineStep(line, Unread(), len - |line|);
        var one, rc := Read(1);
        if rc <= 0 {
          return line, -1;
        }
        c := one[0];
        line := line + one;
      }
      if c != LF {
        LineFull(line, Unread());
      }
      rc := |line|;
    }

    /** The do loop of lines 1271-1288: the lines it reads, or failure. */
    method ReadHeaders(len: nat) returns (ok: bool, lines: seq<seq<byte>>)
      requires Valid() && !closed && len > 2
      modifies this`level, this`events, this`closed, buffer
      ensures Valid()
      ensures match TakeHeaders(old(Unread()), len)
        case Headers(all, rest) => ok && !closed && lines == all && Unread() == rest
        case NoHeaders => !ok
    {
      hide Items, TakeLine, Unread;
      lines := [];
      ghost var s := Unread();
      ghost var goal := TakeHeaders(s, len);
      NoHeadersBefore(goal);
      while true
        invariant Valid() && !closed && s == Unread()
        invariant goal == BehindHeaders(lines, TakeHeaders(s, len))
        decreases |s|
      {
        HeaderStep(lines, s, len);
        var line, cnt := ReadLine(len);
        if cnt == -1 {
          return false, lines;
        }
        lines := lines + [line];
        if !(cnt > 2 && !(line[0] == CR && line[1] == LF)) {
          return true, lines;
        }
        s := Unread();
      }
    }
  }

  function BehindLine(line: seq<byte>, o: LineOutcome): LineOutcome {
    match o
    case Line(bytes, rest) => Line(line + bytes, rest)
    case NoLine => NoLine
  }

  function BehindHeaders(lines: seq<seq<byte>>, o: HeaderOutcome): HeaderOutcome {
    match o
    case Headers(more, rest) => Headers(lines + more, rest)
    case NoHeaders => NoHeaders
  }

  lemma NoLineBefore(o: LineOutcome)
    ensures BehindLine([], o) == o
  {
    if o.Line? {
      assert [] + o.bytes == o.bytes;
    }
  }

  lemma NoHeadersBefore(o: HeaderOutcome)
    ensures BehindHeaders([], o) == o
  {
    if o.Headers? {
      assert [] + o.lines == o.lines;
    }
  }

  lemma LineFull(line: seq<byte>, s: seq<Item>)
    ensures BehindLine(line, TakeLine(s, 0)) == Line(line, s)
  {
    assert line + [] == line;
  }

  /** One byte of a line. */
  lemma LineStep(line: seq<byte>, s: seq<Item>, len: nat)
    requires len > 0
    ensures var o := TakeBytes(s, 1); o.Complete? ==>
      && |o.bytes| == 1
      && BehindLine(line, TakeLine(s, len))
         == if o.bytes[0] == LF then Line(line + o.bytes, o.rest)
            else BehindLine(line + o.bytes, TakeLine(o.rest, len - 1))
    ensures var o := TakeBytes(s, 1); !o.Complete? ==> TakeLine(s, len) == NoLine && (o.TimedOut? ==> o.bytes == [])
  {
    if s != [] && s[0].Byte? {
      assert TakeBytes(s[1..], 0) == Complete([], s[1..]);
      assert TakeBytes(s, 1) == Complete([s[0].b], s[1..]);
      if s[0].b != LF {
        match TakeLine(s[1..], len - 1)
        case NoLine =>
        case Line(bytes, rest) => assert line + ([s[0].b] + bytes) == line + [s[0].b] + bytes;
      }
    }
  }

  /** One line of the header; a line of more than two bytes never begins with CR LF. */
  lemma HeaderStep(lines: seq<seq<byte>>, s: seq<Item>, len: nat)
    requires len > 2
    ensures TakeLine(s, len).NoLine? ==> TakeHeaders(s, len) == NoHeaders
    ensures var o := TakeLine(s, len); o.Line? ==>
      && BehindHeaders(lines, TakeHeaders(s, len))
         == (if |o.bytes| <= 2 then Headers(lines + [o.bytes], o.rest)
             else BehindHeaders(lines + [o.bytes], TakeHeaders(o.rest, len)))
      && (|o.bytes| > 2 ==> |o.rest| < |s| && !(o.bytes[0] == CR && o.bytes[1] == LF))
  {
    LineShape(s, len);
    hide TakeLine;
    match TakeLine(s, len)
    case NoLine =>
    case Line(bytes, rest) =>
      if |bytes| > 2 {
        match TakeHeaders(rest, len)
        case NoHeaders =>
        case Headers(more, end) => assert lines + ([bytes] + more) == lines + [bytes] + more;
      }
  }

  /** An outcome behind bytes that have been copied already. */
  function Behind(copied: seq<byte>, o: Outcome): Outcome {
    match o
    case Complete(bytes, rest) => Complete(copied + bytes, rest)
    case TimedOut(bytes, rest) => TimedOut(copied + bytes, rest)
    case Error => Error
  }

  lemma NothingBefore(o: Outcome)
    ensures Behind([], o) == o
  {
    if !o.Error? {
      assert [] + o.bytes == o.bytes;
    }
  }

  lemma NothingMore(copied: seq<byte>, s: seq<Item>)
    ensures Behind(copied, TakeBytes(s, 0)) == Complete(copied, s)
  {
    assert copied + [] == copied;
  }

  lemma BehindTwice(a: seq<byte>, b: seq<byte>, o: Outcome)
    ensures Behind(a, Behind(b, o)) == Behind(a + b, o)
  {
    if !o.Error? {
      assert a + (b + o.bytes) == a + b + o.bytes;
    }
  }

  /** What is copied from the buffer comes off the stream. */
  lemma DeliverStep(copied: seq<byte>, moved: seq<byte>, held: seq<byte>, items: seq<Item>, len: nat)
    requires |moved| <= len
    ensures Behind(copied, TakeBytes(Bytes(moved + held) + items, len))
            == Behind(copied + moved, TakeBytes(Bytes(held) + items, len - |moved|))
  {
    hide TakeBytes;
    BytesJoin(moved, held, items);
    TakeMore(moved, Bytes(held) + items, len);
    BehindTwice(copied, moved, TakeBytes(Bytes(held) + items, len - |moved|));
  }

  /** What the next system calls bring comes off the stream when nothing is held. */
  lemma AwaitStep(copied: seq<byte>, events: seq<SocketEvent>, len: nat)
    requires len > 0
    ensures var o := Behind(copied, TakeBytes(Bytes([]) + Items(events), len));
      && (events == [] ==> o == TimedOut(copied, Bytes([]) + Items(events)))
      && (events != [] && events[0].Timeout? ==> o == TimedOut(copied, Bytes([]) + Items(events[1..])))
      && (events != [] && events[0].Failed? ==> o == Error)
      && (events != [] && events[0].Data? ==>
            o == Behind(copied, TakeBytes(Bytes(events[0].bytes) + Items(events[1..]), len)))
  {
    assert copied + [] == copied;
    assert Bytes([]) + Items(events) == Items(events);
    if events != [] {
      var later := Items(events[1..]);
      assert Bytes([]) + later == later;
      assert ([Late] + later)[1..] == later;
    }
  }

  // Independence of the division into reads

  function Reads(chunks: seq<seq<byte>>): (r: seq<SocketEvent>)
    ensures |r| == |chunks| && forall i :: 0 <= i < |chunks| ==> r[i] == Data(chunks[i])
  {
    seq(|chunks|, i requires 0 <= i < |chunks| => Data(chunks[i]))
  }

  lemma {:induction false} ReadsAreBytes(chunks: seq<seq<byte>>, tail: seq<SocketEvent>)
    ensures Items(Reads(chunks) + tail) == Bytes(Flatten(chunks)) + Items(tail)
  {
    if chunks == [] {
      assert Reads([]) + tail == tail;
      assert Bytes([]) + Items(tail) == Items(tail);
    } else {
      ReadsAreBytes(chunks[1..], tail);
      FirstRead(chunks[0], Reads(chunks[1..]) + tail);
      assert Reads(chunks) + tail == [Data(chunks[0])] + (Reads(chunks[1..]) + tail);
      BytesJoin(chunks[0], Flatten(chunks[1..]), Items(tail));
    }
  }

  lemma FirstRead(bytes: seq<byte>, later: seq<SocketEvent>)
    ensures Items([Data(bytes)] + later) == Bytes(bytes) + Items(later)
  {
    assert ([Data(bytes)] + later)[1..] == later;
  }

  lemma BytesJoin(a: seq<byte>, b: seq<byte>, s: seq<Item>)
    ensures Bytes(a + b) + s == Bytes(a) + (Bytes(b) + s)
  {
    assert Bytes(a + b) == Bytes(a) + Bytes(b);
  }

  /**
    However the bytes before an interruption are divided into reads, and however much of
    them is still held in the buffer, every later result is the same: the results are
    functions of this one stream.
   */
  lemma ChunksDoNotMatter(held1: seq<byte>, chunks1: seq<seq<byte>>, held2: seq<byte>, chunks2: seq<seq<byte>>,
                          tail: seq<SocketEvent>)
    requires held1 + Flatten(chunks1) == held2 + Flatten(chunks2)
    ensures Bytes(held1) + Items(Reads(chunks1) + tail) == Bytes(held2) + Items(Reads(chunks2) + tail)
  {
    ReadsAreBytes(chunks1, tail);
    ReadsAreBytes(chunks2, tail);
    hide *;
    BytesJoin(held1, Flatten(chunks1), Items(tail));
    BytesJoin(held2, Flatten(chunks2), Items(tail));
  }

  // A well-formed header

  /** One LF, at the end. */
  ghost predicate EndsInLF(line: seq<byte>) {
    && line != [] && line[|line| - 1] == LF
    && forall i :: 0 <= i < |line| - 1 ==> line[i] != LF
  }

  lemma {:induction false} OneLine(line: seq<byte>, rest: seq<Item>, len: nat)
    requires EndsInLF(line) && |line| <= len
    ensures TakeLine(Bytes(line) + rest, len) == Line(line, rest)
    decreases |line|
  {
    var s := Bytes(line) + rest;
    if |line| == 1 {
      assert s[1..] == rest && line == [LF];
    } else {
      OneLine(line[1..], rest, len - 1);
      assert s[1..] == Bytes(line[1..]) + rest;
      assert line == [line[0]] + line[1..];
    }
  }

  /** A request header of lines that fit, ended by an empty line, is read line by line and no further. */
  lemma {:induction false} HeaderArrives(lines: seq<seq<byte>>, end: seq<byte>, rest: seq<Item>, len: nat)
    requires len > 2 && EndsInLF(end) && |end| <= 2
    requires forall i :: 0 <= i < |lines| ==> EndsInLF(lines[i]) && 2 < |lines[i]| <= len
    ensures TakeHeaders(Bytes(Flatten(lines) + end) + rest, len) == Headers(lines + [end], rest)
  {
    if lines == [] {
      assert Flatten(lines) + end == end;
      OneLine(end, rest, len);
      hide Flatten, Bytes, TakeLine, EndsInLF;
      assert lines + [end] == [end];
    } else {
      HeaderArrives(lines[1..], end, rest, len);
      SplitHeader(lines, end, rest);
      hide *;
      FirstHeader(lines[0], Bytes(Flatten(lines[1..]) + end) + rest, lines[1..] + [end], rest, len);
      assert lines + [end] == [lines[0]] + (lines[1..] + [end]);
    }
  }

  /** Texts, each ended by CR LF, and an empty one, as they are sent. */
  function OnTheWire(texts: seq<seq<byte>>): seq<byte> {
    if texts == [] then [13, 10] else texts[0] + [13, 10] + OnTheWire(texts[1..])
  }

  function Ended(texts: seq<seq<byte>>): (lines: seq<seq<byte>>)
    ensures |lines| == |texts| && forall i :: 0 <= i < |texts| ==> lines[i] == texts[i] + [13, 10]
  {
    seq(|texts|, i requires 0 <= i < |texts| => texts[i] + [13, 10])
  }

  lemma {:induction false} WireIsLines(texts: seq<seq<byte>>)
    ensures OnTheWire(texts) == Flatten(Ended(texts)) + [13, 10]
  {
    if texts == [] {
      assert Ended(texts) == [];
    } else {
      WireIsLines(texts[1..]);
      assert Ended(texts) == [texts[0] + [13, 10]] + Ended(texts[1..]);
      FlattenFirst(texts[0] + [13, 10], Ended(texts[1..]));
      hide *;
      ThreeParts(texts[0] + [13, 10], Flatten(Ended(texts[1..])), [13, 10]);
    }
  }

  lemma FlattenFirst(line: seq<byte>, lines: seq<seq<byte>>)
    ensures Flatten([line] + lines) == line + Flatten(lines)
  {
    assert ([line] + lines)[1..] == lines;
  }

  /** Any request without an LF in its lines arrives: the server reads these lines, and nothing behind the header. */
  lemma RequestArrives(texts: seq<seq<byte>>, rest: seq<Item>, len: nat)
    requires len > 2
    requires forall i :: 0 <= i < |texts| ==> 1 <= |texts[i]| <= len - 2 && 10 !in texts[i]
    ensures TakeHeaders(Bytes(OnTheWire(texts)) + rest, len) == Headers(Ended(texts) + [[13, 10]], rest)
  {
    WireIsLines(texts);
    forall i | 0 <= i < |texts| ensures EndsInLF(Ended(texts)[i]) {
      assert forall k :: 0 <= k < |texts[i]| ==> texts[i][k] in texts[i];
    }
    assert EndsInLF([13, 10]);
    hide OnTheWire, Flatten, Bytes, TakeHeaders, EndsInLF;
    HeaderArrives(Ended(texts), [13, 10], rest, len);
  }

  lemma SplitHeader(lines: seq<seq<byte>>, end: seq<byte>, rest: seq<Item>)
    requires lines != []
    ensures Bytes(Flatten(lines) + end) + rest == Bytes(lines[0]) + (Bytes(Flatten(lines[1..]) + end) + rest)
  {
    assert Flatten(lines) == lines[0] + Flatten(lines[1..]);
    hide *;
    ThreeParts(lines[0], Flatten(lines[1..]), end);
    BytesJoin(lines[0], Flatten(lines[1..]) + end, rest);
  }

  lemma ThreeParts(a: seq<byte>, b: seq<byte>, c: seq<byte>)
    ensures (a + b) + c == a + (b + c)
  {
  }

  lemma FirstHeader(line: seq<byte>, s: seq<Item>, lines: seq<seq<byte>>, rest: seq<Item>, len: nat)
    requires len > 2 && EndsInLF(line) && 2 < |line| <= len && TakeHeaders(s, len) == Headers(lines, rest)
    ensures TakeHeaders(Bytes(line) + s, len) == Headers([line] + lines, rest)
  {
    OneLine(line, s, len);
    hide TakeLine, EndsInLF;
  }
}
