/**
  The multipart parser of the input_http plugin: `extract_data` of mjpg-proxy.c with the
  helpers of misc.c, as a state machine over bytes and as the loop over a receive buffer.
 */
module Extractor {
  import opened Bits

  const BUFFER_SIZE: nat := 1024 * 256

  /** The bytes of a C string literal. */
  function Ascii(s: string): (b: seq<byte>)
    ensures |b| == |s|
    ensures forall i :: 0 <= i < |s| && s[i] < 256 as char ==> b[i] == s[i] as byte
  {
    seq(|s|, i requires 0 <= i < |s| => (s[i] as int % 256) as byte)
  }

  const CONTENT_LENGTH := Ascii("Content-Length:")
  const BOUNDARY := Ascii("--boundarydonotcross")

  // misc.c

  /** `char` is signed: a byte from 128 on comes with 24 ones in front. */
  function CharToWord(b: byte): Word {
    if b < 128 then IntToWord(b as nat) else Ones(24) + FromNat(b as nat, 8)
  }

  function PushByte(w: Word, b: byte): Word {
    Or(ShiftLeft(w, 8), CharToWord(b))
  }

  const CRLF_MASK: Word := IntToWord(13 * 256 + 10)

  /** A mask test, so every pair of bytes that has the bits of CR and of LF passes. */
  predicate IsCrlf(w: Word) {
    And(CRLF_MASK, w) == CRLF_MASK
  }

  predicate IsCrlfCrlf(w: Word) {
    IsCrlf(w) && IsCrlf(ShiftRightSigned(w, 16))
  }

  /** `search_pattern_compare`: a mismatch starts over, and the mismatching byte is not looked at again. */
  function Compare(pattern: seq<byte>, pos: nat, b: byte): (r: nat)
    requires pos < |pattern|
    ensures r <= |pattern|
  {
    if pattern[pos] == b then pos + 1 else 0
  }

  // The state machine

  datatype Part = HEADER | CONTENT

  /** What `on_image_received` is given; the length can be negative, the bytes then are none. */
  datatype Callback = Callback(length: int, image: seq<byte>)

  datatype State = State(part: Part, lastFour: Word, lengthPos: nat, boundaryPos: nat,
                         content: seq<byte>, received: seq<Callback>) {
    ghost predicate Valid() {
      && lengthPos < |CONTENT_LENGTH| && boundaryPos < |BOUNDARY|
      && |content| <= BUFFER_SIZE - 1
    }
  }

  /** `init_extractor_state`; what has been received so far is kept. */
  function Init(received: seq<Callback>): State {
    State(HEADER, Zeros(32), 0, 0, [], received)
  }

  /** Lines 100-103: the boundary and the line end before it are cut off. */
  function Image(content: seq<byte>): Callback {
    var length := |content| - (|BOUNDARY| + 2);
    Callback(length, if length >= 0 then content[..length] else [])
  }

  function Step(s: State, b: byte): (r: State)
    requires s.Valid()
    ensures r.Valid()
  {
    match s.part
    case HEADER =>
      var w := PushByte(s.lastFour, b);
      if IsCrlfCrlf(w) then s.(lastFour := w, part := CONTENT)
      else if IsCrlf(w) then s.(lastFour := w, lengthPos := 0)
      else
        var pos := Compare(CONTENT_LENGTH, s.lengthPos, b);
        s.(lastFour := w, lengthPos := if pos == |CONTENT_LENGTH| then 0 else pos)
    case CONTENT =>
      if |s.content| >= BUFFER_SIZE - 1 then s
      else
        var content := s.content + [b];
        var pos := Compare(BOUNDARY, s.boundaryPos, b);
        if pos == |BOUNDARY| then Init(s.received + [Image(content)])
        else s.(content := content, boundaryPos := pos)
  }

  function Run(s: State, bytes: seq<byte>): (r: State)
    requires s.Valid()
    ensures r.Valid()
    decreases |bytes|
  {
    if bytes == [] then s else Step(Run(s, bytes[..|bytes| - 1]), bytes[|bytes| - 1])
  }

  lemma {:induction false} RunConcat(s: State, a: seq<byte>, b: seq<byte>)
    requires s.Valid()
    ensures Run(s, a + b) == Run(Run(s, a), b)
    decreases |b|
  {
    hide Step, State.Valid;
    if b == [] {
      assert a + b == a;
    } else {
      var c := b[..|b| - 1];
      RunConcat(s, a, c);
      assert (a + b)[..|a + b| - 1] == a + c;
    }
  }

  // Chunks

  function RunChunks(s: State, chunks: seq<seq<byte>>): (r: State)
    requires s.Valid()
    ensures r.Valid()
    decreases |chunks|
  {
    if chunks == [] then s else RunChunks(Run(s, chunks[0]), chunks[1..])
  }

  /** However `recv` cuts the stream, callbacks and final state are those of the stream. */
  lemma {:induction false} ChunksDoNotMatter(s: State, chunks: seq<seq<byte>>)
    requires s.Valid()
    ensures RunChunks(s, chunks) == Run(s, Flatten(chunks))
    decreases |chunks|
  {
    hide Run, State.Valid;
    if chunks != [] {
      ChunksDoNotMatter(Run(s, chunks[0]), chunks[1..]);
      RunConcat(s, chunks[0], Flatten(chunks[1..]));
    } else {
      RunNothing(s);
    }
  }

  lemma RunNothing(s: State)
    requires s.Valid()
    ensures Run(s, []) == s
  {
  }

  // The object

  class Proxy {
    const buffer: array<byte>
    var length: int
    var part: Part
    var lastFour: Word
    var lengthPos: nat
    var boundaryPos: nat
    /** The calls of `on_image_received`, in order. */
    var received: seq<Callback>

    ghost predicate Valid()
      reads this
    {
      && buffer.Length == BUFFER_SIZE
      && 0 <= length <= BUFFER_SIZE - 1
      && lengthPos < |CONTENT_LENGTH| && boundaryPos < |BOUNDARY|
    }

    ghost function Abstract(): (s: State)
      requires Valid()
      reads this, buffer
      ensures s.Valid()
    {
      State(part, lastFour, lengthPos, boundaryPos, buffer[..length], received)
    }

    constructor ()
      ensures Valid() && Abstract() == Init([]) && fresh(buffer)
    {
      buffer := new byte[BUFFER_SIZE];
      length, part, lastFour, lengthPos, boundaryPos, received := 0, HEADER, Zeros(32), 0, 0, [];
    }

    /** One byte: the switch of lines 76-107. */
    method Take(b: byte)
      requires Valid()
      modifies this`length, this`part, this`lastFour, this`lengthPos, this`boundaryPos, this`received, buffer
      ensures Valid() && Abstract() == Step(old(Abstract()), b)
    {
      match part
      case HEADER => TakeHeader(b);
      case CONTENT => TakeContent(b);
    }

    method TakeHeader(b: byte)
      requires Valid() && part == HEADER
      modifies this`part, this`lastFour, this`lengthPos
      ensures Valid() && Abstract() == Step(old(Abstract()), b)
    {
      hide PushByte, IsCrlf, IsCrlfCrlf, Ascii;
      lastFour := PushByte(lastFour, b);
      if IsCrlfCrlf(lastFour) {
        part := CONTENT;
      } else if IsCrlf(lastFour) {
        lengthPos := 0;
      } else {
        lengthPos := Compare(CONTENT_LENGTH, lengthPos, b);
        if lengthPos == |CONTENT_LENGTH| {
          lengthPos := 0;
        }
      }
    }

    method TakeContent(b: byte)
      requires Valid() && part == CONTENT
      modifies this`length, this`part, this`lastFour, this`lengthPos, this`boundaryPos, this`received, buffer
      ensures Valid() && Abstract() == Step(old(Abstract()), b)
    {
      hide PushByte, IsCrlf, IsCrlfCrlf, Ascii;
      if length >= BUFFER_SIZE - 1 {
        return;
      }
      buffer[length] := b;
      length := length + 1;
      ghost var content := buffer[..length];
      assert content == old(Abstract()).content + [b];
      boundaryPos := Compare(BOUNDARY, boundaryPos, b);
      if boundaryPos == |BOUNDARY| {
        length := length - (|BOUNDARY| + 2);
        received := received + [Callback(length, if length >= 0 then buffer[..length] else [])];
        assert length >= 0 ==> buffer[..length] == content[..length];
        length, part, lastFour, lengthPos, boundaryPos := 0, HEADER, Zeros(32), 0, 0;
      }
    }

    /**
      `extract_data`. Another thread may set `should_stop`; `stopAfter` is the number of bytes
      after which the loop condition sees it.
     */
    method ExtractData(bytes: seq<byte>, stopAfter: nat)
      requires Valid()
      modifies this`length, this`part, this`lastFour, this`lengthPos, this`boundaryPos, this`received, buffer
      ensures Valid()
      ensures Abstract() == Run(old(Abstract()), if stopAfter < |bytes| then bytes[..stopAfter] else bytes)
    {
      hide Step;
      var i := 0;
      assert bytes[..0] == [];
      while i < |bytes| && i < stopAfter
        invariant Valid() && i <= |bytes| && i <= stopAfter
        invariant Abstract() == Run(old(Abstract()), bytes[..i])
      {
        Take(bytes[i]);
        i := i + 1;
        assert bytes[..i][..i - 1] == bytes[..i - 1];
      }
      assert i == |bytes| ==> bytes[..i] == bytes;
    }

    /** The receive loop of `send_request_and_process_response`, for the buffers that `recv` returns. */
    method Receive(chunks: seq<seq<byte>>)
      requires Valid()
      modifies this`length, this`part, this`lastFour, this`lengthPos, this`boundaryPos, this`received, buffer
      ensures Valid()
      ensures Abstract() == RunChunks(Init(old(received)), chunks)
    {
      hide Run;
      length, part, lastFour, lengthPos, boundaryPos := 0, HEADER, Zeros(32), 0, 0;
      ghost var start := Abstract();
      var i := 0;
      while i < |chunks|
        invariant Valid() && i <= |chunks|
        invariant RunChunks(Abstract(), chunks[i..]) == RunChunks(start, chunks)
      {
        ExtractData(chunks[i], |chunks[i]|);
        i := i + 1;
      }
    }
  }
}
