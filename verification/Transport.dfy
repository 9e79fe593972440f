/**
  The multipart round trip: the frames that the client reports are the frames that the
  server sent, exactly when every frame fits the client's buffer and does not trip its
  boundary matcher.
 */
module Transport {
  import opened Bits
  import opened Extractor
  import opened Matcher
  import opened Multipart
  import opened Printf

  // Headers end at the empty line

  lemma CrlfBytes()
    ensures CRLF == ['\r' as byte, '\n' as byte]
    ensures HasCr('\r' as byte) && !HasLf('\r' as byte) && HasLf('\n' as byte) && !HasCr('\n' as byte)
  {
  }

  lemma RunOne(s: State, b: byte)
    requires s.Valid()
    ensures Run(s, [b]) == Step(s, b)
  {
    hide Step;
    assert [b][..0] == [];
  }

  lemma EmptyLine(s: State, h: seq<byte>, received: seq<Callback>)
    requires InHeader(s, h, received) && h != [] && Plain(h[|h| - 1])
    ensures AtContent(Run(s, CRLF + CRLF), received)
  {
    CrlfBytes();
    var r, n := '\r' as byte, '\n' as byte;
    hide HasCr, HasLf, Step, InHeader, AtContent, Run, State.Valid;
    InHeaderIsValid(s, h, received);
    HeaderStep(s, h, r, received);
    var s1, h1 := Step(s, r), h + [r];
    HeaderStep(s1, h1, n, received);
    var s2, h2 := Step(s1, n), h1 + [n];
    HeaderStep(s2, h2, r, received);
    var s3, h3 := Step(s2, r), h2 + [r];
    HeaderStep(s3, h3, n, received);
    RunFour(s, r, n);
  }

  lemma InHeaderIsValid(s: State, h: seq<byte>, received: seq<Callback>)
    requires InHeader(s, h, received)
    ensures s.Valid()
  {
  }

  lemma RunFour(s: State, r: byte, n: byte)
    requires s.Valid()
    ensures Run(s, [r, n] + [r, n]) == Step(Step(Step(Step(s, r), n), r), n)
  {
    hide Run, Step;
    RunOne(s, r);
    RunConcat(s, [r], [n]);
    var s2 := Run(s, [r, n]);
    assert [r] + [n] == [r, n];
    RunOne(Step(s, r), n);
    RunConcat(s, [r, n], [r, n]);
    RunOne(s2, r);
    RunConcat(s2, [r], [n]);
    RunOne(Step(s2, r), n);
  }

  /** A part header, read from the end of the boundary on, leads to the content. */
  lemma PartHeaderRun(f: Frame, received: seq<Callback>)
    ensures AtContent(Run(Init(received), CRLF + PartHeader(f)), received)
  {
    PartHeaderIsQuiet(f);
    var h := CRLF + TYPE_LINE + Decimal(|f.bytes|) + TIME_LINE + Decimal(f.sec) + (POINT + Decimal6(f.usec));
    hide CRLF, TYPE_LINE, TIME_LINE, POINT, Decimal, Decimal6, Step, Run, Quiet, Plain;
    assert CRLF + PartHeader(f) == h + (CRLF + CRLF);
    QuietRun(h, received);
    EmptyLine(Run(Init(received), h), h, received);
    RunConcat(Init(received), h, CRLF + CRLF);
  }

  /** The status line already ends in bytes that pass for an empty line. */
  lemma StatusRun()
    ensures AtContent(Run(Init([]), STATUS), [])
  {
    StatusIsQuiet();
    StatusEnds();
    var t := Ascii("HTTP/1.0 200 OK\r");
    var n := '\n' as byte;
    hide Ascii, STATUS, Step, Hit, Quiet, InHeader, AtContent, State.Valid;
    QuietRun(t, []);
    InHeaderIsValid(Run(Init([]), t), t, []);
    HeaderStep(Run(Init([]), t), t, n, []);
    RunConcat(Init([]), t, [n]);
    RunOne(Run(Init([]), t), n);
  }

  lemma StatusEnds()
    ensures var t := Ascii("HTTP/1.0 200 OK\r"); var n := '\n' as byte;
      STATUS == t + [n] && Hit(t + [n], |t|)
  {
    var t := Ascii("HTTP/1.0 200 OK\r");
    assert |t| == 16 && t[13] == 'O' as byte && t[14] == 'K' as byte && t[15] == '\r' as byte;
  }

  lemma StatusIsQuiet()
    ensures Quiet(Ascii("HTTP/1.0 200 OK\r"))
  {
    var t := Ascii("HTTP/1.0 200 OK\r");
    assert forall i :: 0 <= i < |t| ==> t[i] < 128 && (HasLf(t[i]) ==> i in {4, 6, 13, 14});
    assert !HasCr(t[5]);
    hide HasCr, HasLf;
    forall i {:trigger Hit(t, i)} | 0 <= i < |t| ensures !Hit(t, i) {
      if 3 <= i {
        assert HasLf(t[i]) ==> i in {4, 6, 13, 14};
        assert HasLf(t[i - 2]) ==> i - 2 in {4, 6, 13, 14};
      }
    }
  }

  // Contents end at the boundary

  /** While the matcher has not fired, everything is stored. */
  lemma {:induction false} ContentRun(s: State, g: seq<byte>, received: seq<Callback>)
    requires AtContent(s, received) && |g| <= BUFFER_SIZE - 1 && !Fires(g)
    ensures Run(s, g) == s.(content := g, boundaryPos := Follow(0, g))
    decreases |g|
  {
    hide Compare;
    if g != [] {
      var h := g[..|g| - 1];
      ContentRun(s, h, received);
      assert g == h + [g[|g| - 1]];
    }
  }

  /** A full buffer swallows everything: no boundary is ever seen again. */
  lemma {:induction false} StuckRun(s: State, g: seq<byte>)
    requires s.Valid() && s.part == CONTENT && |s.content| == BUFFER_SIZE - 1
    ensures Run(s, g) == s
    decreases |g|
  {
    if g != [] {
      StuckRun(s, g[..|g| - 1]);
    }
  }

  /** The boundary completes a content. */
  lemma ContentEnds(s: State, g: seq<byte>, received: seq<Callback>)
    requires AtContent(s, received) && g != [] && |g| <= BUFFER_SIZE - 1
    requires !Fires(g[..|g| - 1]) && Fires(g)
    ensures Run(s, g) == Init(received + [Image(g)])
  {
    hide Compare, Init, PushByte, IsCrlf, IsCrlfCrlf;
    var h := g[..|g| - 1];
    ContentRun(s, h, received);
    assert g == h + [g[|g| - 1]];
  }

  /** What a frame must be like to get through: short enough, and without a boundary at an idle place. */
  ghost predicate Deliverable(f: seq<byte>) {
    |f| + |CRLF| + |BOUNDARY| <= BUFFER_SIZE - 1 && !Recognised(f)
  }

  /** In numbers. */
  lemma DeliverableIff(f: seq<byte>)
    ensures Deliverable(f) <==> |f| <= 262121 && !Recognised(f)
  {
    CrlfBytes();
    BoundaryBytes();
    hide Recognised, CRLF, BOUNDARY;
  }

  lemma FrameFires(f: seq<byte>)
    requires Deliverable(f)
    ensures var g := f + CRLF + BOUNDARY;
      && |BOUNDARY| + 2 <= |g| <= BUFFER_SIZE - 1 && !Fires(g[..|g| - 1]) && Fires(g)
      && Image(g) == Callback(|f|, f)
  {
    var g := f + CRLF + BOUNDARY;
    FiresIff(f);
    BehindLineEnd(f);
    BoundaryBytes();
    hide Fires, Recognised, BOUNDARY;
    assert |CRLF| == 2;
    hide CRLF;
    assert BOUNDARY[..20] == BOUNDARY;
    assert g[..|g| - 1] == f + CRLF + BOUNDARY[..19];
    assert g[..|f|] == f;
  }

  /** A frame and the boundary behind it, from the start of the content on. */
  lemma FrameRun(s: State, f: seq<byte>, received: seq<Callback>)
    requires AtContent(s, received) && Deliverable(f)
    ensures Run(s, f + CRLF + BOUNDARY) == Init(received + [Callback(|f|, f)])
  {
    FrameFires(f);
    hide *;
    ContentEnds(s, f + CRLF + BOUNDARY, received);
  }

  // Frames that do not get through

  /** Received callbacks are never taken back. */
  lemma {:induction false} ReceivedGrows(s: State, g: seq<byte>)
    requires s.Valid()
    ensures s.received <= Run(s, g).received
    decreases |g|
  {
    hide Compare, PushByte, IsCrlf, IsCrlfCrlf;
    if g != [] {
      ReceivedGrows(s, g[..|g| - 1]);
    }
  }

  /** From the start of the content, a run over `g` never reports `f` in the next place. */
  ghost predicate Missing(s: State, g: seq<byte>, f: seq<byte>)
    requires s.Valid()
  {
    var r, n := Run(s, g).received, |s.received|;
    |r| == n || (|r| > n && r[n] != Callback(|f|, f))
  }

  lemma StuckMisses(s: State, g: seq<byte>, f: seq<byte>, received: seq<Callback>)
    requires AtContent(s, received) && |g| >= BUFFER_SIZE - 1 && !Fires(g[..BUFFER_SIZE - 1])
    ensures Missing(s, g, f)
  {
    hide Step;
    var m := BUFFER_SIZE - 1;
    assert g == g[..m] + g[m..];
    ContentRun(s, g[..m], received);
    StuckRun(Run(s, g[..m]), g[m..]);
    RunConcat(s, g[..m], g[m..]);
  }

  lemma EarlyFireMisses(s: State, g: seq<byte>, f: seq<byte>, m: nat, received: seq<Callback>)
    requires AtContent(s, received) && 0 < m <= |f| && m <= |g| && m <= BUFFER_SIZE - 1
    requires Fires(g[..m]) && !Fires(g[..m - 1])
    ensures Missing(s, g, f)
  {
    hide Step;
    var h := g[..m];
    assert h[..m - 1] == g[..m - 1];
    ContentEnds(s, h, received);
    assert g == h + g[m..];
    RunConcat(s, h, g[m..]);
    ReceivedGrows(Run(s, h), g[m..]);
  }

  /** A frame that is too long or trips the matcher is not reported, whatever follows it. */
  lemma BadFrameMisses(s: State, f: seq<byte>, tail: seq<byte>, received: seq<Callback>)
    requires AtContent(s, received) && !Deliverable(f)
    ensures Missing(s, f + CRLF + BOUNDARY + tail, f)
  {
    hide AtContent, Missing;
    FiresIff(f);
    hide Recognised;
    var g, full := f + CRLF + BOUNDARY + tail, BUFFER_SIZE - 1;
    if Fires(f) {
      var m := FiringPoint(f);
      assert g[..m] == f[..m] && g[..m - 1] == f[..m - 1];
      if m <= full {
        EarlyFireMisses(s, g, f, m, received);
      } else {
        PrefixDoesNotFire(f[..m - 1], full);
        assert f[..m - 1][..full] == g[..full];
        StuckMisses(s, g, f, received);
      }
    } else {
      var whole := f + CRLF + BOUNDARY;
      BehindLineEnd(f);
      BoundaryBytes();
      var most := f + CRLF + BOUNDARY[..19];
      PrefixDoesNotFire(most, full);
      assert most[..full] == g[..full];
      StuckMisses(s, g, f, received);
    }
  }

  // The header fields, which the first callback reports

  ghost predicate NoDoubleDash(f: seq<byte>) {
    forall i :: 0 <= i < |f| - 1 ==> !(f[i] == '-' as byte && f[i + 1] == '-' as byte)
  }

  /** At most 40 bytes, and no two dashes in a row, neither inside nor across the end. */
  ghost predicate Short(t: string) {
    && 0 < |t| <= 40 && t[|t| - 1] != '-'
    && (forall i :: 0 <= i < |t| ==> t[i] < 128 as char)
    && forall i :: 0 <= i < |t| - 1 ==> !(t[i] == '-' && t[i + 1] == '-')
  }

  lemma {:induction false} JoinShort(texts: seq<string>)
    requires forall i :: 0 <= i < |texts| ==> Short(texts[i])
    ensures NoDoubleDash(Join(texts)) && |Join(texts)| <= 40 * |texts|
  {
    if texts != [] {
      JoinShort(texts[1..]);
    }
  }

  /** The only dashes of `t` are at `places`, which are not next to each other. */
  ghost predicate DashesAt(t: string, places: set<int>) {
    forall i :: 0 <= i < |t| && (t[i] == '-' || t[i] >= 128 as char) ==> i in places && t[i] < 128 as char
  }

  lemma ShortText(t: string, places: set<int>)
    requires 0 < |t| <= 40 && DashesAt(t, places)
    requires forall p :: p in places ==> p + 1 !in places && p != |t| - 1
    ensures Short(t)
  {
  }

  lemma OriginText()
    ensures Short(ORIGIN)
  {
    hide Short;
    ShortText(ORIGIN, {6, 14, 20});
  }

  lemma ConnectionText()
    ensures Short(CONNECTION)
  {
    hide Short;
    ShortText(CONNECTION, {});
  }

  lemma ServerText()
    ensures Short(SERVER)
  {
    hide Short;
    ShortText(SERVER, {12});
  }

  lemma NoStoreText()
    ensures Short(NO_STORE)
  {
    hide Short;
    ShortText(NO_STORE, {5, 17});
  }

  lemma NoCacheText()
    ensures Short(NO_CACHE)
  {
    hide Short;
    ShortText(NO_CACHE, {2, 14});
  }

  lemma PreCheckText()
    ensures Short(PRE_CHECK)
  {
    hide Short;
    ShortText(PRE_CHECK, {3, 17});
  }

  lemma MaxAgeText()
    ensures Short(MAX_AGE)
  {
    hide Short;
    ShortText(MAX_AGE, {3});
  }

  lemma PragmaText()
    ensures Short(PRAGMA)
  {
    hide Short;
    ShortText(PRAGMA, {10});
  }

  lemma ExpiresText()
    ensures Short(EXPIRES)
  {
    hide Short;
    ShortText(EXPIRES, {});
  }

  lemma MiddayText()
    ensures Short(MIDDAY)
  {
    hide Short;
    ShortText(MIDDAY, {});
  }

  lemma MultipartText()
    ensures Short(MULTIPART)
  {
    hide Short;
    ShortText(MULTIPART, {7});
  }

  lemma ReplaceText()
    ensures Short(REPLACE)
  {
    hide Short;
    ShortText(REPLACE, {1, 7});
  }

  lemma BoundaryFieldText()
    ensures Short(BOUNDARY_FIELD)
  {
    hide Short;
    ShortText(BOUNDARY_FIELD, {});
  }

  lemma FieldTexts()
    ensures NoDoubleDash(FIELDS) && |FIELDS| <= 520
  {
    OriginText();
    ConnectionText();
    ServerText();
    NoStoreText();
    NoCacheText();
    PreCheckText();
    MaxAgeText();
    PragmaText();
    ExpiresText();
    MiddayText();
    MultipartText();
    ReplaceText();
    BoundaryFieldText();
    hide Short, ORIGIN, CONNECTION, SERVER, NO_STORE, NO_CACHE, PRE_CHECK, MAX_AGE, PRAGMA, EXPIRES;
    hide MIDDAY, MULTIPART, REPLACE, BOUNDARY_FIELD;
    JoinShort(FIELD_TEXTS);
  }

  lemma OccurrenceHasDoubleDash(f: seq<byte>, i: nat)
    requires OccursAt(f, i)
    ensures !NoDoubleDash(f)
  {
    BoundaryBytes();
    assert f[i + 0] == BOUNDARY[0] && f[i + 1] == BOUNDARY[1];
  }

  lemma BoundaryHasDoubleDash(f: seq<byte>)
    ensures NoDoubleDash(f) ==> !Contains(f)
  {
    hide NoDoubleDash, OccursAt;
    if Contains(f) {
      var i: nat :| OccursAt(f, i);
      OccurrenceHasDoubleDash(f, i);
    }
  }

  lemma FieldsAreDeliverable()
    ensures Deliverable(FIELDS)
  {
    FieldTexts();
    BoundaryBytes();
    BoundaryHasDoubleDash(FIELDS);
    NoBoundaryNoFire(FIELDS);
  }

  /** After the preamble up to its boundary, one callback has reported the header fields. */
  lemma PreambleRun()
    ensures Run(Init([]), STATUS + (FIELDS + CRLF + BOUNDARY)) == Init([Callback(|FIELDS|, FIELDS)])
  {
    FieldsAreDeliverable();
    StatusRun();
    hide Step, FIELDS, CRLF, BOUNDARY, STATUS, Deliverable;
    FrameRun(Run(Init([]), STATUS), FIELDS, []);
    RunConcat(Init([]), STATUS, FIELDS + CRLF + BOUNDARY);
    assert [] + [Callback(|FIELDS|, FIELDS)] == [Callback(|FIELDS|, FIELDS)];
  }

  // The wire, frame by frame

  /** From the end of one boundary to the end of the next. */
  function Unit(f: Frame): seq<byte> {
    CRLF + PartHeader(f) + (f.bytes + CRLF + BOUNDARY)
  }

  function Units(frames: seq<Frame>): seq<byte> {
    if frames == [] then [] else Unit(frames[0]) + Units(frames[1..])
  }

  lemma {:induction false} UnitsAppend(frames: seq<Frame>, f: Frame)
    ensures Units(frames + [f]) == Units(frames) + Unit(f)
  {
    hide Unit;
    if frames == [] {
      assert [f][1..] == [];
    } else {
      UnitsAppend(frames[1..], f);
      assert (frames + [f])[1..] == frames[1..] + [f];
    }
  }

  lemma {:induction false} SentByFrame(frames: seq<Frame>, n: nat)
    requires n <= |frames|
    ensures Sent(frames, 3 * n + 1) == STATUS + (FIELDS + CRLF + BOUNDARY) + Units(frames[..n]) + CRLF
  {
    hide Units, FIELDS, STATUS, CRLF, BOUNDARY, PREAMBLE, PartHeader, Sent, WriteNo;
    if n == 0 {
      FirstWrite(frames);
      PreambleParts();
      assert frames[..0] == [];
      NoUnits();
    } else {
      SentByFrame(frames, n - 1);
      ThreeWrites(frames, n - 1);
      ThreeSent(frames, n - 1);
      UnitsAppend(frames[..n - 1], frames[n - 1]);
      assert frames[..n - 1] + [frames[n - 1]] == frames[..n];
      Regroup(STATUS + (FIELDS + CRLF + BOUNDARY), Units(frames[..n - 1]), frames[n - 1]);
    }
  }

  lemma PreambleParts()
    ensures PREAMBLE == STATUS + (FIELDS + CRLF + BOUNDARY) + [] + CRLF
  {
    hide STATUS, FIELDS, CRLF, BOUNDARY;
  }

  lemma NoUnits()
    ensures Units([]) == []
  {
  }

  lemma ThreeSent(frames: seq<Frame>, i: nat)
    requires i < |frames|
    ensures Sent(frames, 3 * (i + 1) + 1)
         == Sent(frames, 3 * i + 1) + WriteNo(frames, 3 * i + 1) + WriteNo(frames, 3 * i + 2) + WriteNo(frames, 3 * i + 3)
  {
    hide WriteNo;
    assert Sent(frames, 3 * i + 2) == Sent(frames, 3 * i + 1) + WriteNo(frames, 3 * i + 1);
    assert Sent(frames, 3 * i + 3) == Sent(frames, 3 * i + 2) + WriteNo(frames, 3 * i + 2);
  }

  lemma Regroup(a: seq<byte>, u: seq<byte>, f: Frame)
    ensures a + u + CRLF + PartHeader(f) + f.bytes + (CRLF + BOUNDARY + CRLF) == a + (u + Unit(f)) + CRLF
  {
    hide PartHeader, CRLF, BOUNDARY;
  }

  lemma WireByFrame(frames: seq<Frame>)
    ensures Wire(frames) == STATUS + (FIELDS + CRLF + BOUNDARY) + Units(frames) + CRLF
  {
    hide Units, FIELDS, STATUS, CRLF, BOUNDARY, Sent;
    SentByFrame(frames, |frames|);
    assert frames[..|frames|] == frames;
  }

  // The round trip

  function Reports(frames: seq<Frame>): (r: seq<Callback>)
    ensures |r| == |frames|
  {
    seq(|frames|, i requires 0 <= i < |frames| => Callback(|frames[i].bytes|, frames[i].bytes))
  }

  ghost predicate AllDeliverable(frames: seq<Frame>) {
    forall i :: 0 <= i < |frames| ==> Deliverable(frames[i].bytes)
  }

  lemma TrailingLineEnd(received: seq<Callback>)
    ensures Run(Init(received), CRLF).received == received
  {
    CrlfBytes();
    assert Quiet(CRLF);
    QuietRun(CRLF, received);
  }

  lemma UnitRun(f: Frame, received: seq<Callback>)
    ensures AtContent(Run(Init(received), CRLF + PartHeader(f)), received)
    ensures Deliverable(f.bytes) ==>
      Run(Init(received), Unit(f)) == Init(received + [Callback(|f.bytes|, f.bytes)])
  {
    hide Step, CRLF, BOUNDARY, PartHeader, Deliverable, AtContent;
    PartHeaderRun(f, received);
    var s := Run(Init(received), CRLF + PartHeader(f));
    RunConcat(Init(received), CRLF + PartHeader(f), f.bytes + CRLF + BOUNDARY);
    if Deliverable(f.bytes) {
      FrameRun(s, f.bytes, received);
    }
  }

  lemma BadUnit(f: Frame, tail: seq<byte>, received: seq<Callback>)
    requires !Deliverable(f.bytes)
    ensures var r := Run(Init(received), Unit(f) + tail).received;
      |r| <= |received| || r[|received|] != Callback(|f.bytes|, f.bytes)
  {
    hide Step, CRLF, BOUNDARY, PartHeader, Deliverable;
    PartHeaderRun(f, received);
    var s := Run(Init(received), CRLF + PartHeader(f));
    BadFrameMisses(s, f.bytes, tail, received);
    assert Unit(f) + tail == (CRLF + PartHeader(f)) + (f.bytes + CRLF + BOUNDARY + tail);
    RunConcat(Init(received), CRLF + PartHeader(f), f.bytes + CRLF + BOUNDARY + tail);
  }

  lemma {:induction false} FramesRun(frames: seq<Frame>, received: seq<Callback>)
    ensures Run(Init(received), Units(frames) + CRLF).received == received + Reports(frames)
       <==> AllDeliverable(frames)
    decreases |frames|
  {
    hide Step, CRLF, BOUNDARY, PartHeader, Deliverable, Unit, Run, Init;
    if frames == [] {
      TrailingLineEnd(received);
      assert Units([]) + CRLF == CRLF && received + Reports([]) == received;
    } else {
      var f, rest := frames[0], frames[1..];
      var report := Callback(|f.bytes|, f.bytes);
      assert Units(frames) + CRLF == Unit(f) + (Units(rest) + CRLF);
      assert Reports(frames) == [report] + Reports(rest);
      if Deliverable(f.bytes) {
        UnitRun(f, received);
        InitIsValid(received);
        RunConcat(Init(received), Unit(f), Units(rest) + CRLF);
        FramesRun(rest, received + [report]);
        assert received + [report] + Reports(rest) == received + Reports(frames);
        assert forall i :: 0 < i < |frames| ==> frames[i] == rest[i - 1];
      } else {
        BadUnit(f, Units(rest) + CRLF, received);
        assert (received + Reports(frames))[|received|] == report;
      }
    }
  }

  lemma InitIsValid(received: seq<Callback>)
    ensures Init(received).Valid()
  {
  }

  /**
    What `send_stream` writes, cut into any chunks and fed to `extract_data`, makes the
    callbacks after the first exactly the frames sent, in order, if and only if every frame
    is deliverable. The first callback carries the rest of the response header, because
    the end of the status line passes the test for an empty line.
   */
  lemma MultipartRoundTrip(frames: seq<Frame>, chunks: seq<seq<byte>>)
    requires Flatten(chunks) == Wire(frames)
    ensures RunChunks(Init([]), chunks).received == [Callback(|FIELDS|, FIELDS)] + Reports(frames)
       <==> AllDeliverable(frames)
  {
    hide Step, CRLF, BOUNDARY, Wire, Units, STATUS, FIELDS, Run, RunChunks, Flatten, Init;
    InitIsValid([]);
    ChunksDoNotMatter(Init([]), chunks);
    WireByFrame(frames);
    var a, b := STATUS + (FIELDS + CRLF + BOUNDARY), Units(frames) + CRLF;
    assert Wire(frames) == a + b;
    RunConcat(Init([]), a, b);
    PreambleRun();
    FramesRun(frames, [Callback(|FIELDS|, FIELDS)]);
  }

  /** In particular frames that fit and do not contain the boundary all arrive. */
  lemma FramesWithoutBoundaryArrive(frames: seq<Frame>, chunks: seq<seq<byte>>)
    requires Flatten(chunks) == Wire(frames)
    requires forall i :: 0 <= i < |frames| ==>
      |frames[i].bytes| <= 262121 && !Contains(frames[i].bytes)
    ensures RunChunks(Init([]), chunks).received == [Callback(|FIELDS|, FIELDS)] + Reports(frames)
  {
    BoundaryBytes();
    CrlfBytes();
    hide Fires, Recognised, Contains, CRLF, BOUNDARY, FIELDS, Wire, Flatten, RunChunks, Init, Reports;
    forall i | 0 <= i < |frames| ensures Deliverable(frames[i].bytes) {
      NoBoundaryNoFire(frames[i].bytes);
    }
    MultipartRoundTrip(frames, chunks);
  }
}
