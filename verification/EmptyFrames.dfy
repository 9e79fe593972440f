/**
  What becomes of the broadcast when `encoder_buffer_callback` ends a frame without a byte:
  it then writes, broadcasts and unlocks without having taken the mutex.
 */
module EmptyFrames {
  import opened Bits
  import opened Broadcast
  import Fragments

  // When the mutex does its work

  /** However the threads interleave, and however many of the pictures have come. */
  ghost predicate KeepsExclusion(s: State, pictures: seq<Picture>) {
    forall es: seq<Event>, n: nat ::
      n <= |pictures| && CanRun(s, es) && PictureRun(es, pictures[..n], |s.slot.buf|) ==> Exclusive(After(s, es))
  }

  ghost predicate AllIdle(s: State) {
    && s.owner == Nobody && s.producer == Grabbing
    && forall i :: 0 <= i < |s.consumers| ==> s.consumers[i].phase == Idle
  }

  lemma {:induction false} NoPictures(es: seq<Event>, capacity: nat)
    requires forall i :: 0 <= i < |es| ==> !es[i].Begin? && !es[i].EndEmpty?
    ensures PictureRun(es, [], capacity)
  {
    if es != [] {
      NoPictures(es[1..], capacity);
    }
  }

  /** One picture, with no consumer about. */
  lemma TransferOne(s: State, p: Picture) returns (es: seq<Event>)
    requires AllIdle(s) && p.Locks() && |p.Bytes()| <= |s.slot.buf|
    ensures CanRun(s, es) && PictureRun(es, [p], |s.slot.buf|)
    ensures AllIdle(After(s, es)) && |After(s, es).consumers| == |s.consumers|
    ensures |After(s, es).slot.buf| == |s.slot.buf|
  {
    hide CanRun, After, ActAll, ViewOf, Picture.Actions, Picture.Locks, Picture.Bytes, PictureRun;
    var rest := Transfer(s, p.Actions());
    NoPictures(rest, |s.slot.buf|);
    es := [Begin(p.Actions())] + rest;
    RunOfOne(Begin(p.Actions()), rest, p, |s.slot.buf|);
  }

  lemma RunOfOne(e: Event, es: seq<Event>, p: Picture, capacity: nat)
    requires PictureRun(es, [], capacity) && |p.Bytes()| <= capacity
    requires e == if p.Locks() then Begin(p.Actions()) else EndEmpty(p.Actions())
    ensures PictureRun([e] + es, [p], capacity)
  {
    hide Picture.Actions, Picture.Locks, Picture.Bytes;
    assert ([e] + es)[1..] == es && [p][1..] == [];
  }

  lemma {:induction false} PictureRunConcat(a: seq<Event>, b: seq<Event>, p: seq<Picture>, q: seq<Picture>, capacity: nat)
    requires PictureRun(a, p, capacity) && PictureRun(b, q, capacity)
    ensures PictureRun(a + b, p + q, capacity)
    decreases |a|
  {
    hide Picture.Actions, Picture.Locks, Picture.Bytes;
    if a == [] {
      assert a + b == b && p + q == q;
    } else {
      assert (a + b)[1..] == a[1..] + b;
      if a[0].Begin? || a[0].EndEmpty? {
        PictureRunConcat(a[1..], b, p[1..], q, capacity);
        assert (p + q)[1..] == p[1..] + q;
      } else {
        PictureRunConcat(a[1..], b, p, q, capacity);
      }
    }
  }

  lemma {:induction false} TransferAll(s: State, pictures: seq<Picture>) returns (es: seq<Event>)
    requires AllIdle(s) && AllLock(pictures) && AllFit(pictures, |s.slot.buf|)
    ensures CanRun(s, es) && PictureRun(es, pictures, |s.slot.buf|)
    ensures AllIdle(After(s, es)) && |After(s, es).consumers| == |s.consumers|
    ensures |After(s, es).slot.buf| == |s.slot.buf|
  {
    es := [];
    if pictures != [] {
      hide CanRun, After, PictureRun, AllIdle, Picture.Locks, Picture.Bytes;
      var n := |pictures| - 1;
      var first := TransferAll(s, pictures[..n]);
      var last := TransferOne(After(s, first), pictures[n]);
      RunsCompose(s, first, last);
      PictureRunConcat(first, last, pictures[..n], [pictures[n]], |s.slot.buf|);
      assert pictures == pictures[..n] + [pictures[n]];
      es := first + last;
    }
  }

  /** A consumer on its way to the condition variable holds the mutex while the producer ends an empty frame. */
  lemma EmptyMeetsConsumer(s: State, p: Picture)
    requires AllIdle(s) && s.consumers != [] && !p.Locks()
    ensures var es := [Lock(0), EndEmpty(p.Actions())];
      CanRun(s, es) && PictureRun(es, [p], |s.slot.buf|) && !Exclusive(After(s, es))
  {
    hide Picture.Actions, ActAll, ViewOf;
    var end := EndEmpty(p.Actions());
    var s1 := Do(s, Lock(0));
    var s2 := Do(s1, end);
    assert Holds(s2.consumers[0].phase) && !s2.producer.Grabbing?;
    Then(s1, end, []);
    Then(s, Lock(0), [end]);
    RunOfOne(end, [], p, |s.slot.buf|);
    assert [Lock(0)] + [end] == [Lock(0), end] && [end] + [] == [end];
    assert [Lock(0), end][1..] == [end];
  }

  lemma {:induction false} FirstUnlocked(pictures: seq<Picture>) returns (k: nat)
    requires !AllLock(pictures)
    ensures k < |pictures| && AllLock(pictures[..k]) && !pictures[k].Locks()
  {
    hide Picture.Locks;
    var n := |pictures| - 1;
    if AllLock(pictures[..n]) {
      k := n;
      assert forall i :: 0 <= i < n ==> pictures[..n][i] == pictures[i];
    } else {
      k := FirstUnlocked(pictures[..n]);
      assert pictures[..n][..k] == pictures[..k];
    }
  }

  lemma Refutes(s: State, pictures: seq<Picture>, n: nat, es: seq<Event>)
    requires n <= |pictures| && CanRun(s, es) && PictureRun(es, pictures[..n], |s.slot.buf|)
    requires !Exclusive(After(s, es))
    ensures !KeepsExclusion(s, pictures)
  {
    hide CanRun, After, PictureRun, Exclusive;
  }

  lemma Unlocked(s: State, pictures: seq<Picture>)
    requires Initial(s) && s.consumers != [] && AllFit(pictures, |s.slot.buf|) && !AllLock(pictures)
    ensures !KeepsExclusion(s, pictures)
  {
    assert AllIdle(s);
    var k := FirstUnlocked(pictures);
    assert AllFit(pictures[..k], |s.slot.buf|) && |pictures[k].Bytes()| == 0;
    hide *;
    var first := TransferAll(s, pictures[..k]);
    var last := [Lock(0), EndEmpty(pictures[k].Actions())];
    EmptyMeetsConsumer(After(s, first), pictures[k]);
    RunsCompose(s, first, last);
    PictureRunConcat(first, last, pictures[..k], [pictures[k]], |s.slot.buf|);
    assert pictures[..k + 1] == pictures[..k] + [pictures[k]];
    Refutes(s, pictures, k + 1, first + last);
  }

  /** The mutex does its work in all runs exactly if no frame of the encoder is empty. */
  lemma ExclusionIff(s: State, pictures: seq<Picture>)
    requires Initial(s) && s.consumers != [] && AllFit(pictures, |s.slot.buf|)
    ensures KeepsExclusion(s, pictures) <==> AllLock(pictures)
  {
    if AllLock(pictures) {
      forall es: seq<Event>, n: nat
        | n <= |pictures| && CanRun(s, es) && PictureRun(es, pictures[..n], |s.slot.buf|)
        ensures Exclusive(After(s, es))
      {
        LocksIff(es, pictures[..n], |s.slot.buf|);
        MutualExclusion(s, es);
      }
    } else {
      Unlocked(s, pictures);
    }
    hide Initial, CanRun, After, PictureRun, Exclusive, AllLock;
  }

  /** The frames that the encoder's calls complete, as pictures with any clock. */
  ghost predicate MadeBy(pictures: seq<Picture>, calls: seq<Fragments.Call>) {
    && |pictures| == |Fragments.Frames(calls)|
    && forall i :: 0 <= i < |pictures| ==> pictures[i].FromEncoder? && pictures[i].Bytes() == Fragments.Frames(calls)[i]
  }

  /** In terms of the calls. */
  lemma CallsExcludeIff(s: State, calls: seq<Fragments.Call>, pictures: seq<Picture>)
    requires Initial(s) && s.consumers != [] && MadeBy(pictures, calls) && Fragments.FitAll(calls, |s.slot.buf|)
    ensures KeepsExclusion(s, pictures) <==> Fragments.NoEmptyFrame(calls)
  {
    Fragments.NoEmptyFrameIff(calls);
    Fragments.FramesFit(calls, |s.slot.buf|);
    hide Initial, KeepsExclusion, Fragments.NoEmptyFrame, Fragments.Frames, Picture.Bytes;
    assert AllLock(pictures) <==> Fragments.NoneEmpty(Fragments.Frames(calls)) by {
      forall i | 0 <= i < |pictures| ensures pictures[i].Locks() <==> Fragments.Frames(calls)[i] != [] {
      }
    }
    ExclusionIff(s, pictures);
  }

  // A torn delivery

  const FULL_FRAME := FromEncoder([[7]], Now(5))
  const EMPTY_FRAME := FromEncoder([], Now(9))

  lemma EncoderActions()
    ensures FULL_FRAME.Actions() == CamActions([7], 5)
    ensures EMPTY_FRAME.Actions() == [SetSize(0), SetStamp(9)]
    ensures FULL_FRAME.Bytes() == [7] && EMPTY_FRAME.Bytes() == []
  {
  }

  lemma SizeTurn(s: State)
    requires s.owner == Nobody && |s.consumers| == 1 && s.consumers[0].phase == Woken
    ensures var es := [Reenter(0), ReadSize(0)];
      && CanRun(s, es)
      && After(s, es) == s.(owner := TheConsumer(0), consumers := [s.consumers[0].(phase := Sized,
           at := |s.published|, copied := [], size := s.slot.size)])
  {
    var t := Do(s, Reenter(0));
    var u := Do(t, ReadSize(0));
    Then(t, ReadSize(0), []);
    Then(s, Reenter(0), [ReadSize(0)]);
    assert [ReadSize(0)] + [] == [ReadSize(0)] && [Reenter(0)] + [ReadSize(0)] == [Reenter(0), ReadSize(0)];
    hide CanRun, After;
  }

  lemma BareTurn(s: State)
    requires s.producer == Grabbing
    ensures var es := [EndEmpty([SetSize(0), SetStamp(9)]), Fill, Fill];
      && CanRun(s, es)
      && After(s, es) == s.(slot := s.slot.(size := 0, stamp := 9), producer := Bare([]),
           grabbed := s.grabbed + [ViewOf(ActAll(s.slot, [SetSize(0), SetStamp(9)]))])
  {
    hide ActAll, ViewOf;
    var end := EndEmpty([SetSize(0), SetStamp(9)]);
    var t := Do(s, end);
    var u := Do(t, Fill);
    Then(u, Fill, []);
    Then(t, Fill, [Fill]);
    Then(s, end, [Fill, Fill]);
    hide CanRun, After;
    assert [Fill] + [] == [Fill] && [Fill] + [Fill] == [Fill, Fill] && [end] + [Fill, Fill] == [end, Fill, Fill];
  }

  /** The empty frame comes after a consumer has read the size and before it reads the time stamp. */
  lemma TearingTurn(s: State)
    requires s.owner == Nobody && s.producer == Grabbing && s.slot == Slot([7], 1, 5)
    requires |s.consumers| == 1 && s.consumers[0].phase == Woken
    ensures var es := [Reenter(0), ReadSize(0)] + [EndEmpty([SetSize(0), SetStamp(9)]), Fill, Fill];
      && CanRun(s, es)
      && var t := After(s, es);
        && t.slot == Slot([7], 0, 9) && t.producer == Bare([]) && t.published == s.published
        && t.consumers == [s.consumers[0].(phase := Sized, at := |s.published|, copied := [], size := 1)]
  {
    hide CanRun, After, ActAll, ViewOf;
    var enter := [Reenter(0), ReadSize(0)];
    SizeTurn(s);
    BareTurn(After(s, enter));
    RunsCompose(s, enter, [EndEmpty([SetSize(0), SetStamp(9)]), Fill, Fill]);
  }

  lemma TornTurn(s: State)
    requires s.slot == Slot([7], 0, 9) && s.producer == Bare([])
    requires |s.consumers| == 1 && s.consumers[0].phase == Sized && s.consumers[0].size == 1
    requires s.consumers[0].copied == []
    ensures var es := [ReadStamp(0)] + ([CopyByte(0), Deliver(0)] + [Signal]);
      && CanRun(s, es)
      && var t := After(s, es);
        && |t.consumers| == 1 && t.consumers[0].delivered == s.consumers[0].delivered + [View([7], 1, 9)]
        && t.published == s.published + [View([], 0, 9)]
  {
    var copy := [CopyByte(0), Deliver(0)];
    var t := Do(s, ReadStamp(0));
    CopyingTurn(t);
    var u := After(t, copy);
    hide CanRun, After;
    assert u.slot.buf[..0] == [];
    DoneRun(Do(u, Signal));
    Then(u, Signal, []);
    assert [Signal] + [] == [Signal];
    RunsCompose(t, copy, [Signal]);
    Then(s, ReadStamp(0), copy + [Signal]);
  }

  lemma FullPicture(rest: seq<Event>)
    requires forall i :: 0 <= i < |rest| ==> InTransfer(rest[i])
    ensures PictureRun([Begin(CamActions([7], 5))] + rest, [FULL_FRAME], 1)
  {
    EncoderActions();
    NoPictures(rest, 1);
    hide PictureRun, FULL_FRAME, Picture.Actions, Picture.Bytes, CamActions;
    RunOfOne(Begin(CamActions([7], 5)), rest, FULL_FRAME, 1);
  }

  lemma EmptyPicture()
    ensures PictureRun([Reenter(0), ReadSize(0)] + [EndEmpty([SetSize(0), SetStamp(9)]), Fill, Fill], [EMPTY_FRAME], 1)
  {
    EncoderActions();
    var enter, end := [Reenter(0), ReadSize(0)], EndEmpty([SetSize(0), SetStamp(9)]);
    NoPictures([Fill, Fill], 1);
    NoPictures(enter, 1);
    hide PictureRun, EMPTY_FRAME, Picture.Actions, Picture.Bytes;
    RunOfOne(end, [Fill, Fill], EMPTY_FRAME, 1);
    assert [end] + [Fill, Fill] == [end, Fill, Fill];
    PictureRunConcat(enter, [end, Fill, Fill], [], [EMPTY_FRAME], 1);
    assert [] + [EMPTY_FRAME] == [EMPTY_FRAME];
  }

  lemma TornPictures(s: State) returns (es: seq<Event>)
    requires s.owner == Nobody && s.producer == Grabbing && s.slot == Slot([7], 1, 5)
    requires |s.consumers| == 1 && s.consumers[0].phase == Woken
    ensures CanRun(s, es) && NoSpurious(es) && PictureRun(es, [EMPTY_FRAME], 1)
    ensures var t := After(s, es);
      && |t.consumers| == 1 && t.consumers[0].delivered == s.consumers[0].delivered + [View([7], 1, 9)]
      && t.published == s.published + [View([], 0, 9)]
  {
    hide CanRun, After, PictureRun, EMPTY_FRAME;
    var tear := [Reenter(0), ReadSize(0)] + [EndEmpty([SetSize(0), SetStamp(9)]), Fill, Fill];
    var torn := [ReadStamp(0)] + ([CopyByte(0), Deliver(0)] + [Signal]);
    TearingTurn(s);
    TornTurn(After(s, tear));
    RunsCompose(s, tear, torn);
    EmptyPicture();
    NoPictures(torn, 1);
    PictureRunConcat(tear, torn, [EMPTY_FRAME], [], 1);
    assert [EMPTY_FRAME] + [] == [EMPTY_FRAME];
    es := tear + torn;
  }

  lemma WholePicture(s: State) returns (es: seq<Event>)
    requires s.owner == Nobody && s.producer == Grabbing && s.slot == Slot([0], 0, 0)
    requires |s.consumers| == 1 && s.consumers[0].phase == Idle
    ensures CanRun(s, es) && NoSpurious(es) && PictureRun(es, [FULL_FRAME], 1)
    ensures After(s, es)
         == s.(slot := Slot([7], 1, 5), consumers := [s.consumers[0].(phase := Woken)],
               published := s.published + [View([7], 1, 5)], grabbed := s.grabbed + [View([7], 1, 5)])
  {
    hide CanRun, After, PictureRun, FULL_FRAME, CamActions;
    var wait := [Lock(0), Wait(0)];
    WaitingTurn(s);
    var rest := PublishingTurn(After(s, wait));
    var publish := [Begin(CamActions([7], 5))] + rest;
    RunsCompose(s, wait, publish);
    FullPicture(rest);
    NoPictures(wait, 1);
    PictureRunConcat(wait, publish, [], [FULL_FRAME], 1);
    assert [] + [FULL_FRAME] == [FULL_FRAME];
    es := wait + publish;
  }

  /** A frame of one byte and an empty one: the consumer gets the byte of the first with the time stamp of the second. */
  lemma EmptyFrameTears() returns (s: State, es: seq<Event>)
    ensures Initial(s) && |s.slot.buf| == 1 && CanRun(s, es) && NoSpurious(es)
    ensures PictureRun(es, [FULL_FRAME, EMPTY_FRAME], 1)
    ensures |After(s, es).consumers| == 1 && After(s, es).consumers[0].delivered == [View([7], 1, 9)]
    ensures After(s, es).published == [View([7], 1, 5), View([], 0, 9)]
  {
    var slot := Slot([0], 0, 0);
    s := State(Nobody, slot, Grabbing, [Consumer(Idle, 0, 0, [], [], [], 0)], ViewOf(slot), [], []);
    assert Initial(s);
    hide *;
    var whole := WholePicture(s);
    var torn := TornPictures(After(s, whole));
    RunsCompose(s, whole, torn);
    PictureRunConcat(whole, torn, [FULL_FRAME], [EMPTY_FRAME], 1);
    assert [FULL_FRAME] + [EMPTY_FRAME] == [FULL_FRAME, EMPTY_FRAME];
    NoneSpurious(whole, torn);
    es := whole + torn;
  }

  lemma NoneSpurious(a: seq<Event>, b: seq<Event>)
    requires NoSpurious(a) && NoSpurious(b)
    ensures NoSpurious(a + b)
  {
  }
}
