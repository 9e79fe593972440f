/**
  What the threads of the broadcast can always do: give the mutex back, and have any frame
  delivered to any client. No fairness of the scheduler is assumed; the runs are shown.
 */
module Service {
  import opened Bits
  import opened Broadcast

  /** A run from `s` to `t` in which the producer locks and nothing wakes up for no reason. */
  ghost predicate Leads(s: State, es: seq<Event>, t: State) {
    CanRun(s, es) && After(s, es) == t && AlwaysLocks(es) && NoSpurious(es)
  }

  lemma NoStep(s: State)
    ensures Leads(s, [], s)
  {
  }

  lemma OneStep(s: State, e: Event)
    requires Enabled(s, e) && !e.EndEmpty? && !e.Spurious?
    ensures Leads(s, [e], Do(s, e))
  {
    hide Enabled, Do;
    DoneRun(Do(s, e));
    Then(s, e, []);
    assert [e] + [] == [e];
  }

  lemma Join(s: State, a: seq<Event>, t: State, b: seq<Event>, u: State)
    requires Leads(s, a, t) && Leads(t, b, u)
    ensures Leads(s, a + b, u)
  {
    RunsCompose(s, a, b);
    hide CanRun, After;
  }

  // The turns of a consumer

  /** Consumer `i` with another record. */
  function With(s: State, i: nat, c: Consumer): State
    requires i < |s.consumers|
  {
    s.(consumers := s.consumers[i := c])
  }

  lemma WaitTurn(s: State, i: nat) returns (es: seq<Event>)
    requires s.owner == Nobody && i < |s.consumers| && s.consumers[i].phase == Idle
    ensures Leads(s, es, With(s, i, s.consumers[i].(phase := Waiting)))
  {
    hide Leads;
    var t := Do(s, Lock(i));
    OneStep(s, Lock(i));
    OneStep(t, Wait(i));
    assert Do(t, Wait(i)) == With(s, i, s.consumers[i].(phase := Waiting));
    Join(s, [Lock(i)], t, [Wait(i)], Do(t, Wait(i)));
    es := [Lock(i)] + [Wait(i)];
  }

  /** The bytes that are copied. */
  function Most(s: State, i: nat): nat
    requires i < |s.consumers|
  {
    if s.consumers[i].size <= |s.slot.buf| then s.consumers[i].size else |s.slot.buf|
  }

  lemma {:induction false} CopyTurn(s: State, i: nat) returns (es: seq<Event>)
    requires i < |s.consumers| && s.consumers[i].phase == Copying && |s.consumers[i].copied| <= Most(s, i)
    requires s.consumers[i].copied == s.slot.buf[..|s.consumers[i].copied|]
    ensures Leads(s, es, With(s, i, s.consumers[i].(copied := s.slot.buf[..Most(s, i)])))
    decreases Most(s, i) - |s.consumers[i].copied|
  {
    hide Leads;
    var c := s.consumers[i];
    if |c.copied| == Most(s, i) {
      assert s == With(s, i, c.(copied := s.slot.buf[..Most(s, i)]));
      NoStep(s);
      es := [];
    } else {
      var t := Do(s, CopyByte(i));
      OneStep(s, CopyByte(i));
      assert c.copied + [s.slot.buf[|c.copied|]] == s.slot.buf[..|c.copied| + 1];
      assert t == With(s, i, c.(copied := s.slot.buf[..|c.copied| + 1]));
      var rest := CopyTurn(t, i);
      var u := With(t, i, t.consumers[i].(copied := s.slot.buf[..Most(s, i)]));
      assert u == With(s, i, c.(copied := s.slot.buf[..Most(s, i)]));
      Join(s, [CopyByte(i)], t, rest, u);
      es := [CopyByte(i)] + rest;
    }
  }

  /** A consumer that has delivered one more view. */
  ghost predicate Delivered(s: State, t: State, i: nat, v: View) {
    && i < |s.consumers| == |t.consumers|
    && t.owner == Nobody && t.slot == s.slot && t.producer == s.producer && t.published == s.published
    && t.grabbed == s.grabbed && t.initial == s.initial
    && t.consumers[i].phase == Idle && t.consumers[i].delivered == s.consumers[i].delivered + [v]
    && forall j :: 0 <= j < |s.consumers| && j != i ==> t.consumers[j] == s.consumers[j]
  }

  /** From the copying on. */
  lemma FinishTurn(s: State, i: nat) returns (es: seq<Event>, t: State)
    requires i < |s.consumers| && s.consumers[i].phase == Copying && |s.consumers[i].copied| <= Most(s, i)
    requires s.consumers[i].copied == s.slot.buf[..|s.consumers[i].copied|]
    ensures Leads(s, es, t)
    ensures Delivered(s, t, i, View(s.slot.buf[..Most(s, i)], s.consumers[i].size, s.consumers[i].stamp))
  {
    hide Leads;
    var copy := CopyTurn(s, i);
    var u := With(s, i, s.consumers[i].(copied := s.slot.buf[..Most(s, i)]));
    OneStep(u, Deliver(i));
    t := Do(u, Deliver(i));
    Join(s, copy, u, [Deliver(i)], t);
    es := copy + [Deliver(i)];
  }

  lemma StampTurn(s: State, i: nat) returns (es: seq<Event>, t: State)
    requires i < |s.consumers| && s.consumers[i].phase == Sized && s.consumers[i].copied == []
    ensures Leads(s, es, t)
    ensures Delivered(s, t, i, View(s.slot.buf[..Most(s, i)], s.consumers[i].size, s.slot.stamp))
  {
    hide Leads;
    var u := Do(s, ReadStamp(i));
    OneStep(s, ReadStamp(i));
    assert u == With(s, i, s.consumers[i].(phase := Copying, stamp := s.slot.stamp));
    var rest, end := FinishTurn(u, i);
    t := end;
    Join(s, [ReadStamp(i)], u, rest, t);
    es := [ReadStamp(i)] + rest;
  }

  lemma SizeTurn(s: State, i: nat) returns (es: seq<Event>, t: State)
    requires i < |s.consumers| && s.consumers[i].phase == Entered && s.consumers[i].copied == []
    ensures Leads(s, es, t) && Delivered(s, t, i, ViewOf(s.slot))
  {
    hide Leads;
    var u := Do(s, ReadSize(i));
    OneStep(s, ReadSize(i));
    assert u == With(s, i, s.consumers[i].(phase := Sized, size := s.slot.size));
    var rest, end := StampTurn(u, i);
    t := end;
    Join(s, [ReadSize(i)], u, rest, t);
    es := [ReadSize(i)] + rest;
  }

  /** A woken consumer, with the mutex free, can take what is in the slot. */
  lemma TakeTurn(s: State, i: nat) returns (es: seq<Event>, t: State)
    requires s.owner == Nobody && i < |s.consumers| && s.consumers[i].phase == Woken
    ensures Leads(s, es, t) && Delivered(s, t, i, ViewOf(s.slot))
  {
    hide Leads, ViewOf;
    var u := Do(s, Reenter(i));
    OneStep(s, Reenter(i));
    var rest, end := SizeTurn(u, i);
    t := end;
    Join(s, [Reenter(i)], u, rest, t);
    es := [Reenter(i)] + rest;
  }

  // From every reachable state

  /** A consumer that has been woken can be given the frame published last as soon as the mutex is free. */
  lemma WokenIsServed(s: State, es: seq<Event>, i: nat) returns (more: seq<Event>, t: State)
    requires Initial(s) && CanRun(s, es) && AlwaysLocks(es)
    requires var u := After(s, es); u.owner == Nobody && i < |u.consumers| && u.consumers[i].phase == Woken
    ensures var u := After(s, es); Leads(u, more, t) && Delivered(u, t, i, Published(u, |u.published|))
  {
    InvInitially(s);
    RunKeepsInv(s, es);
    var u := After(s, es);
    SlotIsPublished(u);
    hide *;
    more, t := TakeTurn(u, i);
  }

  lemma SlotIsPublished(s: State)
    requires Inv(s) && s.owner == Nobody
    ensures s.producer == Grabbing && ViewOf(s.slot) == Published(s, |s.published|)
  {
  }

  /** Whoever holds the mutex can give it back. */
  lemma FreeMutex(s: State, n: nat) returns (es: seq<Event>, t: State)
    requires Inv(s) && n < |s.consumers|
    ensures Leads(s, es, t) && t.owner == Nobody && |t.consumers| == |s.consumers| && |t.slot.buf| == |s.slot.buf|
    ensures s.consumers[n].delivered <= t.consumers[n].delivered
  {
    hide Leads, ViewOf;
    match s.owner
    case Nobody =>
      NoStep(s);
      es, t := [], s;
    case TheProducer =>
      es, t := FinishTransfer(s, n);
    case TheConsumer(i) =>
      es, t := LeaveTurn(s, i, n);
  }

  lemma LeaveTurn(s: State, i: nat, n: nat) returns (es: seq<Event>, t: State)
    requires Inv(s) && s.owner == TheConsumer(i) && n < |s.consumers|
    ensures Leads(s, es, t) && t.owner == Nobody && |t.consumers| == |s.consumers| && |t.slot.buf| == |s.slot.buf|
    ensures s.consumers[n].delivered <= t.consumers[n].delivered
  {
    hide Leads;
    var c := s.consumers[i];
    assert Holds(c.phase) && CopyOk(s, c);
    match c.phase
    case Locked =>
      OneStep(s, Wait(i));
      es, t := [Wait(i)], Do(s, Wait(i));
    case Entered =>
      es, t := SizeTurn(s, i);
    case Sized =>
      es, t := StampTurn(s, i);
    case Copying =>
      assert c.copied == s.slot.buf[..|c.copied|];
      es, t := FinishTurn(s, i);
  }

  lemma FinishTransfer(s: State, n: nat) returns (es: seq<Event>, t: State)
    requires Inv(s) && s.owner == TheProducer && n < |s.consumers|
    ensures Leads(s, es, t) && t.owner == Nobody && |t.consumers| == |s.consumers| && |t.slot.buf| == |s.slot.buf|
    ensures s.consumers[n].delivered <= t.consumers[n].delivered
  {
    hide ViewOf, CanRun, After, ActAll;
    if s.producer == Signalled {
      OneStep(s, Release);
      es, t := [Release], Do(s, Release);
    } else {
      var fills := FillAll(s);
      var u := After(s, fills);
      SignalAndRelease(u);
      t := After(u, [Signal] + [Release]);
      RunsCompose(s, fills, [Signal] + [Release]);
      es := fills + ([Signal] + [Release]);
    }
  }

  /** With the mutex free a consumer can go to wait. */
  lemma GoToWait(s: State, i: nat) returns (es: seq<Event>, t: State)
    requires Inv(s) && s.owner == Nobody && i < |s.consumers|
    ensures Leads(s, es, t) && t.owner == Nobody && t.producer == Grabbing && t.slot == s.slot && t.published == s.published
    ensures |t.consumers| == |s.consumers| && t.consumers[i].phase == Waiting
    ensures s.consumers[i].delivered <= t.consumers[i].delivered
  {
    hide Leads, ViewOf;
    assert !Holds(s.consumers[i].phase);
    match s.consumers[i].phase
    case Waiting =>
      NoStep(s);
      es, t := [], s;
    case Idle =>
      es := WaitTurn(s, i);
      t := With(s, i, s.consumers[i].(phase := Waiting));
    case Woken =>
      var take, u := TakeTurn(s, i);
      var wait := WaitTurn(u, i);
      t := With(u, i, u.consumers[i].(phase := Waiting));
      Join(s, take, u, wait, t);
      es := take + wait;
  }

  /** A frame for a consumer that waits. */
  lemma ServeWaiting(s: State, i: nat, p: Picture) returns (es: seq<Event>, t: State)
    requires s.owner == Nobody && s.producer == Grabbing && i < |s.consumers| && s.consumers[i].phase == Waiting
    requires |p.Bytes()| <= |s.slot.buf|
    ensures Leads(s, es, t) && |t.consumers| == |s.consumers|
    ensures var v := View(p.Bytes(), |p.Bytes()|, p.Stamp(s.slot.stamp));
      t.published == s.published + [v] && t.consumers[i].delivered == s.consumers[i].delivered + [v]
  {
    PicturePublishes(s.slot, p);
    hide CanRun, After, ActAll, ViewOf, Picture.Actions, Picture.Bytes, Picture.Stamp;
    var rest := Transfer(s, p.Actions());
    var publish := [Begin(p.Actions())] + rest;
    var u := After(s, publish);
    var take, end := TakeTurn(u, i);
    t := end;
    Join(s, publish, u, take, t);
    es := publish + take;
  }

  /**
    From every state that is reached while the producer locks, and for every client and every
    frame that fits, there is a run at whose end the client has just been given the frame.
   */
  lemma EveryoneCanBeServed(s: State, es: seq<Event>, i: nat, p: Picture) returns (more: seq<Event>, t: State)
    requires Initial(s) && CanRun(s, es) && AlwaysLocks(es) && i < |After(s, es).consumers|
    requires |p.Bytes()| <= |After(s, es).slot.buf|
    ensures Leads(After(s, es), more, t) && i < |t.consumers|
    ensures After(s, es).consumers[i].delivered < t.consumers[i].delivered
    ensures var last := t.consumers[i].delivered[|t.consumers[i].delivered| - 1];
      last.bytes == p.Bytes() && last.size == |p.Bytes()|
  {
    InvInitially(s);
    RunKeepsInv(s, es);
    var u := After(s, es);
    hide *;
    var free, v := FreeMutex(u, i);
    LeadsKeepsInv(u, free, v);
    var wait, w := GoToWait(v, i);
    var serve, end := ServeWaiting(w, i, p);
    t := end;
    Join(u, free, v, wait, w);
    Join(u, free + wait, w, serve, t);
    more := free + wait + serve;
  }

  lemma LeadsKeepsInv(s: State, es: seq<Event>, t: State)
    requires Inv(s) && Leads(s, es, t)
    ensures Inv(t)
  {
    RunKeepsInv(s, es);
  }
}
