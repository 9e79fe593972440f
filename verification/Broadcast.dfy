/**
  The frame broadcast between one input plugin and any number of output threads: a mutex, a
  condition variable and one frame slot (`cam_thread`, `encoder_buffer_callback` and
  `on_image_received` on one side, `send_stream` on the other), as a step relation.
 */
module Broadcast {
  import opened Bits

  /** The shared slot: `buf`, `size` and `timestamp` of an input. */
  datatype Slot = Slot(buf: seq<byte>, size: nat, stamp: int)

  /** What a consumer can take out of the slot. */
  datatype View = View(bytes: seq<byte>, size: nat, stamp: int)

  function ViewOf(s: Slot): View {
    View(s.buf[..if s.size <= |s.buf| then s.size else |s.buf|], s.size, s.stamp)
  }

  /** What a producer does to the slot while it holds the mutex. */
  datatype Action = Write(offset: nat, data: seq<byte>) | SetSize(size: nat) | SetStamp(stamp: int)

  function Fits(buf: seq<byte>, a: Action): bool {
    a.Write? ==> a.offset + |a.data| <= |buf|
  }

  function Act(s: Slot, a: Action): (r: Slot)
    ensures |r.buf| == |s.buf|
  {
    match a
    case Write(offset, data) =>
      if Fits(s.buf, a) then s.(buf := s.buf[..offset] + data + s.buf[offset + |data|..]) else s
    case SetSize(size) => s.(size := size)
    case SetStamp(stamp) => s.(stamp := stamp)
  }

  function ActAll(s: Slot, actions: seq<Action>): (r: Slot)
    ensures |r.buf| == |s.buf|
    decreases |actions|
  {
    if actions == [] then s else ActAll(Act(s, actions[0]), actions[1..])
  }

  // The threads

  /** `Bare` is a frame end without a byte, for which `encoder_buffer_callback` has not taken the mutex. */
  datatype Producer =
    | Grabbing
    | Filling(rest: seq<Action>)  // holds the mutex
    | Bare(rest: seq<Action>)     // does not hold it
    | Signalled                   // has broadcast, about to unlock

  datatype Phase =
    | Idle
    | Locked      // holds the mutex, about to wait
    | Waiting     // on the condition variable
    | Woken       // wants the mutex back
    | Entered     // holds the mutex again, nothing read yet
    | Sized       // has read size
    | Copying     // has read timestamp, is copying bytes

  /**
    `delivered` are the copies that left the critical section. History: how many frames had
    been published when a copy was begun (`at`, and `seen` for the delivered ones).
   */
  datatype Consumer = Consumer(phase: Phase, size: nat, stamp: int, copied: seq<byte>,
                               delivered: seq<View>, seen: seq<nat>, at: nat)

  datatype Owner = Nobody | TheProducer | TheConsumer(i: nat)

  datatype State = State(owner: Owner, slot: Slot, producer: Producer, consumers: seq<Consumer>,
                         initial: View, published: seq<View>, grabbed: seq<View>)

  datatype Event =
    | Begin(actions: seq<Action>)     // the producer has a frame and takes the mutex
    | EndEmpty(actions: seq<Action>)  // it ends a frame for which it has not taken the mutex
    | Fill
    | Signal
    | Release
    | Lock(i: nat)
    | Wait(i: nat)
    | Spurious(i: nat)
    | Reenter(i: nat)
    | ReadSize(i: nat)
    | ReadStamp(i: nat)
    | CopyByte(i: nat)
    | Deliver(i: nat)

  predicate ByProducer(e: Event) {
    e.Begin? || e.EndEmpty? || e.Fill? || e.Signal? || e.Release?
  }

  predicate Holds(p: Phase) {
    p == Locked || p == Entered || p == Sized || p == Copying
  }

  ghost predicate Enabled(s: State, e: Event) {
    match e
    case Begin(actions) => s.producer.Grabbing? && s.owner == Nobody
    case EndEmpty(actions) => s.producer.Grabbing?
    case Fill => (s.producer.Filling? || s.producer.Bare?) && s.producer.rest != []
    case Signal => (s.producer.Filling? || s.producer.Bare?) && s.producer.rest == []
    case Release => s.producer.Signalled?
    case Lock(i) => i < |s.consumers| && s.consumers[i].phase == Idle && s.owner == Nobody
    case Wait(i) => i < |s.consumers| && s.consumers[i].phase == Locked
    case Spurious(i) => i < |s.consumers| && s.consumers[i].phase == Waiting
    case Reenter(i) => i < |s.consumers| && s.consumers[i].phase == Woken && s.owner == Nobody
    case ReadSize(i) => i < |s.consumers| && s.consumers[i].phase == Entered
    case ReadStamp(i) => i < |s.consumers| && s.consumers[i].phase == Sized
    case CopyByte(i) =>
      i < |s.consumers| && s.consumers[i].phase == Copying
      && |s.consumers[i].copied| < s.consumers[i].size && |s.consumers[i].copied| < |s.slot.buf|
    case Deliver(i) =>
      i < |s.consumers| && s.consumers[i].phase == Copying
      && (|s.consumers[i].copied| == s.consumers[i].size || |s.consumers[i].copied| == |s.slot.buf|)
  }

  /** pthread_cond_broadcast wakes every waiting thread. */
  ghost function WakeAll(cs: seq<Consumer>): (r: seq<Consumer>)
    ensures |r| == |cs|
  {
    seq(|cs|, i requires 0 <= i < |cs| => if cs[i].phase == Waiting then cs[i].(phase := Woken) else cs[i])
  }

  ghost function Do(s: State, e: Event): State
    requires Enabled(s, e)
  {
    match e
    case Begin(actions) =>
      s.(owner := TheProducer, producer := Filling(actions), grabbed := s.grabbed + [ViewOf(ActAll(s.slot, actions))])
    case EndEmpty(actions) =>
      s.(producer := Bare(actions), grabbed := s.grabbed + [ViewOf(ActAll(s.slot, actions))])
    case Fill =>
      s.(slot := Act(s.slot, s.producer.rest[0]), producer := s.producer.(rest := s.producer.rest[1..]))
    case Signal =>
      s.(producer := Signalled, consumers := WakeAll(s.consumers), published := s.published + [ViewOf(s.slot)])
    case Release => s.(owner := Nobody, producer := Grabbing)
    case Lock(i) => s.(owner := TheConsumer(i), consumers := s.consumers[i := s.consumers[i].(phase := Locked)])
    case Wait(i) => s.(owner := Nobody, consumers := s.consumers[i := s.consumers[i].(phase := Waiting)])
    case Spurious(i) => s.(consumers := s.consumers[i := s.consumers[i].(phase := Woken)])
    case Reenter(i) =>
      s.(owner := TheConsumer(i),
         consumers := s.consumers[i := s.consumers[i].(phase := Entered, at := |s.published|, copied := [])])
    case ReadSize(i) => s.(consumers := s.consumers[i := s.consumers[i].(phase := Sized, size := s.slot.size)])
    case ReadStamp(i) => s.(consumers := s.consumers[i := s.consumers[i].(phase := Copying, stamp := s.slot.stamp)])
    case CopyByte(i) =>
      var c := s.consumers[i];
      s.(consumers := s.consumers[i := c.(copied := c.copied + [s.slot.buf[|c.copied|]])])
    case Deliver(i) =>
      var c := s.consumers[i];
      s.(owner := Nobody,
         consumers := s.consumers[i := c.(phase := Idle, delivered := c.delivered + [View(c.copied, c.size, c.stamp)],
                                          seen := c.seen + [c.at])])
  }

  ghost predicate CanRun(s: State, es: seq<Event>)
    decreases |es|
  {
    es == [] || (Enabled(s, es[0]) && CanRun(Do(s, es[0]), es[1..]))
  }

  ghost function After(s: State, es: seq<Event>): State
    requires CanRun(s, es)
    decreases |es|
  {
    if es == [] then s else After(Do(s, es[0]), es[1..])
  }

  /** The n-th published frame; before the first one the slot holds what it was created with. */
  function Published(s: State, n: nat): View
    requires n <= |s.published|
  {
    if n == 0 then s.initial else s.published[n - 1]
  }

  ghost predicate Initial(s: State) {
    && s.owner == Nobody && s.producer == Grabbing && s.published == [] && s.grabbed == []
    && s.initial == ViewOf(s.slot)
    && forall i :: 0 <= i < |s.consumers| ==>
         s.consumers[i].phase == Idle && s.consumers[i].delivered == [] && s.consumers[i].seen == []
  }

  // Invariants

  /** A consumer inside the critical section has copied part of the frame that is in the slot. */
  ghost predicate CopyOk(s: State, c: Consumer) {
    && (c.phase == Entered || c.phase == Sized || c.phase == Copying ==> c.at == |s.published|)
    && (c.phase == Entered || c.phase == Sized ==> c.copied == [])
    && (c.phase == Sized || c.phase == Copying ==> c.size == s.slot.size)
    && (c.phase == Copying ==>
        && c.stamp == s.slot.stamp
        && c.copied <= ViewOf(s.slot).bytes)
  }

  ghost predicate DeliveredOk(s: State, c: Consumer) {
    && |c.seen| == |c.delivered|
    && (forall k :: 0 <= k < |c.seen| ==> c.seen[k] <= |s.published| && c.delivered[k] == Published(s, c.seen[k]))
    && (forall j, k :: 0 <= j < k < |c.seen| ==> c.seen[j] <= c.seen[k])
  }

  ghost predicate ConsumersOk(s: State) {
    && (s.owner.TheConsumer? ==> s.owner.i < |s.consumers|)
    && forall i {:trigger s.consumers[i]} :: 0 <= i < |s.consumers| ==>
      && (Holds(s.consumers[i].phase) <==> s.owner == TheConsumer(i))
      && CopyOk(s, s.consumers[i])
      && DeliveredOk(s, s.consumers[i])
  }

  ghost predicate ProducerOk(s: State) {
    && (s.owner == TheProducer <==> !s.producer.Grabbing?) && !s.producer.Bare?
    && (match s.producer
        case Filling(rest) => s.grabbed == s.published + [ViewOf(ActAll(s.slot, rest))]
        case _ => s.grabbed == s.published && ViewOf(s.slot) == Published(s, |s.published|))
  }

  ghost predicate Inv(s: State) {
    ConsumersOk(s) && ProducerOk(s)
  }

  lemma InvInitially(s: State)
    requires Initial(s)
    ensures Inv(s)
  {
  }

  lemma ProducerKeepsInv(s: State, e: Event)
    requires Inv(s) && Enabled(s, e) && ByProducer(e) && !e.EndEmpty?
    ensures Inv(Do(s, e))
  {
    hide Act, ViewOf;
    var t := Do(s, e);
    forall i {:trigger t.consumers[i]} | 0 <= i < |t.consumers|
      ensures (Holds(t.consumers[i].phase) <==> t.owner == TheConsumer(i))
        && CopyOk(t, t.consumers[i]) && DeliveredOk(t, t.consumers[i])
    {
      assert Holds(s.consumers[i].phase) <==> s.owner == TheConsumer(i);
      assert DeliveredOk(s, s.consumers[i]);
    }
  }

  lemma ActingCopies(s: State, e: Event)
    requires Inv(s) && Enabled(s, e) && e.CopyByte?
    ensures CopyOk(Do(s, e), Do(s, e).consumers[e.i]) && DeliveredOk(Do(s, e), Do(s, e).consumers[e.i])
  {
    assert CopyOk(s, s.consumers[e.i]) && DeliveredOk(s, s.consumers[e.i]);
    assert Holds(s.consumers[e.i].phase) <==> s.owner == TheConsumer(e.i);
  }

  lemma ActingDelivers(s: State, e: Event)
    requires Inv(s) && Enabled(s, e) && e.Deliver?
    ensures CopyOk(Do(s, e), Do(s, e).consumers[e.i]) && DeliveredOk(Do(s, e), Do(s, e).consumers[e.i])
  {
    assert CopyOk(s, s.consumers[e.i]) && DeliveredOk(s, s.consumers[e.i]);
    assert Holds(s.consumers[e.i].phase) <==> s.owner == TheConsumer(e.i);
  }

  lemma ActingConsumer(s: State, e: Event)
    requires Inv(s) && Enabled(s, e) && !ByProducer(e)
    ensures CopyOk(Do(s, e), Do(s, e).consumers[e.i]) && DeliveredOk(Do(s, e), Do(s, e).consumers[e.i])
  {
    if e.CopyByte? {
      ActingCopies(s, e);
    } else if e.Deliver? {
      ActingDelivers(s, e);
    } else {
      hide ViewOf;
      assert CopyOk(s, s.consumers[e.i]) && DeliveredOk(s, s.consumers[e.i]);
      assert Holds(s.consumers[e.i].phase) <==> s.owner == TheConsumer(e.i);
    }
  }

  lemma OtherConsumer(s: State, e: Event, i: nat)
    requires Inv(s) && Enabled(s, e) && !ByProducer(e) && i < |s.consumers| && i != e.i
    ensures var t := Do(s, e);
      && (Holds(t.consumers[i].phase) <==> t.owner == TheConsumer(i))
      && CopyOk(t, t.consumers[i]) && DeliveredOk(t, t.consumers[i])
  {
    hide ViewOf;
    assert CopyOk(s, s.consumers[i]) && DeliveredOk(s, s.consumers[i]);
    assert Holds(s.consumers[i].phase) <==> s.owner == TheConsumer(i);
  }

  lemma ConsumerKeepsInv(s: State, e: Event)
    requires Inv(s) && Enabled(s, e) && !ByProducer(e)
    ensures Inv(Do(s, e))
  {
    ActingConsumer(s, e);
    hide ViewOf, CopyOk, DeliveredOk;
    forall i {:trigger Do(s, e).consumers[i]} | 0 <= i < |s.consumers|
      ensures var t := Do(s, e);
        && (Holds(t.consumers[i].phase) <==> t.owner == TheConsumer(i))
        && CopyOk(t, t.consumers[i]) && DeliveredOk(t, t.consumers[i])
    {
      if i != e.i {
        OtherConsumer(s, e, i);
      } else {
        assert Holds(s.consumers[i].phase) <==> s.owner == TheConsumer(i);
      }
    }
  }

  /** The producer takes the mutex for every frame. */
  ghost predicate AlwaysLocks(es: seq<Event>) {
    forall i :: 0 <= i < |es| ==> !es[i].EndEmpty?
  }

  lemma {:induction false} RunKeepsInv(s: State, es: seq<Event>)
    requires Inv(s) && CanRun(s, es) && AlwaysLocks(es)
    ensures Inv(After(s, es))
    decreases |es|
  {
    hide Inv, Enabled, Do;
    if es != [] {
      var e := es[0];
      if ByProducer(e) {
        ProducerKeepsInv(s, e);
      } else {
        ConsumerKeepsInv(s, e);
      }
      RunKeepsInv(Do(s, e), es[1..]);
    }
  }

  // What holds over every run in which the producer always locks

  /** At most one thread is inside a critical section of the mutex. */
  ghost predicate Exclusive(t: State) {
    && (forall i :: 0 <= i < |t.consumers| && Holds(t.consumers[i].phase) ==> t.producer.Grabbing?)
    && forall i, j :: 0 <= i < j < |t.consumers| ==> !Holds(t.consumers[i].phase) || !Holds(t.consumers[j].phase)
  }

  lemma MutualExclusion(s: State, es: seq<Event>)
    requires Initial(s) && CanRun(s, es) && AlwaysLocks(es)
    ensures Exclusive(After(s, es))
  {
    InvInitially(s);
    RunKeepsInv(s, es);
    hide Enabled, Do, CanRun, Initial;
    InvIsExclusive(After(s, es));
  }

  lemma InvIsExclusive(t: State)
    requires Inv(t)
    ensures Exclusive(t)
  {
    hide CopyOk, DeliveredOk;
    forall i | 0 <= i < |t.consumers| && Holds(t.consumers[i].phase) ensures t.owner == TheConsumer(i) {
    }
  }

  /**
    Every delivered triple is one whole published frame, or the slot as it was created if none
    had been published; each consumer gets frames in the order of publication, and what is
    published is what the producer grabbed, in order.
   */
  lemma DeliveredFramesAreWhole(s: State, es: seq<Event>, i: nat)
    requires Initial(s) && CanRun(s, es) && AlwaysLocks(es) && i < |After(s, es).consumers|
    ensures var t := After(s, es); var c := t.consumers[i];
      && |c.seen| == |c.delivered|
      && (forall k :: 0 <= k < |c.seen| ==> c.seen[k] <= |t.published| && c.delivered[k] == Published(t, c.seen[k]))
      && (forall j, k :: 0 <= j < k < |c.seen| ==> c.seen[j] <= c.seen[k])
      && t.published <= t.grabbed && |t.grabbed| <= |t.published| + 1
  {
    InvInitially(s);
    RunKeepsInv(s, es);
    hide Enabled, Do;
    assert DeliveredOk(After(s, es), After(s, es).consumers[i]);
  }

  // Who is woken, and served

  /** A broadcast wakes every consumer that waits, and changes no other. */
  lemma SignalWakesAll(s: State)
    requires Enabled(s, Signal)
    ensures |Do(s, Signal).consumers| == |s.consumers|
    ensures forall i :: 0 <= i < |s.consumers| ==>
      Do(s, Signal).consumers[i]
      == if s.consumers[i].phase == Waiting then s.consumers[i].(phase := Woken) else s.consumers[i]
  {
    hide ViewOf;
  }

  /** Consumer `i` has gone to wait at or behind place `k`. */
  ghost predicate WentToWait(es: seq<Event>, i: nat, k: nat) {
    exists m :: k <= m < |es| && es[m] == Wait(i)
  }

  lemma WaitStep(s: State, e: Event, i: nat)
    requires Enabled(s, e) && i < |s.consumers|
    ensures i < |Do(s, e).consumers|
    ensures Do(s, e).consumers[i].phase == Waiting ==> e == Wait(i) || (s.consumers[i].phase == Waiting && !e.Signal?)
  {
    hide ViewOf, Act, ActAll;
  }

  /** A consumer that waits at the end of a run has gone to wait behind every broadcast of the run. */
  lemma {:induction false} WaitingIsLater(s: State, es: seq<Event>, i: nat, n: nat, k: nat)
    requires CanRun(s, es) && i < |s.consumers| && k < n <= |es| && es[k].Signal?
    ensures CanRun(s, es[..n]) && i < |After(s, es[..n]).consumers|
    ensures After(s, es[..n]).consumers[i].phase == Waiting ==> WentToWait(es[..n], i, k + 1)
    decreases n
  {
    hide Enabled, Do;
    RunPrefix(s, es, n - 1);
    SameConsumers(s, es[..n - 1]);
    var t := After(s, es[..n - 1]);
    WaitStep(t, es[n - 1], i);
    hide CanRun, After;
    if k < n - 1 {
      WaitingIsLater(s, es, i, n - 1, k);
      if WentToWait(es[..n - 1], i, k + 1) {
        var m :| k + 1 <= m < n - 1 && es[..n - 1][m] == Wait(i);
        assert es[..n][m] == Wait(i);
      }
      if es[n - 1] == Wait(i) {
        assert es[..n][n - 1] == Wait(i);
      }
    }
  }

  lemma {:induction false} SameConsumers(s: State, es: seq<Event>)
    requires CanRun(s, es)
    ensures |After(s, es).consumers| == |s.consumers|
    decreases |es|
  {
    if es != [] {
      SameConsumers(Do(s, es[0]), es[1..]);
    }
    hide Enabled;
  }

  // Without spurious wake-ups

  ghost predicate NoSpurious(es: seq<Event>) {
    forall k :: 0 <= k < |es| ==> !es[k].Spurious?
  }

  /** Since the last delivery at least one frame has been published when a consumer is awake. */
  ghost predicate FreshOk(s: State, c: Consumer) {
    && (forall k :: 0 <= k < |c.seen| ==> 1 <= c.seen[k] <= |s.published|)
    && (forall j, k :: 0 <= j < k < |c.seen| ==> c.seen[j] < c.seen[k])
    && (c.phase == Woken ==> |s.published| >= 1 && forall k :: 0 <= k < |c.seen| ==> c.seen[k] < |s.published|)
    && (c.phase == Entered || c.phase == Sized || c.phase == Copying ==>
        1 <= c.at <= |s.published| && forall k :: 0 <= k < |c.seen| ==> c.seen[k] < c.at)
  }

  ghost predicate AllFresh(s: State) {
    forall i {:trigger s.consumers[i]} :: 0 <= i < |s.consumers| ==> FreshOk(s, s.consumers[i])
  }

  lemma ActingKeepsFresh(s: State, e: Event)
    requires AllFresh(s) && Enabled(s, e) && !e.Spurious? && !ByProducer(e)
    ensures FreshOk(Do(s, e), Do(s, e).consumers[e.i])
  {
    hide ViewOf;
    assert FreshOk(s, s.consumers[e.i]);
  }

  lemma StepKeepsFresh(s: State, e: Event)
    requires AllFresh(s) && Enabled(s, e) && !e.Spurious?
    ensures AllFresh(Do(s, e))
  {
    hide ViewOf, Act, ActAll;
    if !ByProducer(e) {
      ActingKeepsFresh(s, e);
    }
    var t := Do(s, e);
    forall i {:trigger t.consumers[i]} | 0 <= i < |t.consumers| ensures FreshOk(t, t.consumers[i]) {
      assert FreshOk(s, s.consumers[i]);
      if ByProducer(e) || i != e.i {
        WokenStaysFresh(s, t, s.consumers[i], t.consumers[i]);
      }
    }
  }

  /** A consumer that does not act keeps its history; more frames can only help. */
  lemma WokenStaysFresh(s: State, t: State, c: Consumer, d: Consumer)
    requires FreshOk(s, c) && |s.published| <= |t.published|
    requires d == c || (c.phase == Waiting && |s.published| < |t.published| && d == c.(phase := Woken))
    ensures FreshOk(t, d)
  {
  }

  lemma {:induction false} RunKeepsFresh(s: State, es: seq<Event>)
    requires AllFresh(s) && CanRun(s, es) && NoSpurious(es)
    ensures AllFresh(After(s, es))
    decreases |es|
  {
    hide AllFresh, Enabled, Do;
    if es != [] {
      StepKeepsFresh(s, es[0]);
      RunKeepsFresh(Do(s, es[0]), es[1..]);
    }
  }

  /** Without spurious wake-ups no consumer sees a frame twice, or the slot before the first frame. */
  lemma NoFrameTwice(s: State, es: seq<Event>, i: nat)
    requires Initial(s) && CanRun(s, es) && NoSpurious(es) && i < |After(s, es).consumers|
    ensures var c := After(s, es).consumers[i];
      && (forall k :: 0 <= k < |c.seen| ==> c.seen[k] >= 1)
      && (forall j, k :: 0 <= j < k < |c.seen| ==> c.seen[j] < c.seen[k])
  {
    RunKeepsFresh(s, es);
    assert FreshOk(After(s, es), After(s, es).consumers[i]);
  }

  // With spurious wake-ups

  /** How many of the first `n` events are broadcasts. */
  function Signals(es: seq<Event>, n: nat): nat
    requires n <= |es|
  {
    if n == 0 then 0 else Signals(es, n - 1) + if es[n - 1].Signal? then 1 else 0
  }

  /** The last place before `n` where consumer `i` has come back from waiting. */
  function LastEntry(es: seq<Event>, i: nat, n: nat): (p: nat)
    requires n <= |es|
    ensures p <= n
  {
    if n == 0 then 0 else if es[n - 1] == Reenter(i) then n - 1 else LastEntry(es, i, n - 1)
  }

  /** The places where it has come back and then delivered, in the order of the deliveries. */
  function Entries(es: seq<Event>, i: nat, n: nat): (p: seq<nat>)
    requires n <= |es|
    ensures forall k :: 0 <= k < |p| ==> p[k] <= n
  {
    if n == 0 then []
    else if es[n - 1] == Deliver(i) then Entries(es, i, n - 1) + [LastEntry(es, i, n - 1)]
    else Entries(es, i, n - 1)
  }

  ghost predicate SignalBetween(es: seq<Event>, a: nat, b: nat) {
    exists m :: a <= m < b && m < |es| && es[m].Signal?
  }

  lemma {:induction false} SignalsBetween(es: seq<Event>, a: nat, b: nat)
    requires a <= |es| && b <= |es|
    ensures Signals(es, a) < Signals(es, b) <==> SignalBetween(es, a, b)
    ensures a <= b ==> Signals(es, a) <= Signals(es, b)
    decreases a + b, if b < a then 1 else 0
  {
    if a < b {
      SignalsBetween(es, a, b - 1);
      if SignalBetween(es, a, b - 1) {
        var m :| a <= m < b - 1 && m < |es| && es[m].Signal?;
        assert SignalBetween(es, a, b);
      }
      if es[b - 1].Signal? {
        assert SignalBetween(es, a, b);
      }
    } else if b < a {
      SignalsBetween(es, b, a);
    }
  }

  /** What a consumer has seen is how often a frame had been signalled when it came back. */
  ghost predicate History(t: State, es: seq<Event>, i: nat, n: nat) {
    && n <= |es| && i < |t.consumers| && |t.published| == Signals(es, n)
    && var c, e := t.consumers[i], Entries(es, i, n);
      && (c.phase == Entered || c.phase == Sized || c.phase == Copying ==> c.at == Signals(es, LastEntry(es, i, n)))
      && |c.seen| == |e| && forall k :: 0 <= k < |e| ==> c.seen[k] == Signals(es, e[k])
  }

  lemma HistoryStep(t: State, es: seq<Event>, i: nat, n: nat)
    requires n < |es| && Enabled(t, es[n]) && History(t, es, i, n)
    ensures History(Do(t, es[n]), es, i, n + 1)
  {
    hide ViewOf, Act, ActAll;
  }

  lemma {:induction false} RunPrefix(s: State, es: seq<Event>, n: nat)
    requires CanRun(s, es) && n < |es|
    ensures CanRun(s, es[..n]) && Enabled(After(s, es[..n]), es[n])
    ensures CanRun(s, es[..n + 1]) && After(s, es[..n + 1]) == Do(After(s, es[..n]), es[n])
    decreases n
  {
    hide Enabled, Do;
    if n == 0 {
      assert es[..1][1..] == [];
    } else {
      RunPrefix(Do(s, es[0]), es[1..], n - 1);
      assert es[..n][1..] == es[1..][..n - 1] && es[..n + 1][1..] == es[1..][..n];
    }
  }

  lemma {:induction false} RunKeepsHistory(s: State, es: seq<Event>, i: nat, n: nat)
    requires Initial(s) && CanRun(s, es) && i < |s.consumers| && n <= |es|
    ensures CanRun(s, es[..n]) && History(After(s, es[..n]), es, i, n)
  {
    if n == 0 {
      assert es[..0] == [];
    } else {
      RunKeepsHistory(s, es, i, n - 1);
      RunPrefix(s, es, n - 1);
      hide History, Enabled, Do, CanRun, After;
      HistoryStep(After(s, es[..n - 1]), es, i, n - 1);
    }
  }

  /**
    In any run, with any spurious wake-ups: each delivery is of the frame that was signalled
    last before the consumer came back from waiting, so no frame is delivered twice if and only
    if a frame is signalled between any two of the returns that led to deliveries.
   */
  lemma FramesOnceIff(s: State, es: seq<Event>, i: nat)
    requires Initial(s) && CanRun(s, es) && i < |s.consumers|
    ensures i < |After(s, es).consumers|
    ensures var seen, e := After(s, es).consumers[i].seen, Entries(es, i, |es|);
      && |seen| == |e| && (forall k :: 0 <= k < |e| ==> seen[k] == Signals(es, e[k]))
      && ((forall j, k :: 0 <= j < k < |seen| ==> seen[j] < seen[k])
          <==> forall j, k :: 0 <= j < k < |e| ==> SignalBetween(es, e[j], e[k]))
  {
    RunKeepsHistory(s, es, i, |es|);
    assert es[..|es|] == es;
    var seen, e := After(s, es).consumers[i].seen, Entries(es, i, |es|);
    hide CanRun, After, Initial;
    forall j, k | 0 <= j < k < |e| ensures seen[j] < seen[k] <==> SignalBetween(es, e[j], e[k]) {
      SignalsBetween(es, e[j], e[k]);
    }
    hide SignalBetween, Signals;
  }

  lemma Then(s: State, e: Event, es: seq<Event>)
    requires Enabled(s, e) && CanRun(Do(s, e), es)
    ensures CanRun(s, [e] + es) && After(s, [e] + es) == After(Do(s, e), es)
  {
    hide Enabled, Do;
    assert ([e] + es)[1..] == es;
  }

  lemma {:induction false} RunsCompose(s: State, a: seq<Event>, b: seq<Event>)
    requires CanRun(s, a) && CanRun(After(s, a), b)
    ensures CanRun(s, a + b) && After(s, a + b) == After(After(s, a), b)
    decreases |a|
  {
    hide Enabled, Do;
    if a == [] {
      assert a + b == b;
    } else {
      RunsCompose(Do(s, a[0]), a[1..], b);
      assert (a + b)[1..] == a[1..] + b;
    }
  }

  lemma {:induction false} FillAll(s: State) returns (es: seq<Event>)
    requires s.producer.Filling?
    ensures CanRun(s, es) && forall i :: 0 <= i < |es| ==> es[i] == Fill
    ensures After(s, es) == s.(slot := ActAll(s.slot, s.producer.rest), producer := Filling([]))
    decreases |s.producer.rest|
  {
    hide Act;
    es := [];
    if s.producer.rest != [] {
      var rest := FillAll(Do(s, Fill));
      Then(s, Fill, rest);
      es := [Fill] + rest;
    }
  }

  lemma DoneRun(s: State)
    ensures CanRun(s, []) && After(s, []) == s
  {
  }

  /** The end of a transfer. */
  lemma SignalAndRelease(s: State)
    requires s.producer == Filling([])
    ensures CanRun(s, [Signal] + [Release])
    ensures After(s, [Signal] + [Release])
         == s.(owner := Nobody, producer := Grabbing, consumers := WakeAll(s.consumers),
               published := s.published + [ViewOf(s.slot)])
  {
    hide ViewOf, CanRun, After;
    var t := Do(s, Signal);
    DoneRun(Do(t, Release));
    Then(t, Release, []);
    assert [Release] + [] == [Release];
    Then(s, Signal, [Release]);
  }

  ghost predicate InTransfer(e: Event) {
    e.Fill? || e.Signal? || e.Release?
  }

  /** The transfer of a frame, with nobody in between. */
  lemma Transfer(s: State, actions: seq<Action>) returns (es: seq<Event>)
    requires s.owner == Nobody && s.producer == Grabbing
    ensures CanRun(s, [Begin(actions)] + es) && forall i :: 0 <= i < |es| ==> InTransfer(es[i])
    ensures var slot := ActAll(s.slot, actions);
      After(s, [Begin(actions)] + es)
      == s.(slot := slot, consumers := WakeAll(s.consumers), published := s.published + [ViewOf(slot)],
            grabbed := s.grabbed + [ViewOf(slot)])
  {
    hide CanRun, After, ActAll, ViewOf, WakeAll;
    var t := Do(s, Begin(actions));
    var fills := FillAll(t);
    es := fills + ([Signal] + [Release]);
    SignalAndRelease(After(t, fills));
    RunsCompose(t, fills, [Signal] + [Release]);
    Then(s, Begin(actions), es);
  }

  /** A frame of one byte, one consumer, and a spurious wake-up: the frame is delivered twice. */
  lemma SpuriousRepeats() returns (s: State, es: seq<Event>)
    ensures Initial(s) && CanRun(s, es) && |After(s, es).consumers| == 1
    ensures After(s, es).published == [View([7], 1, 5)]
    ensures After(s, es).consumers[0].seen == [1, 1]
    ensures After(s, es).consumers[0].delivered == [View([7], 1, 5), View([7], 1, 5)]
  {
    var slot := Slot([0], 0, 0);
    s := State(Nobody, slot, Grabbing, [Consumer(Idle, 0, 0, [], [], [], 0)], ViewOf(slot), [], []);
    assert Initial(s);
    hide *;
    var first := FirstDelivery(s);
    var second := SecondDelivery(After(s, first));
    RunsCompose(s, first, second);
    es := first + second;
  }

  lemma FirstDelivery(s: State) returns (es: seq<Event>)
    requires s.owner == Nobody && s.producer == Grabbing && s.slot == Slot([0], 0, 0)
    requires |s.consumers| == 1 && s.consumers[0].phase == Idle
    ensures CanRun(s, es)
    ensures var t, c := After(s, es), s.consumers[0];
      && t.owner == Nobody && t.slot == Slot([7], 1, 5) && t.published == s.published + [View([7], 1, 5)]
      && |t.consumers| == 1 && t.consumers[0].phase == Idle
      && t.consumers[0].seen == c.seen + [|s.published| + 1]
      && t.consumers[0].delivered == c.delivered + [View([7], 1, 5)]
  {
    hide CanRun, After, CamActions;
    var wait := [Lock(0), Wait(0)];
    var take := [Reenter(0), ReadSize(0), ReadStamp(0), CopyByte(0), Deliver(0)];
    WaitingTurn(s);
    var rest := PublishingTurn(After(s, wait));
    var publish := [Begin(CamActions([7], 5))] + rest;
    TakingTurn(After(After(s, wait), publish));
    RunsCompose(After(s, wait), publish, take);
    RunsCompose(s, wait, publish + take);
    es := wait + (publish + take);
  }

  lemma SecondDelivery(s: State) returns (es: seq<Event>)
    requires s.owner == Nobody && s.slot == Slot([7], 1, 5)
    requires |s.consumers| == 1 && s.consumers[0].phase == Idle
    ensures CanRun(s, es) && |After(s, es).consumers| == 1 && After(s, es).published == s.published
    ensures After(s, es).consumers[0].seen == s.consumers[0].seen + [|s.published|]
    ensures After(s, es).consumers[0].delivered == s.consumers[0].delivered + [View([7], 1, 5)]
  {
    hide CanRun, After;
    var again := [Lock(0), Wait(0), Spurious(0)];
    var take := [Reenter(0), ReadSize(0), ReadStamp(0), CopyByte(0), Deliver(0)];
    SpuriousTurn(s);
    TakingTurn(After(s, again));
    RunsCompose(s, again, take);
    es := again + take;
  }

  lemma WaitingTurn(s: State)
    requires s.owner == Nobody && |s.consumers| == 1 && s.consumers[0].phase == Idle
    ensures CanRun(s, [Lock(0), Wait(0)])
    ensures After(s, [Lock(0), Wait(0)]) == s.(consumers := [s.consumers[0].(phase := Waiting)])
  {
    var s1 := Do(s, Lock(0));
    var s2 := Do(s1, Wait(0));
    Then(s1, Wait(0), []);
    Then(s, Lock(0), [Wait(0)]);
    assert [Lock(0)] + [Wait(0)] == [Lock(0), Wait(0)] && [Wait(0)] + [] == [Wait(0)];
  }

  lemma SpuriousTurn(s: State)
    requires s.owner == Nobody && |s.consumers| == 1 && s.consumers[0].phase == Idle
    ensures CanRun(s, [Lock(0), Wait(0), Spurious(0)])
    ensures After(s, [Lock(0), Wait(0), Spurious(0)]) == s.(consumers := [s.consumers[0].(phase := Woken)])
  {
    WaitingTurn(s);
    var t := After(s, [Lock(0), Wait(0)]);
    Then(t, Spurious(0), []);
    RunsCompose(s, [Lock(0), Wait(0)], [Spurious(0)]);
    assert [Lock(0), Wait(0)] + [Spurious(0)] == [Lock(0), Wait(0), Spurious(0)] && [Spurious(0)] + [] == [Spurious(0)];
  }

  lemma OneByteAnd(s: Slot, stamp: int)
    requires s == Slot([0], 0, 0)
    ensures ActAll(s, CamActions([7], stamp)) == Slot([7], 1, stamp) && ViewOf(Slot([7], 1, stamp)) == View([7], 1, stamp)
  {
    CamPublishes(s, [7], stamp);
    var t := ActAll(s, CamActions([7], stamp));
    assert t.buf == t.buf[..1] == [7];
  }

  lemma PublishingTurn(s: State) returns (es: seq<Event>)
    requires s.owner == Nobody && s.producer == Grabbing && s.slot == Slot([0], 0, 0)
    requires |s.consumers| == 1 && s.consumers[0].phase == Waiting
    ensures CanRun(s, [Begin(CamActions([7], 5))] + es) && forall i :: 0 <= i < |es| ==> InTransfer(es[i])
    ensures After(s, [Begin(CamActions([7], 5))] + es)
         == s.(slot := Slot([7], 1, 5), consumers := [s.consumers[0].(phase := Woken)],
               published := s.published + [View([7], 1, 5)], grabbed := s.grabbed + [View([7], 1, 5)])
  {
    es := Transfer(s, CamActions([7], 5));
    OneByteAnd(s.slot, 5);
    hide ActAll, CamActions, ViewOf, CanRun, After;
    assert WakeAll(s.consumers) == [s.consumers[0].(phase := Woken)];
  }

  lemma EnteringTurn(s: State)
    requires s.owner == Nobody && |s.consumers| == 1 && s.consumers[0].phase == Woken
    ensures var es := [Reenter(0), ReadSize(0), ReadStamp(0)];
      && CanRun(s, es)
      && After(s, es) == s.(owner := TheConsumer(0), consumers := [s.consumers[0].(phase := Copying,
        at := |s.published|, copied := [], size := s.slot.size, stamp := s.slot.stamp)])
  {
    var s1 := Do(s, Reenter(0));
    var s2 := Do(s1, ReadSize(0));
    var s3 := Do(s2, ReadStamp(0));
    Then(s2, ReadStamp(0), []);
    Then(s1, ReadSize(0), [ReadStamp(0)]);
    Then(s, Reenter(0), [ReadSize(0), ReadStamp(0)]);
    hide CanRun, After;
    assert [ReadStamp(0)] + [] == [ReadStamp(0)] && [ReadSize(0)] + [ReadStamp(0)] == [ReadSize(0), ReadStamp(0)];
    assert [Reenter(0)] + [ReadSize(0), ReadStamp(0)] == [Reenter(0), ReadSize(0), ReadStamp(0)];
  }

  lemma CopyingTurn(s: State)
    requires s.slot.buf == [7] && |s.consumers| == 1
    requires var c := s.consumers[0]; c.phase == Copying && c.copied == [] && c.size == 1
    ensures var es := [CopyByte(0), Deliver(0)];
      && CanRun(s, es)
      && var t, c := After(s, es), s.consumers[0];
        && t.owner == Nobody && t.slot == s.slot && t.published == s.published && t.producer == s.producer
        && |t.consumers| == 1 && t.consumers[0].phase == Idle
        && t.consumers[0].seen == c.seen + [c.at]
        && t.consumers[0].delivered == c.delivered + [View([7], 1, c.stamp)]
  {
    var s4 := Do(s, CopyByte(0));
    assert s4.consumers[0].copied == [7];
    var s5 := Do(s4, Deliver(0));
    Then(s4, Deliver(0), []);
    Then(s, CopyByte(0), [Deliver(0)]);
    hide CanRun, After;
    assert [Deliver(0)] + [] == [Deliver(0)] && [CopyByte(0)] + [Deliver(0)] == [CopyByte(0), Deliver(0)];
  }

  lemma TakingTurn(s: State)
    requires s.owner == Nobody && s.slot == Slot([7], 1, 5)
    requires |s.consumers| == 1 && s.consumers[0].phase == Woken
    ensures var es := [Reenter(0), ReadSize(0), ReadStamp(0), CopyByte(0), Deliver(0)];
      && CanRun(s, es)
      && var t, c := After(s, es), s.consumers[0];
        && t.owner == Nobody && t.slot == s.slot && t.published == s.published
        && |t.consumers| == 1 && t.consumers[0].phase == Idle
        && t.consumers[0].seen == c.seen + [|s.published|]
        && t.consumers[0].delivered == c.delivered + [View([7], 1, 5)]
  {
    EnteringTurn(s);
    var enter, copy := [Reenter(0), ReadSize(0), ReadStamp(0)], [CopyByte(0), Deliver(0)];
    CopyingTurn(After(s, enter));
    hide CanRun, After;
    RunsCompose(s, enter, copy);
    assert enter + copy == [Reenter(0), ReadSize(0), ReadStamp(0), CopyByte(0), Deliver(0)];
  }

  // The producers

  /** `cam_thread`, lines 781-797. */
  function CamActions(frame: seq<byte>, stamp: int): seq<Action> {
    [Write(0, frame), SetSize(|frame|), SetStamp(stamp)]
  }

  /** `on_image_received` of input_http: no timestamp. */
  function HttpActions(frame: seq<byte>): seq<Action> {
    [SetSize(|frame|), Write(0, frame)]
  }

  /** The callbacks of the camera encoder: one write a fragment, then the size. */
  function FragmentWrites(fragments: seq<seq<byte>>, offset: nat): seq<Action> {
    if fragments == [] then [SetSize(offset)]
    else [Write(offset, fragments[0])] + FragmentWrites(fragments[1..], offset + |fragments[0]|)
  }

  lemma CamPublishes(s: Slot, frame: seq<byte>, stamp: int)
    requires |frame| <= |s.buf|
    ensures ViewOf(ActAll(s, CamActions(frame, stamp))) == View(frame, |frame|, stamp)
    ensures ActAll(s, CamActions(frame, stamp)).stamp == stamp
  {
    var a := CamActions(frame, stamp);
    var s1 := Act(s, a[0]);
    var s2 := Act(s1, a[1]);
    assert ActAll(s, a) == ActAll(s1, a[1..]) == ActAll(s2, a[1..][1..]) == Act(s2, a[2]);
    assert s1.buf[..|frame|] == frame;
  }

  lemma HttpPublishes(s: Slot, frame: seq<byte>)
    requires |frame| <= |s.buf|
    ensures ViewOf(ActAll(s, HttpActions(frame))) == View(frame, |frame|, s.stamp)
    ensures ActAll(s, HttpActions(frame)).stamp == s.stamp
  {
    var a := HttpActions(frame);
    var s1 := Act(s, a[0]);
    assert ActAll(s, a) == ActAll(s1, a[1..]) == Act(s1, a[1]);
    assert Act(s1, a[1]).buf[..|frame|] == frame;
  }

  lemma {:induction false} FragmentsPublish(s: Slot, fragments: seq<seq<byte>>, offset: nat)
    requires offset + |Flatten(fragments)| <= |s.buf|
    ensures var r := ActAll(s, FragmentWrites(fragments, offset));
      && r.size == offset + |Flatten(fragments)| && r.stamp == s.stamp
      && r.buf[..r.size] == s.buf[..offset] + Flatten(fragments)
    decreases |fragments|
  {
    var a := FragmentWrites(fragments, offset);
    if fragments == [] {
      assert ActAll(s, a) == Act(s, a[0]);
    } else {
      var f := fragments[0];
      var s1 := Act(s, Write(offset, f));
      FragmentsPublish(s1, fragments[1..], offset + |f|);
      assert a[1..] == FragmentWrites(fragments[1..], offset + |f|);
      assert s1.buf[..offset + |f|] == s.buf[..offset] + f;
    }
  }

  lemma {:induction false} ActAllConcat(s: Slot, a: seq<Action>, b: seq<Action>)
    ensures ActAll(s, a + b) == ActAll(ActAll(s, a), b)
    decreases |a|
  {
    hide Act;
    if a == [] {
      assert a + b == b;
    } else {
      ActAllConcat(Act(s, a[0]), a[1..], b);
      assert (a + b)[1..] == a[1..] + b;
    }
  }

  /** The time of day is put on a frame of the camera encoder only if it is asked for. */
  datatype Clock = Unset | Now(stamp: int)

  /** A frame, from any of the three producers. */
  datatype Picture =
    | FromCam(frame: seq<byte>, camStamp: int)
    | FromHttp(frame: seq<byte>)
    | FromEncoder(fragments: seq<seq<byte>>, clock: Clock)
  {
    function Bytes(): seq<byte> {
      if FromEncoder? then Flatten(fragments) else frame
    }

    /** The time stamp in the slot afterwards. */
    function Stamp(before: int): int {
      match this
      case FromCam(_, stamp) => stamp
      case FromHttp(_) => before
      case FromEncoder(_, clock) => if clock.Now? then clock.stamp else before
    }

    /** Whether its producer takes the mutex: the encoder callback does so with the first byte. */
    predicate Locks() {
      FromEncoder? ==> Bytes() != []
    }

    function Actions(): seq<Action> {
      match this
      case FromCam(bytes, stamp) => CamActions(bytes, stamp)
      case FromHttp(bytes) => HttpActions(bytes)
      case FromEncoder(parts, clock) =>
        FragmentWrites(parts, 0) + if clock.Now? then [SetStamp(clock.stamp)] else []
    }
  }

  lemma PicturePublishes(s: Slot, p: Picture)
    requires |p.Bytes()| <= |s.buf|
    ensures ViewOf(ActAll(s, p.Actions())) == View(p.Bytes(), |p.Bytes()|, p.Stamp(s.stamp))
    ensures ActAll(s, p.Actions()).stamp == p.Stamp(s.stamp)
  {
    match p
    case FromCam(frame, stamp) =>
      CamPublishes(s, frame, stamp);
    case FromHttp(frame) =>
      HttpPublishes(s, frame);
    case FromEncoder(fragments, clock) =>
      FragmentsPublish(s, fragments, 0);
      var writes := FragmentWrites(fragments, 0);
      var r := ActAll(s, writes);
      assert s.buf[..0] + Flatten(fragments) == Flatten(fragments);
      var last := if clock.Now? then [SetStamp(clock.stamp)] else [];
      ActAllConcat(s, writes, last);
      assert clock.Now? ==> ActAll(r, last) == Act(r, last[0]);
  }

  ghost predicate AllLock(pictures: seq<Picture>) {
    forall i :: 0 <= i < |pictures| ==> pictures[i].Locks()
  }

  ghost predicate AllFit(pictures: seq<Picture>, capacity: nat) {
    forall i :: 0 <= i < |pictures| ==> |pictures[i].Bytes()| <= capacity
  }

  /** The frames whose transfer into the slot is begun in a run. */
  ghost predicate PictureRun(es: seq<Event>, pictures: seq<Picture>, capacity: nat)
    decreases |es|
  {
    if es == [] then pictures == []
    else if es[0].Begin? || es[0].EndEmpty? then
      && pictures != [] && |pictures[0].Bytes()| <= capacity
      && es[0].actions == pictures[0].Actions() && es[0].Begin? == pictures[0].Locks()
      && PictureRun(es[1..], pictures[1..], capacity)
    else PictureRun(es[1..], pictures, capacity)
  }

  lemma {:induction false} LocksIff(es: seq<Event>, pictures: seq<Picture>, capacity: nat)
    requires PictureRun(es, pictures, capacity)
    ensures AlwaysLocks(es) <==> AllLock(pictures)
    decreases |es|
  {
    hide Picture.Actions, Picture.Bytes, Picture.Locks;
    if es != [] {
      assert es == [es[0]] + es[1..];
      if es[0].Begin? || es[0].EndEmpty? {
        LocksIff(es[1..], pictures[1..], capacity);
        assert pictures == [pictures[0]] + pictures[1..];
      } else {
        LocksIff(es[1..], pictures, capacity);
      }
    }
  }

  /** What the frames look like in the slot; one without a time stamp keeps that of the frame before. */
  function Views(pictures: seq<Picture>, stamp: int): (v: seq<View>)
    ensures |v| == |pictures|
  {
    if pictures == [] then []
    else
      var p := pictures[0];
      [View(p.Bytes(), |p.Bytes()|, p.Stamp(stamp))] + Views(pictures[1..], p.Stamp(stamp))
  }

  /** The time stamp once the frame that is being transferred is complete. */
  ghost function StampAhead(s: State): int {
    if s.producer.Filling? || s.producer.Bare? then ActAll(s.slot, s.producer.rest).stamp else s.slot.stamp
  }

  lemma StepKeepsSlot(s: State, e: Event)
    requires Enabled(s, e)
    ensures |Do(s, e).slot.buf| == |s.slot.buf|
    ensures !e.Begin? && !e.EndEmpty? ==> Do(s, e).grabbed == s.grabbed && StampAhead(Do(s, e)) == StampAhead(s)
    ensures e.Begin? || e.EndEmpty? ==>
      && StampAhead(s) == s.slot.stamp && StampAhead(Do(s, e)) == ActAll(s.slot, e.actions).stamp
      && Do(s, e).grabbed == s.grabbed + [ViewOf(ActAll(s.slot, e.actions))]
  {
  }

  lemma {:induction false} GrabbedPictures(s: State, es: seq<Event>, pictures: seq<Picture>)
    requires CanRun(s, es) && PictureRun(es, pictures, |s.slot.buf|)
    ensures After(s, es).grabbed == s.grabbed + Views(pictures, StampAhead(s))
    decreases |es|
  {
    hide Enabled, Do, ViewOf, ActAll, Picture.Actions, Picture.Bytes, Picture.Stamp, StampAhead;
    if es != [] {
      var e := es[0];
      StepKeepsSlot(s, e);
      if e.Begin? || e.EndEmpty? {
        var p := pictures[0];
        PicturePublishes(s.slot, p);
        GrabbedPictures(Do(s, e), es[1..], pictures[1..]);
      } else {
        GrabbedPictures(Do(s, e), es[1..], pictures);
      }
    }
  }

  lemma {:induction false} InitialStays(s: State, es: seq<Event>)
    requires CanRun(s, es)
    ensures After(s, es).initial == s.initial
    decreases |es|
  {
    if es != [] {
      InitialStays(Do(s, es[0]), es[1..]);
    }
    hide Enabled;
  }

  /**
    End to end, for whichever producers if no frame of the encoder is empty: whatever the
    interleaving, what a consumer is given is, bytes, size and timestamp together, one of the
    frames grabbed, in their order; or, after a spurious wake-up before the first frame, the
    slot as it was created.
   */
  lemma ConsumersGetPictures(s: State, es: seq<Event>, pictures: seq<Picture>, i: nat)
    requires Initial(s) && CanRun(s, es) && PictureRun(es, pictures, |s.slot.buf|) && AllLock(pictures)
    requires i < |After(s, es).consumers|
    ensures var c := After(s, es).consumers[i];
      && |c.seen| == |c.delivered|
      && (forall j, k :: 0 <= j < k < |c.seen| ==> c.seen[j] <= c.seen[k])
      && (forall k :: 0 <= k < |c.seen| ==>
           && c.seen[k] <= |pictures|
           && c.delivered[k] == if c.seen[k] == 0 then s.initial else Views(pictures, s.slot.stamp)[c.seen[k] - 1])
    ensures NoSpurious(es) ==> var c := After(s, es).consumers[i];
      && (forall k :: 0 <= k < |c.seen| ==> c.seen[k] >= 1)
      && (forall j, k :: 0 <= j < k < |c.seen| ==> c.seen[j] < c.seen[k])
  {
    LocksIff(es, pictures, |s.slot.buf|);
    hide Enabled, Do, PictureRun, AllLock, AlwaysLocks;
    DeliveredFramesAreWhole(s, es, i);
    if NoSpurious(es) {
      NoFrameTwice(s, es, i);
    }
    GrabbedPictures(s, es, pictures);
    InitialStays(s, es);
    assert StampAhead(s) == s.slot.stamp && s.grabbed == [];
    hide CanRun, PictureRun, After, Initial, NoSpurious, StampAhead;
  }
}
