/**
  The frame-drop filters of `cam_thread` in input_uvc.c: every n-th frame, a minimum size,
  a minimum distance in time.
 */
module FrameDrop {
  import opened Bits

  datatype Time = Time(sec: nat, usec: nat) {
    function Ms(): nat { sec * 1000 + usec / 1000 }
  }

  /** A grabbed frame: its size, the camera's time stamp, and the time of day when it is handled. */
  datatype Capture = Capture(size: nat, camera: Time, clock: Time)

  datatype Settings = Settings(every: nat, minimumSize: nat, wantTimestamp: bool, softFramedrop: bool, period: nat) {
    /** What the option parser makes sure of. */
    predicate Valid() { every >= 1 }

    function Stamp(c: Capture): Time {
      if wantTimestamp then c.clock else c.camera
    }
  }

  // What is published, without counters

  /** `unsigned long` arithmetic, for any width of the type. */
  function Elapsed(range: nat, now: Time, last: Time): nat
    requires range >= 1
  {
    (now.Ms() % range - last.Ms() % range) % range
  }

  /** Frame number `i` is an n-th one. */
  predicate IsNth(i: nat, every: nat)
    requires every >= 1
  {
    (i + 1) % every == 0
  }

  predicate Due(range: nat, s: Settings, last: Time, c: Capture, i: nat)
    requires range >= 1 && s.Valid()
  {
    && IsNth(i, s.every)
    && c.size >= s.minimumSize
    && (s.softFramedrop ==> Elapsed(range, s.Stamp(c), last) >= s.period)
  }

  /** The numbers of the published frames, and the time stamp in the global slot. */
  datatype Log = Log(frames: seq<nat>, last: Time)

  function Next(range: nat, s: Settings, log: Log, c: Capture, i: nat): Log
    requires range >= 1 && s.Valid()
  {
    if Due(range, s, log.last, c, i) then Log(log.frames + [i], s.Stamp(c)) else log
  }

  /** After the first `n` frames. */
  function Published(range: nat, s: Settings, initial: Time, captures: seq<Capture>, n: nat): Log
    requires range >= 1 && s.Valid() && n <= |captures|
  {
    if n == 0 then Log([], initial)
    else Next(range, s, Published(range, s, initial, captures, n - 1), captures[n - 1], n - 1)
  }

  /** What comes later does not matter. */
  lemma {:induction false} PublishedPrefix(range: nat, s: Settings, initial: Time, captures: seq<Capture>,
                                           later: seq<Capture>, n: nat)
    requires range >= 1 && s.Valid() && n <= |captures|
    ensures Published(range, s, initial, captures + later, n) == Published(range, s, initial, captures, n)
  {
    if n > 0 {
      PublishedPrefix(range, s, initial, captures, later, n - 1);
      hide Next;
    }
  }

  lemma PublishedMore(range: nat, s: Settings, initial: Time, captures: seq<Capture>, c: Capture)
    requires range >= 1 && s.Valid()
    ensures Published(range, s, initial, captures + [c], |captures| + 1)
            == Next(range, s, Published(range, s, initial, captures, |captures|), c, |captures|)
  {
    PublishedPrefix(range, s, initial, captures, [c], |captures|);
    hide Next;
  }

  /** `count` is what is left of `n` frames after whole groups of `every`. */
  ghost predicate CountIs(count: nat, n: nat, every: nat)
    requires every >= 1
  {
    count == n % every
  }

  lemma CountStep(count: nat, i: nat, every: nat)
    requires every >= 1 && CountIs(count, i, every)
    ensures count < every - 1 ==> CountIs(count + 1, i + 1, every) && !IsNth(i, every)
    ensures count >= every - 1 ==> CountIs(0, i + 1, every) && IsNth(i, every)
  {
    var q := i / every;
    if count < every - 1 {
      ModUnique(i + 1, every, q, count + 1);
    } else {
      assert every * (q + 1) == every * q + every;
      ModUnique(i + 1, every, q + 1, 0);
    }
  }

  // The thread

  class CamThread {
    const range: nat
    const settings: Settings
    const initial: Time
    /** `every_count` */
    var everyCount: nat
    /** The time stamp in the global slot. */
    var slot: Time
    /** What has been grabbed, and which of it has been published. */
    ghost var captures: seq<Capture>
    ghost var published: seq<nat>

    ghost predicate Valid()
      reads this
    {
      && range >= 1 && settings.Valid()
      && CountIs(everyCount, |captures|, settings.every)
      && Published(range, settings, initial, captures, |captures|) == Log(published, slot)
    }

    constructor (range: nat, settings: Settings, initial: Time)
      requires range >= 1 && settings.Valid()
      ensures Valid() && captures == [] && this.range == range && this.settings == settings && this.initial == initial
    {
      this.range := range;
      this.settings := settings;
      this.initial := initial;
      everyCount := 0;
      slot := initial;
      captures := [];
      published := [];
    }

    /** Lines 719-811, after a frame has been grabbed. */
    method Grabbed(c: Capture) returns (copied: bool)
      requires Valid()
      modifies this`everyCount, this`slot, this`captures, this`published
      ensures Valid() && captures == old(captures) + [c]
      ensures published == if copied then old(published) + [|old(captures)|] else old(published)
    {
      ghost var i := |captures|;
      PublishedMore(range, settings, initial, captures, c);
      CountStep(everyCount, i, settings.every);
      hide Published, CountIs, IsNth;
      captures := captures + [c];
      copied := false;
      if everyCount < settings.every - 1 {
        everyCount := everyCount + 1;
        return;
      } else {
        everyCount := 0;
      }
      if c.size < settings.minimumSize {
        return;
      }
      var timestamp := settings.Stamp(c);
      if settings.softFramedrop {
        if Elapsed(range, timestamp, slot) < settings.period {
          return;
        }
      }
      slot := timestamp;
      published := published + [i];
      copied := true;
    }
  }

  // What that means

  /** Modular subtraction never overstates how much time has passed. */
  lemma ElapsedAtMost(range: nat, now: Time, last: Time)
    requires range >= 1 && last.Ms() <= now.Ms()
    ensures Elapsed(range, now, last) <= now.Ms() - last.Ms()
    ensures now.Ms() - last.Ms() < range ==> Elapsed(range, now, last) == now.Ms() - last.Ms()
  {
    var a, b := now.Ms(), last.Ms();
    var d := a - b;
    var x := a % range - b % range;
    assert x == d - range * (a / range - b / range);
    var e, q := d % range, d / range;
    assert d == range * q + e;
    assert range * (q - (a / range - b / range)) == range * q - range * (a / range - b / range);
    ModUnique(x, range, q - (a / range - b / range), e);
    NoMultipleBetween(range, q);
    if d < range {
      ModUnique(d, range, 0, d);
    }
  }

  /** A clock that goes back makes the difference huge. */
  lemma ClockBack(range: nat, now: Time, last: Time)
    requires range >= 1 && now.Ms() < last.Ms() <= now.Ms() + range
    ensures Elapsed(range, now, last) == (range - (last.Ms() - now.Ms())) % range
  {
    var a, b := now.Ms(), last.Ms();
    var x, y := a % range - b % range, range - (b - a);
    assert x == y - range * (1 + a / range - b / range) by {
      assert a == range * (a / range) + a % range && b == range * (b / range) + b % range;
      assert range * (1 + a / range - b / range) == range + range * (a / range) - range * (b / range);
    }
    if y < range {
      ModUnique(x, range, -(1 + a / range - b / range), y);
      ModUnique(y, range, 0, y);
    }
  }

  /** The test for time, passed: it means what it should exactly if the clock has not gone back. */
  lemma PassedIff(range: nat, now: Time, last: Time, period: nat)
    requires range >= 1 && Elapsed(range, now, last) >= period
    ensures now.Ms() >= last.Ms() + period <==> now.Ms() >= last.Ms()
  {
    if now.Ms() >= last.Ms() {
      ElapsedAtMost(range, now, last);
    }
    hide Elapsed, Time.Ms;
  }

  // The published frames, one after the other

  /** Each is an every-th one and large enough. */
  ghost predicate Filtered(s: Settings, captures: seq<Capture>, p: seq<nat>)
    requires s.Valid()
  {
    && (forall k :: 0 <= k < |p| ==>
          p[k] < |captures| && IsNth(p[k], s.every) && captures[p[k]].size >= s.minimumSize)
    && (forall k, l :: 0 <= k < l < |p| ==> p[k] < p[l])
  }

  /** The time stamp of the k-th one, and of the one before it. */
  function Stamped(s: Settings, captures: seq<Capture>, p: seq<nat>, k: nat): Time
    requires k < |p| && p[k] < |captures|
  {
    s.Stamp(captures[p[k]])
  }

  function Previous(s: Settings, initial: Time, captures: seq<Capture>, p: seq<nat>, k: nat): Time
    requires k < |p| && (k > 0 ==> p[k - 1] < |captures|)
  {
    if k == 0 then initial else Stamped(s, captures, p, k - 1)
  }

  ghost predicate Spaced(s: Settings, initial: Time, captures: seq<Capture>, p: seq<nat>)
    requires s.Valid() && Filtered(s, captures, p)
  {
    forall k :: 0 <= k < |p| ==>
      Stamped(s, captures, p, k).Ms() >= Previous(s, initial, captures, p, k).Ms() + s.period
  }

  ghost predicate NotBack(s: Settings, initial: Time, captures: seq<Capture>, p: seq<nat>)
    requires s.Valid() && Filtered(s, captures, p)
  {
    forall k :: 0 <= k < |p| ==> Stamped(s, captures, p, k).Ms() >= Previous(s, initial, captures, p, k).Ms()
  }

  function Last(s: Settings, initial: Time, captures: seq<Capture>, p: seq<nat>): Time
    requires p != [] ==> p[|p| - 1] < |captures|
  {
    if p == [] then initial else Stamped(s, captures, p, |p| - 1)
  }

  ghost predicate Below(p: seq<nat>, n: nat) {
    forall k :: 0 <= k < |p| ==> p[k] < n
  }

  ghost predicate Passed(range: nat, s: Settings, initial: Time, captures: seq<Capture>, p: seq<nat>)
    requires range >= 1 && s.Valid() && Filtered(s, captures, p)
  {
    s.softFramedrop ==> forall k :: 0 <= k < |p| ==>
      Elapsed(range, Stamped(s, captures, p, k), Previous(s, initial, captures, p, k)) >= s.period
  }

  /** What the tests have seen. */
  ghost predicate Tested(range: nat, s: Settings, initial: Time, captures: seq<Capture>, log: Log, n: nat)
    requires range >= 1 && s.Valid()
  {
    && Filtered(s, captures, log.frames) && Below(log.frames, n)
    && log.last == Last(s, initial, captures, log.frames)
    && Passed(range, s, initial, captures, log.frames)
  }

  lemma OneMore(range: nat, s: Settings, initial: Time, captures: seq<Capture>, p: seq<nat>, n: nat)
    requires range >= 1 && s.Valid() && n < |captures| && Filtered(s, captures, p) && Below(p, n)
    requires Passed(range, s, initial, captures, p) && Due(range, s, Last(s, initial, captures, p), captures[n], n)
    ensures Filtered(s, captures, p + [n]) && Below(p + [n], n + 1)
    ensures Last(s, initial, captures, p + [n]) == s.Stamp(captures[n])
    ensures Passed(range, s, initial, captures, p + [n])
  {
    hide IsNth, Elapsed;
    var q := p + [n];
    assert Filtered(s, captures, q);
    hide Filtered;
    if s.softFramedrop {
      forall k | 0 <= k < |q|
        ensures Elapsed(range, Stamped(s, captures, q, k), Previous(s, initial, captures, q, k)) >= s.period
      {
        if k < |p| {
          assert Stamped(s, captures, q, k) == Stamped(s, captures, p, k);
          assert Previous(s, initial, captures, q, k) == Previous(s, initial, captures, p, k);
        } else {
          assert Previous(s, initial, captures, q, k) == Last(s, initial, captures, p);
        }
      }
    }
  }

  lemma TestedNext(range: nat, s: Settings, initial: Time, captures: seq<Capture>, log: Log, n: nat)
    requires range >= 1 && s.Valid() && n < |captures| && Tested(range, s, initial, captures, log, n)
    ensures Tested(range, s, initial, captures, Next(range, s, log, captures[n], n), n + 1)
  {
    if Due(range, s, log.last, captures[n], n) {
      OneMore(range, s, initial, captures, log.frames, n);
    }
    hide Due, Filtered, Last, Passed;
  }

  lemma NoneTested(range: nat, s: Settings, initial: Time, captures: seq<Capture>)
    requires range >= 1 && s.Valid()
    ensures Tested(range, s, initial, captures, Log([], initial), 0)
  {
  }

  lemma {:induction false} AllTested(range: nat, s: Settings, initial: Time, captures: seq<Capture>, n: nat)
    requires range >= 1 && s.Valid() && n <= |captures|
    ensures Tested(range, s, initial, captures, Published(range, s, initial, captures, n), n)
  {
    hide Tested, Next;
    if n == 0 {
      NoneTested(range, s, initial, captures);
    } else {
      AllTested(range, s, initial, captures, n - 1);
      TestedNext(range, s, initial, captures, Published(range, s, initial, captures, n - 1), n - 1);
    }
  }

  /**
    Every published frame passes the other tests; with the test for time they are a period
    apart if and only if the time stamps of published frames do not go back.
   */
  lemma SpacedIff(range: nat, s: Settings, initial: Time, captures: seq<Capture>, n: nat)
    requires range >= 1 && s.Valid() && n <= |captures|
    ensures var p := Published(range, s, initial, captures, n).frames;
      && Filtered(s, captures, p)
      && (s.softFramedrop ==> (Spaced(s, initial, captures, p) <==> NotBack(s, initial, captures, p)))
  {
    AllTested(range, s, initial, captures, n);
    var p := Published(range, s, initial, captures, n).frames;
    hide Published, Filtered, Elapsed, Stamped, Previous;
    if s.softFramedrop {
      forall k | 0 <= k < |p|
        ensures var now, last := Stamped(s, captures, p, k).Ms(), Previous(s, initial, captures, p, k).Ms();
          now >= last + s.period <==> now >= last
      {
        PassedIff(range, Stamped(s, captures, p, k), Previous(s, initial, captures, p, k), s.period);
      }
    }
  }

  /** Time stamps do not go back. */
  ghost predicate Timely(s: Settings, initial: Time, captures: seq<Capture>) {
    && (forall i :: 0 <= i < |captures| ==> initial.Ms() <= s.Stamp(captures[i]).Ms())
    && forall i, j :: 0 <= i < j < |captures| ==> s.Stamp(captures[i]).Ms() <= s.Stamp(captures[j]).Ms()
  }

  /** In particular while no time stamp goes back. */
  lemma PublishedAreSpaced(range: nat, s: Settings, initial: Time, captures: seq<Capture>, n: nat)
    requires range >= 1 && s.Valid() && n <= |captures| && s.softFramedrop && Timely(s, initial, captures)
    ensures var p := Published(range, s, initial, captures, n).frames;
      Filtered(s, captures, p) && Spaced(s, initial, captures, p)
  {
    SpacedIff(range, s, initial, captures, n);
    hide Published, Spaced, IsNth;
  }

  lemma {:induction false} PublishedDue(range: nat, s: Settings, initial: Time, captures: seq<Capture>, n: nat, i: nat)
    requires range >= 1 && s.Valid() && i < n <= |captures|
    ensures i in Published(range, s, initial, captures, n).frames
            <==> Due(range, s, Published(range, s, initial, captures, i).last, captures[i], i)
  {
    FramesBelow(range, s, initial, captures, n - 1);
    if i < n - 1 {
      PublishedDue(range, s, initial, captures, n - 1, i);
    }
    hide Due;
  }

  lemma {:induction false} FramesBelow(range: nat, s: Settings, initial: Time, captures: seq<Capture>, n: nat)
    requires range >= 1 && s.Valid() && n <= |captures|
    ensures forall i :: i in Published(range, s, initial, captures, n).frames ==> i < n
  {
    if n > 0 {
      FramesBelow(range, s, initial, captures, n - 1);
    }
    hide Due;
  }

  /** A difference of residues is the residue of the difference. */
  lemma ResidueOfDifference(range: nat, a: nat, b: nat)
    requires range >= 1
    ensures (a % range - b % range) % range == (a - b) % range
  {
    var q := (a - b) / range;
    var k := q - (a / range - b / range);
    assert range * k == range * q - range * (a / range) + range * (b / range);
    ModUnique(a % range - b % range, range, k, (a - b) % range);
  }

  /** Milliseconds, as the code takes them from seconds and microseconds. */
  function StampMs(wantTimestamp: bool, c: Capture): int {
    var t := if wantTimestamp then c.clock else c.camera;
    1000 * t.sec + t.usec / 1000
  }

  /** The milliseconds from the last of the published frames `p`, or from the stamp at the beginning. */
  function Since(s: Settings, initial: Time, captures: seq<Capture>, p: seq<nat>, c: Capture): int
    requires forall k :: 0 <= k < |p| ==> p[k] < |captures|
  {
    var last := if p == [] then 1000 * initial.sec + initial.usec / 1000
                else StampMs(s.wantTimestamp, captures[p[|p| - 1]]);
    StampMs(s.wantTimestamp, c) - last
  }

  lemma ElapsedIsSince(range: nat, s: Settings, initial: Time, captures: seq<Capture>, p: seq<nat>, c: Capture)
    requires range >= 1 && forall k :: 0 <= k < |p| ==> p[k] < |captures|
    ensures Elapsed(range, s.Stamp(c), Last(s, initial, captures, p)) == Since(s, initial, captures, p, c) % range
  {
    ResidueOfDifference(range, s.Stamp(c).Ms(), Last(s, initial, captures, p).Ms());
  }

  /**
    Nothing else is dropped: frame `i` is published exactly if it is an n-th one, is large
    enough, and comes late enough after the last published one before it.
   */
  lemma PublishedIff(range: nat, s: Settings, initial: Time, captures: seq<Capture>, n: nat, i: nat)
    requires range >= 1 && s.every >= 1 && i < n <= |captures|
    ensures var p := Published(range, s, initial, captures, i).frames;
      && (forall k :: 0 <= k < |p| ==> p[k] < i)
      && (i in Published(range, s, initial, captures, n).frames <==>
            && (i + 1) % s.every == 0
            && captures[i].size >= s.minimumSize
            && (s.softFramedrop ==> Since(s, initial, captures, p, captures[i]) % range >= s.period))
  {
    PublishedDue(range, s, initial, captures, n, i);
    AllTested(range, s, initial, captures, i);
    ElapsedIsSince(range, s, initial, captures, Published(range, s, initial, captures, i).frames, captures[i]);
    hide Published, Filtered, Last, Passed, Elapsed, Since;
  }
}
