/** The pan/tilt tracker of input_control/input_uvc.c, with `uvcPanTilt` of dynctrl.c as its device. */
module PanTilt {

  const ONE_DEGREE := 64
  const MAX_PAN := 70 * 64
  const MIN_PAN := -70 * 64
  const MAX_TILT := 30 * 64
  const MIN_TILT := -30 * 64

  datatype Command =
    | Hello | ResetPanTilt | ResetPanTiltNoMutex
    | PanSet | PanPlus | PanMinus | TiltSet | TiltPlus | TiltMinus | Other

  /** What goes to the device: relative moves, the second coordinate with the sign that `uvcPanTilt` gives it. */
  datatype Request = Reset | Move(x: int, y: int)

  datatype Sent = Sent(request: Request, ok: bool)

  datatype Place = Place(x: int, y: int)

  /** Where the requests since the last successful reset add up to. */
  function Requested(log: seq<Sent>): Place {
    if log == [] then Place(0, 0) else
      var before, last := Requested(log[..|log| - 1]), log[|log| - 1];
      match last.request
      case Reset => if last.ok then Place(0, 0) else before
      case Move(x, y) => Place(before.x + x, before.y + y)
  }

  /** Where the device is if it was at `start`: a request that fails does not move it. */
  function Device(start: Place, log: seq<Sent>): Place {
    if log == [] then start else
      var before, last := Device(start, log[..|log| - 1]), log[|log| - 1];
      if !last.ok then before
      else match last.request
        case Reset => Place(0, 0)
        case Move(x, y) => Place(before.x + x, before.y + y)
  }

  /** Whether a reset has succeeded. */
  predicate WasReset(log: seq<Sent>) {
    exists i :: 0 <= i < |log| && log[i] == Sent(Reset, true)
  }

  lemma WasResetMore(log: seq<Sent>, s: Sent)
    ensures WasReset(log + [s]) <==> WasReset(log) || s == Sent(Reset, true)
  {
    var all := log + [s];
    assert all[|log|] == s;
    if i :| 0 <= i < |log| && log[i] == Sent(Reset, true) {
      assert all[i] == log[i];
    }
  }

  /** `/` of C truncates. */
  function Quotient(a: int, b: nat): int
    requires b > 0
  {
    if a >= 0 then a / b else -(-a / b)
  }

  function Clamp(v: int, lo: int, hi: int): int {
    if v < lo then lo else if v > hi then hi else v
  }

  /** What it leaves has the sign of the dividend. */
  lemma QuotientTruncates(a: int, b: nat)
    requires b > 0
    ensures a >= 0 ==> 0 <= a - Quotient(a, b) * b < b
    ensures a <= 0 ==> 0 <= Quotient(a, b) * b - a < b
  {
    var n := if a >= 0 then a else -a;
    var k := n / b;
    assert n == b * k + n % b;
    assert (-k) * b == -(k * b);
  }

  lemma ClampDegrees(d: int, limit: int)
    requires limit >= 0
    ensures Clamp(d * ONE_DEGREE, -limit * ONE_DEGREE, limit * ONE_DEGREE) == ONE_DEGREE * Clamp(d, -limit, limit)
  {
  }

  lemma RequestedMore(log: seq<Sent>, s: Sent)
    ensures Requested(log + [s]) == match s.request
      case Reset => if s.ok then Place(0, 0) else Requested(log)
      case Move(x, y) => Place(Requested(log).x + x, Requested(log).y + y)
  {
    assert (log + [s])[..|log|] == log;
  }

  class Controller {
    const minRes: nat
    var pan: int
    var tilt: int
    var panTiltValid: bool
    /** Whether `controls_mutex` is held, and how often it has been taken and released. */
    var locked: bool
    ghost var taken: nat
    ghost var released: nat
    ghost var log: seq<Sent>

    /** The position is known once a reset has succeeded; it is what the requests add up to, and within the limits. */
    ghost predicate Tracking()
      reads this
    {
      && MIN_PAN <= pan <= MAX_PAN && MIN_TILT <= tilt <= MAX_TILT
      && Requested(log) == Place(pan, -tilt)
      && (!panTiltValid ==> pan == 0 && tilt == 0) && (panTiltValid <==> WasReset(log))
    }

    constructor (minRes: nat)
      ensures Tracking() && !locked && this.minRes == minRes && log == [] && taken == released == 0
    {
      this.minRes := minRes;
      pan, tilt, panTiltValid := 0, 0, false;
      locked, taken, released, log := false, 0, 0, [];
    }

    method UvcPanTilt(x: int, y: int, reset: bool, ok: bool) returns (res: int)
      modifies this`log
      ensures res == if ok then 0 else -1
      ensures log == old(log) + [Sent(if reset then Reset else Move(x, -y), ok)]
    {
      log := log + [Sent(if reset then Reset else Move(x, -y), ok)];
      res := if ok then 0 else -1;
    }

    method Lock()
      requires !locked
      modifies this`locked, this`taken
      ensures locked && taken == old(taken) + 1
    {
      locked := true;
      taken := taken + 1;
    }

    method Unlock()
      requires locked
      modifies this`locked, this`released
      ensures !locked && released == old(released) + 1
    {
      locked := false;
      released := released + 1;
    }

    /** Where a command leads to from a known position. */
    function Target(cmd: Command, value: int, x: int, y: int): Place {
      match cmd
      case ResetPanTilt => Place(0, 0)
      case ResetPanTiltNoMutex => Place(0, 0)
      case PanSet => Place(ONE_DEGREE * Clamp(value, -70, 70), y)
      case PanPlus => Place(if x + minRes <= MAX_PAN then x + minRes else x, y)
      case PanMinus => Place(if x - minRes >= MIN_PAN then x - minRes else x, y)
      case TiltSet => Place(x, ONE_DEGREE * Clamp(value, -30, 30))
      case TiltPlus => Place(x, if y + minRes <= MAX_TILT then y + minRes else y)
      case TiltMinus => Place(x, if y - minRes >= MIN_TILT then y - minRes else y)
      case _ => Place(x, y)
    }

    predicate NeedsPosition(cmd: Command) {
      cmd.PanSet? || cmd.PanPlus? || cmd.PanMinus? || cmd.TiltSet? || cmd.TiltPlus? || cmd.TiltMinus?
    }

    predicate Resets(cmd: Command)
      reads this`panTiltValid
    {
      cmd.ResetPanTilt? || cmd.ResetPanTiltNoMutex? || (NeedsPosition(cmd) && !panTiltValid)
    }

    /**
      `input_cmd`. The device's answers are `resetOk` and `moveOk`; the latter is ignored.
      The multiplication by 64 and the additions of `min_res` must not overflow.
     */
    method InputCmd(cmd: Command, value: int, resetOk: bool, moveOk: bool) returns (res: int)
      requires Tracking() && (locked ==> cmd.ResetPanTiltNoMutex?)
      requires -0x200_0000 <= value < 0x200_0000 && minRes <= 0x7FFF_FFFF - MAX_PAN
      modifies this`pan, this`tilt, this`panTiltValid, this`locked, this`taken, this`released, this`log
      ensures Tracking() && locked == old(locked)
      ensures cmd.ResetPanTiltNoMutex? ==> taken == old(taken) && released == old(released)
      ensures !cmd.ResetPanTiltNoMutex? ==> taken == old(taken) + 1 && released == old(released) + 1
      ensures panTiltValid <==> old(panTiltValid) || (old(Resets(cmd)) && resetOk)
      ensures var failed := old(Resets(cmd)) && !resetOk;
        Place(pan, tilt) == if failed then old(Place(pan, tilt)) else Target(cmd, value, old(pan), old(tilt))
      ensures panTiltValid && old(panTiltValid) && NeedsPosition(cmd) ==>
        log == old(log) || log == old(log) + [Sent(Move(pan - old(pan), old(tilt) - tilt), moveOk)]
      ensures old(panTiltValid) && (cmd.PanSet? || cmd.TiltSet?) && pan == old(pan) && tilt == old(tilt) ==>
        log == old(log)
      ensures var failed := old(Resets(cmd)) && !resetOk;
        res == if failed || cmd.Other? then -1
               else if cmd.PanSet? || cmd.PanPlus? || cmd.PanMinus? then Quotient(pan, ONE_DEGREE)
               else if NeedsPosition(cmd) then Quotient(tilt, ONE_DEGREE) else 0
      decreases if cmd.ResetPanTiltNoMutex? then 0 else 1
    {
      hide WasReset, Requested, Quotient;
      res := 0;
      if !cmd.ResetPanTiltNoMutex? {
        Lock();
      }
      if cmd.ResetPanTilt? || cmd.ResetPanTiltNoMutex? {
        res := Home(resetOk);
      } else if NeedsPosition(cmd) {
        var ready := 0;
        if !panTiltValid {
          ready := InputCmd(ResetPanTiltNoMutex, 0, resetOk, moveOk);
        }
        if ready == -1 {
          res := -1;
        } else if cmd.PanSet? || cmd.PanPlus? || cmd.PanMinus? {
          res := DrivePan(cmd, value, moveOk);
        } else {
          res := DriveTilt(cmd, value, moveOk);
        }
      } else if cmd.Other? {
        res := -1;
      }
      if !cmd.ResetPanTiltNoMutex? {
        Unlock();
      }
    }

    /** Lines 250-256. */
    method Home(resetOk: bool) returns (res: int)
      requires Tracking()
      modifies this`pan, this`tilt, this`panTiltValid, this`log
      ensures Tracking() && (panTiltValid <==> old(panTiltValid) || resetOk)
      ensures res == if resetOk then 0 else -1
      ensures Place(pan, tilt) == if resetOk then Place(0, 0) else old(Place(pan, tilt))
    {
      res := 0;
      RequestedMore(log, Sent(Reset, resetOk));
      WasResetMore(log, Sent(Reset, resetOk));
      var rc := UvcPanTilt(0, 0, true, resetOk);
      if rc != 0 {
        return -1;
      }
      panTiltValid := true;
      pan, tilt := 0, 0;
    }

    /** Lines 271-286, 298-302 and 317-321. */
    method DrivePan(cmd: Command, value: int, moveOk: bool) returns (res: int)
      requires Tracking() && panTiltValid && (cmd.PanSet? || cmd.PanPlus? || cmd.PanMinus?)
      modifies this`pan, this`log
      ensures Tracking() && Place(pan, tilt) == Target(cmd, value, old(pan), old(tilt))
      ensures log == old(log) || log == old(log) + [Sent(Move(pan - old(pan), 0), moveOk)]
      ensures cmd.PanSet? && pan == old(pan) ==> log == old(log)
      ensures res == Quotient(pan, ONE_DEGREE)
    {
      match cmd {
      case PanSet =>
        ClampDegrees(value, 70);
        var target := Clamp(value * ONE_DEGREE, MIN_PAN, MAX_PAN);
        res := target - pan;
        if res == 0 {
          return Quotient(pan, ONE_DEGREE);
        }
        pan := target;
        MoveBy(res, 0, moveOk);
      case PanPlus =>
        if MAX_PAN >= pan + minRes {
          pan := pan + minRes;
          MoveBy(minRes, 0, moveOk);
        }
      case PanMinus =>
        if MIN_PAN <= pan - minRes {
          pan := pan - minRes;
          MoveBy(0 - minRes, 0, moveOk);
        }
      }
      res := Quotient(pan, ONE_DEGREE);
    }

    /** Lines 337-352, 364-368 and 383-387. */
    method DriveTilt(cmd: Command, value: int, moveOk: bool) returns (res: int)
      requires Tracking() && panTiltValid && (cmd.TiltSet? || cmd.TiltPlus? || cmd.TiltMinus?)
      modifies this`tilt, this`log
      ensures Tracking() && Place(pan, tilt) == Target(cmd, value, old(pan), old(tilt))
      ensures log == old(log) || log == old(log) + [Sent(Move(0, old(tilt) - tilt), moveOk)]
      ensures cmd.TiltSet? && tilt == old(tilt) ==> log == old(log)
      ensures res == Quotient(tilt, ONE_DEGREE)
    {
      match cmd {
      case TiltSet =>
        ClampDegrees(value, 30);
        var target := Clamp(value * ONE_DEGREE, MIN_TILT, MAX_TILT);
        res := target - tilt;
        if res == 0 {
          return Quotient(tilt, ONE_DEGREE);
        }
        tilt := target;
        MoveBy(0, res, moveOk);
      case TiltPlus =>
        if MAX_TILT >= tilt + minRes {
          tilt := tilt + minRes;
          MoveBy(0, minRes, moveOk);
        }
      case TiltMinus =>
        if MIN_TILT <= tilt - minRes {
          tilt := tilt - minRes;
          MoveBy(0, 0 - minRes, moveOk);
        }
      }
      res := Quotient(tilt, ONE_DEGREE);
    }

    /** A move whose answer is not looked at. */
    method MoveBy(x: int, y: int, moveOk: bool)
      modifies this`log
      ensures Requested(log) == Place(old(Requested(log)).x + x, old(Requested(log)).y - y)
      ensures log == old(log) + [Sent(Move(x, -y), moveOk)] && (WasReset(log) <==> old(WasReset(log)))
    {
      WasResetMore(log, Sent(Move(x, -y), moveOk));
      RequestedMore(log, Sent(Move(x, -y), moveOk));
      var _ := UvcPanTilt(x, y, false, moveOk);
    }
  }

  // What the commands mean, in 64ths of a degree

  /** `p` is the place in reach that is nearest to `wanted`. */
  ghost predicate Nearest(p: int, wanted: int, reach: int) {
    && -reach <= p <= reach
    && forall q :: -reach <= q <= reach ==> Distance(p, wanted) <= Distance(q, wanted)
  }

  function Distance(a: int, b: int): nat {
    if a <= b then b - a else a - b
  }

  /** One step up or down, unless that leads out of reach. */
  ghost predicate Stepped(before: int, after: int, step: int, reach: int) {
    if -reach <= before + step <= reach then after == before + step else after == before
  }

  ghost predicate Obeys(cmd: Command, value: int, step: int, before: Place, after: Place) {
    && (cmd.PanSet? ==> Nearest(after.x, 64 * value, 4480))
    && (cmd.PanPlus? ==> Stepped(before.x, after.x, step, 4480))
    && (cmd.PanMinus? ==> Stepped(before.x, after.x, -step, 4480))
    && (cmd.TiltSet? ==> Nearest(after.y, 64 * value, 1920))
    && (cmd.TiltPlus? ==> Stepped(before.y, after.y, step, 1920))
    && (cmd.TiltMinus? ==> Stepped(before.y, after.y, -step, 1920))
    && (cmd.PanSet? || cmd.PanPlus? || cmd.PanMinus? ==> after.y == before.y)
    && (cmd.TiltSet? || cmd.TiltPlus? || cmd.TiltMinus? ==> after.x == before.x)
    && (cmd.ResetPanTilt? || cmd.ResetPanTiltNoMutex? ==> after == Place(0, 0))
    && (cmd.Hello? || cmd.Other? ==> after == before)
  }

  lemma NearestIsClamp(p: int, wanted: int, reach: int)
    requires reach >= 0
    ensures Nearest(p, wanted, reach) <==> p == Clamp(wanted, -reach, reach)
  {
    var c := Clamp(wanted, -reach, reach);
    if Nearest(p, wanted, reach) {
      assert Distance(p, wanted) <= Distance(c, wanted);
    }
  }

  /** From a place within the limits a command leads where it says, and nowhere else. */
  lemma TargetIff(c: Controller, cmd: Command, value: int, before: Place, after: Place)
    requires -4480 <= before.x <= 4480 && -1920 <= before.y <= 1920
    ensures after == c.Target(cmd, value, before.x, before.y)
       <==> Obeys(cmd, value, c.minRes, before, after)
  {
    NearestIsClamp(after.x, 64 * value, 4480);
    NearestIsClamp(after.y, 64 * value, 1920);
    ClampDegrees(value, 70);
    ClampDegrees(value, 30);
    hide Nearest;
  }

  // The device

  ghost predicate MovesSucceed(log: seq<Sent>) {
    forall i :: 0 <= i < |log| && log[i].request.Move? ==> log[i].ok
  }

  /** The sum of the moves that have failed since the last successful reset. */
  function Missed(log: seq<Sent>): Place {
    if log == [] then Place(0, 0) else
      var before, last := Missed(log[..|log| - 1]), log[|log| - 1];
      match last.request
      case Reset => if last.ok then Place(0, 0) else before
      case Move(x, y) => if last.ok then before else Place(before.x + x, before.y + y)
  }

  /** What is left of the place the device began at. */
  function Unknown(start: Place, log: seq<Sent>): Place {
    if WasReset(log) then Place(0, 0) else start
  }

  /** The device stays behind the requests by exactly that sum, and ahead of them by an unknown beginning. */
  lemma {:induction false} DeviceStaysBehind(start: Place, log: seq<Sent>)
    ensures Device(start, log).x + Missed(log).x == Requested(log).x + Unknown(start, log).x
    ensures Device(start, log).y + Missed(log).y == Requested(log).y + Unknown(start, log).y
  {
    if log != [] {
      var n := |log| - 1;
      DeviceStaysBehind(start, log[..n]);
      WasResetMore(log[..n], log[n]);
      assert log == log[..n] + [log[n]];
      hide WasReset;
    }
  }

  /**
    So it is where the requests add up to if and only if the moves that failed since the last
    successful reset cancel, or make up for the place it began at if there was no such reset.
   */
  lemma DeviceIff(start: Place, log: seq<Sent>)
    ensures Device(start, log) == Requested(log) <==> Missed(log) == Unknown(start, log)
  {
    DeviceStaysBehind(start, log);
    hide WasReset;
  }

  /** And that is where the tracker says, in every reachable state, wherever the device began. */
  lemma DeviceFollowsIff(c: Controller, start: Place)
    requires c.Tracking()
    ensures Device(start, c.log) == Place(c.pan, -c.tilt)
       <==> Missed(c.log) == if c.panTiltValid then Place(0, 0) else start
  {
    DeviceIff(start, c.log);
  }

  lemma {:induction false} NothingMissed(log: seq<Sent>)
    requires MovesSucceed(log)
    ensures Missed(log) == Place(0, 0)
  {
    if log != [] {
      NothingMissed(log[..|log| - 1]);
    }
  }

  /** In particular, from a successful reset on, while every move succeeds. */
  lemma DeviceFollows(c: Controller, start: Place)
    requires c.Tracking() && c.panTiltValid && MovesSucceed(c.log)
    ensures Device(start, c.log) == Place(c.pan, -c.tilt)
  {
    NothingMissed(c.log);
    DeviceFollowsIff(c, start);
  }
}
