/** The frame object (`MyFrame`): its fields, `show_battery`, and one
    iteration of the worker loop. */
module Tray {
  import opened Wrappers
  import opened Registry
  import opened Locator
  import opened Report
  import opened Reporter
  import opened Display
  import opened Scheduler

  /** After any poll the interval is defined, and it is fast exactly when the
      mouse is absent or on the cable; a stale wired flag from an earlier poll
      never matters on the absent path. */
  lemma IntervalAfterShow(t: Tray, result: Option<Reading>, freshThread: bool)
    ensures var u := Show(t, result, freshThread).0;
      && (u.batteryStr == "-" || u.wired.Some?)
      && Interval(u.batteryStr, u.wired) ==
           if result.None? || IsWired(result.value) then FastRate else PollRate
  {
  }

  /** A response with charge 82 and a clear wired flag shows "82" and the
      next poll is a minute away. */
  lemma ScenarioUnwired82(t: Tray, enumerate: Enumerator, res: seq<Byte>)
    requires Locate(ActiveMouse, enumerate).Found?
    requires |res| == ReportLength && res[6] == 82 && res[7] == 0
    ensures var u := Show(t, GetBatteryFixed(ActiveMouse, enumerate, Some(res)), true).0;
      u.shown == Some(Percent("82")) && Interval(u.batteryStr, u.wired) == 60
  {
    assert DecimalString(82) == "82";
  }

  /** A full mouse on the cable shows the green icon and is polled every second. */
  lemma ScenarioFullWired(t: Tray, enumerate: Enumerator, res: seq<Byte>)
    requires Locate(ActiveMouse, enumerate).Found?
    requires |res| == ReportLength && res[6] == 100 && res[7] == 1
    ensures var u := Show(t, GetBatteryFixed(ActiveMouse, enumerate, Some(res)), true).0;
      u.shown == Some(FullWired) && Interval(u.batteryStr, u.wired) == 1
  {
  }

  /** No device under either product id: "-" and a one-second retry. */
  lemma ScenarioNoDevice(t: Tray, enumerate: Enumerator, reply: Option<seq<Byte>>)
    requires enumerate(ActiveMouse.vid, ActiveMouse.pidWireless) == []
    requires enumerate(ActiveMouse.vid, ActiveMouse.pidWired) == []
    ensures GetBattery(ActiveMouse, enumerate, reply) == Absent
    ensures var u := Show(t, GetBatteryFixed(ActiveMouse, enumerate, reply), true).0;
      u.shown == Some(Disconnected) && Interval(u.batteryStr, u.wired) == 1
  {
  }

  class Frame {
    var batteryStr: string
    var wired: Option<Byte>
    var stopAnimation: Option<bool>
    var animation: Thread
    var shown: Option<DisplayState>
    ghost var starts: nat

    ghost function Snapshot(): Tray
      reads this
    {
      Tray(batteryStr, wired, stopAnimation, animation, shown, starts)
    }

    ghost predicate Valid()
      reads this
    {
      Consistent(Snapshot())
    }

    /** A frame with an empty text, the blank icon and an animation thread
        that has not been started. */
    constructor ()
      ensures Valid() && Snapshot() == Initial
    {
      batteryStr := "";
      wired := None;
      stopAnimation := None;
      animation := NotStarted;
      shown := None;
      starts := 0;
    }

    /** `show_battery` for the query result `result`, as written: `raised`
        tells that `start` was called on a finished animation thread. */
    method ShowBattery(result: Option<Reading>) returns (raised: bool)
      requires Valid()
      modifies this
      ensures Valid()
      ensures (Snapshot(), raised) == Show(old(Snapshot()), result, false)
    {
      ShowPreservesConsistent(Snapshot(), result, false);
      raised := false;
      match result {
        case None =>
          stopAnimation := Some(true);
          batteryStr := "-";
          if animation == Running {
            animation := Finished;
          }
          shown := Some(Disconnected);
        case Some(r) =>
          batteryStr := DecimalString(r.battery);
          wired := Some(r.wired);
          if IsWired(r) && r.battery < 100 {
            stopAnimation := Some(false);
            if animation == NotStarted {
              animation := Running;
              starts := starts + 1;
              shown := Some(Charging);
            } else if animation == Finished {
              raised := true;
            }
          } else {
            stopAnimation := Some(true);
            if animation == Running {
              animation := Finished;
            }
            if r.battery == 100 && IsWired(r) {
              shown := Some(FullWired);
            } else if r.battery == 100 && !IsWired(r) {
              shown := Some(FullUnwired);
            } else {
              shown := Some(Percent(batteryStr));
            }
          }
      }
    }

    /** `show_battery` with a new animation thread built whenever the old
        one has finished, so the charging branch can always start one. */
    method ShowBatteryFixed(result: Option<Reading>)
      requires Valid()
      modifies this
      ensures Valid()
      ensures Snapshot() == Show(old(Snapshot()), result, true).0
    {
      if Decide(result) == Charging && animation == Finished {
        animation := NotStarted;
      }
      var raised := ShowBattery(result);
      assert !raised;
    }

    /** One iteration of the worker loop, corrected: query the mouse, update
        the display, and return the seconds to sleep. */
    method WorkerStep(enumerate: Enumerator, reply: Option<seq<Byte>>) returns (interval: nat)
      requires Valid()
      modifies this
      ensures Valid()
      ensures Snapshot() == Show(old(Snapshot()), GetBatteryFixed(ActiveMouse, enumerate, reply), true).0
      ensures interval == if GetBatteryFixed(ActiveMouse, enumerate, reply).None? then FastRate
                          else if IsWired(GetBatteryFixed(ActiveMouse, enumerate, reply).value) then FastRate
                          else PollRate
    {
      var result := GetBatteryFixed(ActiveMouse, enumerate, reply);
      ghost var before := Snapshot();
      ShowBatteryFixed(result);
      IntervalAfterShow(before, result, true);
      interval := Interval(batteryStr, wired);
    }

    /** One iteration of the worker loop as written: `None` when an exception
        escaped and the worker thread ended, leaving the fields as the
        exception found them. */
    method WorkerStepAsWritten(enumerate: Enumerator, reply: Option<seq<Byte>>) returns (next: Option<nat>)
      requires Valid()
      modifies this
      ensures Valid()
      ensures GetBattery(ActiveMouse, enumerate, reply).Raised? ==> next.None? && Snapshot() == old(Snapshot())
      ensures !GetBattery(ActiveMouse, enumerate, reply).Raised? ==>
        var result := if GetBattery(ActiveMouse, enumerate, reply).Got?
                      then Some(GetBattery(ActiveMouse, enumerate, reply).reading) else None;
        var (u, raised) := Show(old(Snapshot()), result, false);
        Snapshot() == u &&
        (raised <==> next.None?) &&
        (next.Some? ==> next.value == if result.None? || IsWired(result.value) then FastRate else PollRate)
    {
      var fetched := GetBattery(ActiveMouse, enumerate, reply);
      if fetched.Raised? {
        return None;
      }
      var result := if fetched.Got? then Some(fetched.reading) else None;
      ghost var before := Snapshot();
      var raised := ShowBattery(result);
      if raised {
        return None;
      }
      IntervalAfterShow(before, result, false);
      next := Some(Interval(batteryStr, wired));
    }
  }
}
