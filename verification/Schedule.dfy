/** The optimized-mode scheduler object at work on the pump (main/acionna/acionna.cpp:1890-1977). */
module Schedule {
  import opened NightSchedule
  import opened Options
  import opened Words
  import PumpControl
  import Pump

  class Optimizer {
    const pump: Pump.Pump
    const startMode: array<PumpControl.StartType>
    const shutdownTime: array<nat>
    const cyclesN: array<int>
    var timeDaySec: nat
    var timeMatchStart: nat
    var timeMatchNext: nat
    var timeDelay: nat
    var timeRed: nat
    var flagTimeNextConfig: bool
    var flagStatusRunning: bool
    var cycleI: nat
    var eventI: nat
    var eventN: nat

    ghost predicate Valid()
      reads this
    {
      && startMode.Length == MAX_EVENTS && shutdownTime.Length == MAX_EVENTS && cyclesN.Length == MAX_EVENTS
      && eventN <= MAX_EVENTS && timeDaySec < DAY
    }

    ghost function Settings(): Config
      reads this, cyclesN
    {
      Config(timeMatchStart, timeRed, timeDelay, eventN, cyclesN[..])
    }

    ghost function View(): State
      reads this
    {
      State(timeDaySec, timeMatchNext, flagTimeNextConfig, eventI, cycleI, flagStatusRunning)
    }

    constructor (pump: Pump.Pump, timeDaySec: nat)
      requires timeDaySec < DAY
      ensures Valid() && this.pump == pump && fresh(startMode) && fresh(shutdownTime) && fresh(cyclesN)
      ensures View() == State(timeDaySec, 0, false, 0, 0, false)
      ensures Settings() == Config(77460, 21600, 300, 1, [1, 1, 1, 1, 1, 1, 1, 1, 1])
    {
      this.pump := pump;
      startMode := new PumpControl.StartType[MAX_EVENTS](k => PumpControl.DirectK2);
      shutdownTime := new nat[MAX_EVENTS](k => 0);
      cyclesN := new int[MAX_EVENTS](k => 1);
      this.timeDaySec, timeMatchStart, timeMatchNext := timeDaySec, 77460, 0;
      timeDelay, timeRed, flagTimeNextConfig, flagStatusRunning := 300, 21600, false, false;
      cycleI, eventI, eventN := 0, 0, 1;
    }

    method UpdateClock()
      requires Valid()
      modifies `timeDaySec
      ensures Valid() && View() == Clock(old(View()))
    {
      timeDaySec := timeDaySec + 1;
      if timeDaySec == DAY {
        timeDaySec := 0;
      }
    }

    ghost function PumpSettings(): PumpControl.Config
      reads pump
    {
      pump.Settings()
    }

    /** The pump after the start of an event was issued, its shutdown time set and the pump stopped. */
    ghost function PumpAfter(p: PumpControl.State, start: Option<nat>, cycled: Option<nat>, stopped: bool)
      : PumpControl.State
      requires Valid()
      requires (start.Some? ==> start.value < MAX_EVENTS) && (cycled.Some? ==> cycled.value < MAX_EVENTS)
      reads this, pump, startMode, shutdownTime
    {
      var started := if start.Some? then
                       PumpControl.Start(PumpSettings(), pump.env, p, startMode[start.value]).state
                     else p;
      var timed := if cycled.Some? && shutdownTime[cycled.value] != 0 then
                     started.(timeToShutdown := shutdownTime[cycled.value])
                   else started;
      if stopped then PumpControl.Stop(PumpSettings(), pump.env, timed) else timed
    }

    /** Starts event eventI if the motor is idle, counts the cycle and sets the shutdown time. */
    method StartEvent() returns (start: Option<nat>)
      requires Valid() && eventI < eventN
      modifies `flagTimeNextConfig, `cycleI, pump
      ensures Valid() && Settings() == old(Settings()) && pump.Settings() == old(pump.Settings())
      ensures View() == old(View()).(nextConfig := true, cycle := old(cycleI) + 1)
      ensures start == if old(pump.stateMotor) == PumpControl.OffIdle then Some(eventI) else None
      ensures pump.View() == PumpAfter(old(pump.View()), start, Some(eventI), false)
    {
      start := None;
      if pump.stateMotor == PumpControl.OffIdle {
        start := Some(eventI);
        var code := pump.Start(startMode[eventI]);
      }
      flagTimeNextConfig := true;
      cycleI := cycleI + 1;
      if shutdownTime[eventI] != 0 {
        pump.timeToShutdown := shutdownTime[eventI];
      }
    }

    /** The do-while over the events. */
    method StartNextEvent() returns (start: Option<nat>, cycled: Option<nat>)
      requires Valid()
      modifies `flagTimeNextConfig, `flagStatusRunning, `cycleI, `eventI, pump
      ensures Valid() && Settings() == old(Settings()) && pump.Settings() == old(pump.Settings())
      ensures Pick(Settings(), old(View())) == (View(), cycled)
      ensures start == if old(pump.stateMotor) == PumpControl.OffIdle then cycled else None
      ensures pump.View() == PumpAfter(old(pump.View()), start, cycled, false)
    {
      start, cycled := None, None;
      ghost var c, s0, p0 := Settings(), View(), pump.View();
      while true
        invariant Valid() && Settings() == c && start == cycled == None
        invariant pump.View() == p0 && pump.Settings() == old(pump.Settings())
        invariant Pick(c, View()) == Pick(c, s0)
        decreases eventN - eventI
      {
        if eventI < eventN {
          if cycleI < cyclesN[eventI] {
            cycled := Some(eventI);
            start := StartEvent();
          } else {
            eventI := eventI + 1;
            cycleI := 0;
          }
        } else {
          flagStatusRunning := false;
        }
        if !(eventI < eventN && !flagTimeNextConfig) {
          break;
        }
      }
    }

    /** Event e is to be started: the motor is idle, it is the start time or the planned time, and e is the
        next event with cycles left, at the start time from the first event on. */
    ghost predicate MustStart(e: nat)
      reads this, cyclesN, pump
    {
      var from := if timeDaySec == timeMatchStart then (0, 0) else (eventI, cycleI);
      && pump.stateMotor == PumpControl.OffIdle && (timeDaySec == timeMatchStart || timeDaySec == timeMatchNext)
      && NextEvent(Settings(), from, e) && (flagTimeNextConfig ==> e == from.0)
    }

    /** The start-time and next-time matches (acionna.cpp:1895-1947). */
    method MatchTimes() returns (start: Option<nat>, cycled: Option<nat>)
      requires Valid()
      modifies `flagTimeNextConfig, `flagStatusRunning, `cycleI, `eventI, pump
      ensures Valid() && Settings() == old(Settings()) && pump.Settings() == old(pump.Settings())
      ensures var idle := old(pump.stateMotor) == PumpControl.OffIdle;
              var r := Restart(Settings(), old(View()));
              && (View(), cycled) == (if Matches(Settings(), old(View()), Motor(idle, true)) then Pick(Settings(), r)
                                      else (r, None))
              && start == if idle then cycled else None
      ensures forall e: nat :: start == Some(e) <==> old(MustStart(e))
      ensures pump.View() == PumpAfter(old(pump.View()), start, cycled, false)
    {
      forall e: nat {
        PickIs(Settings(), Restart(Settings(), View()), e);
      }
      start, cycled := None, None;
      if timeMatchStart == timeDaySec {
        eventI, cycleI, flagStatusRunning := 0, 0, true;
        start, cycled := StartNextEvent();
      } else if timeMatchNext == timeDaySec {
        if pump.stateMotor == PumpControl.OffIdle {
          start, cycled := StartNextEvent();
        }
      }
    }

    method PlanNextTime()
      requires Valid()
      modifies `flagTimeNextConfig, `timeMatchNext
      ensures Valid() && View() == PlanNext(Settings(), old(View()), pump.stateMotor == PumpControl.OffIdle)
    {
      if flagTimeNextConfig {
        if pump.stateMotor == PumpControl.OffIdle {
          flagTimeNextConfig := false;
          timeMatchNext := (timeDaySec + timeDelay) % WORD32;
        }
      }
    }

    method CheckRedTime() returns (stopped: bool)
      requires Valid()
      modifies `flagTimeNextConfig, `timeMatchNext, pump
      ensures Valid() && pump.Settings() == old(pump.Settings()) && pump.stateMotor == old(pump.stateMotor)
      ensures View() == EnterRed(Settings(), old(View()), pump.stateMotor == PumpControl.OffIdle)
      ensures stopped == (timeDaySec == timeRed && pump.stateMotor != PumpControl.OffIdle)
      ensures pump.View() == if stopped then PumpControl.Stop(PumpSettings(), pump.env, old(pump.View()))
                             else old(pump.View())
      ensures stopped ==> PumpControl.Shut(pump.View())
    {
      stopped := false;
      if timeRed == timeDaySec {
        if pump.stateMotor != PumpControl.OffIdle {
          PumpControl.StopShuts(pump.Settings(), pump.env, pump.View());
          pump.Stop();
          stopped := true;
          flagTimeNextConfig := false;
        } else if timeMatchNext >= timeRed {
          timeMatchNext := (timeDaySec - 60) % WORD32;
        }
      }
    }

    /** operation_pump_start_match_optimized */
    method StartMatchOptimized() returns (start: Option<nat>, cycled: Option<nat>, stopped: bool)
      requires Valid()
      modifies this, pump
      ensures Valid() && Settings() == old(Settings()) && pump.Settings() == old(pump.Settings())
      ensures var m := Motor(old(pump.stateMotor) == PumpControl.OffIdle, pump.stateMotor == PumpControl.OffIdle);
              Call(Settings(), old(View()), m) == Outcome(View(), start, cycled, stopped)
      ensures forall e: nat :: start == Some(e) <==> old(MustStart(e))
      ensures (start.Some? ==> start.value < MAX_EVENTS) && (cycled.Some? ==> cycled.value < MAX_EVENTS)
      ensures pump.View() == PumpAfter(old(pump.View()), start, cycled, stopped)
      ensures cycled.Some? && shutdownTime[cycled.value] != 0 ==> pump.timeToShutdown == shutdownTime[cycled.value]
      ensures stopped <==> timeDaySec == timeRed && pump.stateMotor != PumpControl.OffIdle
      ensures stopped ==> PumpControl.Shut(pump.View())
      ensures cycled == None && !stopped ==> pump.View() == old(pump.View())
    {
      start, cycled := MatchTimes();
      PlanNextTime();
      stopped := CheckRedTime();
    }
  }
}
