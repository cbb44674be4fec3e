/** The main object in irrigation mode, with its pump, its valves, its two pipes and its clock, proved to take
    the seconds of Irrigation (main/acionna/acionna.cpp:1831-1889, 1978-2077, 2121-2130, 2435-2462). */
module Controller {
  import opened Irrigation
  import opened Options
  import opened Words
  import A = AirIntake
  import Clock
  import NightSchedule
  import P = PumpControl
  import Pump
  import V = ValveCycle
  import Valves

  const LIST_SIZE := 9

  /** The number of the last entry that has time t; the length of the list if there is none. */
  function LastMatch(list: seq<nat>, t: nat): (k: nat)
    ensures k <= |list| && (k < |list| ==> list[k] == t)
    ensures forall j :: 0 <= j < |list| && list[j] == t ==> j <= k < |list|
  {
    if list == [] then 0
    else
      var n := |list| - 1;
      if list[n] == t then n
      else
        var k := LastMatch(list[..n], t);
        assert forall j :: 0 <= j < n ==> list[..n][j] == list[j];
        if k == n then n + 1 else k
  }

  class Acionna {
    const pump: Pump.Pump
    const valves: Valves.Sequencer
    const pipe1: A.Pipe
    const pipe2: A.Pipe
    const clock: Clock.Clockin
    var flagCheckTimer: bool
    var flagCheckValves: bool
    var flagCheckThermalRelay: bool
    var flagCheckPressureHigh: bool
    var flagCheckPressureLow: bool
    var flagCheckPressureLowK1: bool
    var flagCheckPressureLowDelta: bool
    var flagCheckPressureLowK2: bool
    var flagCheckTimeMatch: bool
    var timeMatchN: nat
    const timeMatch: array<nat>
    const timeToShutdown: array<nat>
    const autoStartMode: array<P.StartType>
    var timeDaySec: nat
    var uptime: nat
    var epochTime: nat

    ghost predicate Valid()
      reads this, valves, valves.load, clock, clock.dt
    {
      valves.Valid() && clock.Valid() && pipe1 != pipe2 && ListValid()
    }

    ghost predicate ListValid()
      reads `timeMatchN
    {
      && timeMatch.Length == timeToShutdown.Length == autoStartMode.Length == LIST_SIZE
      && timeMatchN <= LIST_SIZE
    }

    ghost function Settings(): Config
      reads this, pump, valves, valves.programmed, valves.timeElapsedCfg
    {
      Config(pump.flagCheckOutputPinOnly, pump.timeSwitchKChange, pump.timeDeltaToYSwitchConfig,
             pump.timeWaitPowerOnConfig, valves.Settings(),
             flagCheckTimer, flagCheckValves, flagCheckThermalRelay)
    }

    ghost function View(): State
      reads this, pump, valves, valves.load
    {
      State(pump.View(), pump.timeToShutdownConfig, valves.View())
    }

    // ----- what the pipes and the start list say -----

    /** The detector of pipe 1 after it was asked about K1, and after it was asked about delta too. */
    ghost function AskedK1(motor: P.Motor, p1: int): A.State
      reads `flagCheckPressureLow, `flagCheckPressureLowK1, pipe1
    {
      if flagCheckPressureLow && flagCheckPressureLowK1 then A.Next(pipe1.View(), A.Call(motor == P.OnK1, p1))
      else pipe1.View()
    }

    ghost function AskedDelta(motor: P.Motor, p1: int): A.State
      reads `flagCheckPressureLow, `flagCheckPressureLowK1, `flagCheckPressureLowDelta, pipe1
    {
      var s := AskedK1(motor, p1);
      if flagCheckPressureLow && flagCheckPressureLowDelta then A.Next(s, A.Call(motor == P.OnDelta, p1)) else s
    }

    ghost function AskedK2(motor: P.Motor, p2: int): A.State
      reads `flagCheckPressureLow, `flagCheckPressureLowK2, pipe2
    {
      if flagCheckPressureLow && flagCheckPressureLowK2 then A.Next(pipe2.View(), A.Call(motor == P.OnK2, p2))
      else pipe2.View()
    }

    /** The entry of the start list for time t. */
    ghost function Matching(t: nat): Option<Entry>
      requires ListValid()
      reads `flagCheckTimeMatch, `timeMatchN, timeMatch, timeToShutdown, autoStartMode
    {
      var k := LastMatch(timeMatch[..timeMatchN], t);
      if flagCheckTimeMatch && k < timeMatchN then Some(Entry(autoStartMode[k], timeToShutdown[k])) else None
    }

    /** All that a second asks the pipes and the start list, with motor, pressures and time as they are. */
    ghost function Verdicts(motor: P.Motor, p1: int, p2: int, t: nat): Input
      requires ListValid()
      reads `flagCheckTimeMatch, `timeMatchN, timeMatch, timeToShutdown, autoStartMode
      reads `flagCheckPressureHigh, `flagCheckPressureLow, `flagCheckPressureLowK1
      reads `flagCheckPressureLowDelta, `flagCheckPressureLowK2, pipe1, pipe2
    {
      Input(flagCheckPressureHigh && p1 > pipe1.pressureMax,
            flagCheckPressureLow && flagCheckPressureLowK1 && A.Detects(pipe1.View()),
            flagCheckPressureLow && flagCheckPressureLowDelta && A.Detects(AskedK1(motor, p1)),
            flagCheckPressureLow && flagCheckPressureLowK2 && A.Detects(pipe2.View()),
            Matching(t))
    }

    /** A detector that is asked in this second has found air; the one of pipe 1 may be asked twice. */
    ghost predicate AirFound(motor: P.Motor, p1: int)
      reads `flagCheckPressureLow, `flagCheckPressureLowK1, `flagCheckPressureLowDelta, `flagCheckPressureLowK2
      reads pipe1, pipe2
    {
      var asked := if flagCheckPressureLowK1 then A.Next(pipe1.View(), A.Call(motor == P.OnK1, p1)) else pipe1.View();
      flagCheckPressureLow &&
      (|| (flagCheckPressureLowK1 && A.Detects(pipe1.View()))
       || (flagCheckPressureLowDelta && A.Detects(asked))
       || (flagCheckPressureLowK2 && A.Detects(pipe2.View())))
    }

    /** By its flags, its pipes and the state of its pump the pump is to stop in this second. */
    ghost predicate StopDue(p: P.State, p1: int)
      reads `flagCheckTimer, `flagCheckThermalRelay, `flagCheckPressureHigh, `flagCheckPressureLow
      reads `flagCheckPressureLowK1, `flagCheckPressureLowDelta, `flagCheckPressureLowK2, pipe1, pipe2
    {
      || (flagCheckTimer && p.motor in {P.OnK1, P.OnK2, P.OnDelta, P.OnSpeedingUp} && p.timeToShutdown == 0)
      || (flagCheckPressureHigh && p1 > pipe1.pressureMax && p.motor in {P.OnK1, P.OnDelta, P.OnSpeedingUp})
      || AirFound(p.motor, p1)
      || (flagCheckThermalRelay && p.wires.rth && p.motor != P.OffThermal)
    }

    constructor (pump: Pump.Pump, valves: Valves.Sequencer, pipe1: A.Pipe, pipe2: A.Pipe, clock: Clock.Clockin)
      requires valves.Valid() && clock.Valid() && pipe1 != pipe2
      ensures Valid() && this.pump == pump && this.valves == valves
      ensures this.pipe1 == pipe1 && this.pipe2 == pipe2 && this.clock == clock
      ensures fresh(timeMatch) && fresh(timeToShutdown) && fresh(autoStartMode)
      ensures flagCheckTimer && !flagCheckValves && !flagCheckThermalRelay && !flagCheckTimeMatch
    {
      this.pump, this.valves, this.pipe1, this.pipe2, this.clock := pump, valves, pipe1, pipe2, clock;
      flagCheckTimer, flagCheckValves, flagCheckThermalRelay := true, false, false;
      flagCheckPressureHigh, flagCheckPressureLow, flagCheckPressureLowK1 := true, true, false;
      flagCheckPressureLowDelta, flagCheckPressureLowK2, flagCheckTimeMatch := true, true, false;
      timeMatchN := 1;
      timeMatch := new nat[LIST_SIZE](k => 0);
      timeToShutdown := new nat[LIST_SIZE](k => 0);
      autoStartMode := new P.StartType[LIST_SIZE](k => P.Unset);
      timeDaySec, uptime, epochTime := 0, 0, 0;
    }

    /** The clock is shown anew; the second of the day goes back to 0 at its end. */
    method UpdateClock(uptimeSec: nat)
      requires Valid() && uptimeSec < WORD32
      modifies `timeDaySec, `uptime, `epochTime, clock, clock.dt
      ensures Valid() && uptime == (old(uptime) + 1) % WORD32
      ensures timeDaySec == if old(timeDaySec) + 1 == NightSchedule.DAY then 0 else old(timeDaySec) + 1
      ensures epochTime == clock.unixTime == (uptimeSec + old(clock.timeOffset)) % WORD32
    {
      clock.Fetch(uptimeSec);
      epochTime := clock.unixTime;
      uptime := (uptime + 1) % WORD32;
      timeDaySec := timeDaySec + 1;
      if timeDaySec == NightSchedule.DAY {
        timeDaySec := 0;
      }
    }

    method UpdateObjects(p1: int, p2: int)
      requires Valid()
      modifies pump, valves, valves.load, pipe1`pressureMca, pipe2`pressureMca
      ensures Valid() && Settings() == old(Settings())
      ensures View() == Irrigation.UpdateObjects(Settings(), pump.env, old(View()))
      ensures pipe1.pressureMca == p1 && pipe2.pressureMca == p2
    {
      pump.Update();
      pipe1.Update(p1);
      pipe2.Update(p2);
      valves.Update();
    }

    method StopWhen(b: bool)
      requires Valid()
      modifies pump
      ensures Valid() && Settings() == old(Settings())
      ensures View() == StopIf(Settings(), pump.env, old(View()), b) && pump.stateMotor == old(pump.stateMotor)
    {
      if b {
        pump.Stop();
      }
    }

    method CheckTimer()
      requires Valid()
      modifies pump
      ensures Valid() && Settings() == old(Settings())
      ensures View() == StopIf(Settings(), pump.env, old(View()), TimeIsUp(Settings(), old(View()).pump))
      ensures pump.stateMotor == old(pump.stateMotor)
    {
      StopWhen(flagCheckTimer && P.On(pump.stateMotor) && pump.timeToShutdown == 0);
    }

    method CheckHighPressure(ghost i: Input)
      requires Valid() && i.pressureHigh == (flagCheckPressureHigh && pipe1.pressureMca > pipe1.pressureMax)
      modifies pump
      ensures Valid() && Settings() == old(Settings())
      ensures View() == StopIf(Settings(), pump.env, old(View()), TooHigh(old(View()).pump, i))
      ensures pump.stateMotor == old(pump.stateMotor)
    {
      var m := pump.stateMotor;
      StopWhen(flagCheckPressureHigh && pipe1.pressureMca > pipe1.pressureMax &&
               (m == P.OnK1 || m == P.OnDelta || m == P.OnSpeedingUp));
    }

    /** Asks the detector of a pipe, if the check is on. */
    method Ask(pipe: A.Pipe, on: bool, reference: P.Motor) returns (detected: bool)
      modifies pipe`airDetectState, pipe`airDetectTimerIncrease, pipe`airDetectCountIncrease,
               pipe`pressureMcaPrevious, pipe`pressureMcaAvg
      ensures pipe.View() == if on then A.Next(old(pipe.View()), A.Call(pump.stateMotor == reference, pipe.pressureMca))
                             else old(pipe.View())
      ensures detected == (on && A.Detects(old(pipe.View())))
    {
      detected := false;
      if on {
        detected := pipe.AirIntakeDetect(pump.stateMotor == reference);
      }
    }

    method CheckLowPressure(ghost i: Input)
      requires Valid()
      requires i == Verdicts(pump.stateMotor, pipe1.pressureMca, pipe2.pressureMca, timeDaySec)
      modifies pump, pipe1, pipe2
      ensures Valid() && Settings() == old(Settings())
      ensures View() == LowPressureCheck(Settings(), pump.env, old(View()), i)
      ensures if old(AirFound(pump.stateMotor, pipe1.pressureMca)) then Halted(old(View()).pump, View().pump)
              else View() == old(View())
      ensures pipe1.View() == old(AskedDelta(pump.stateMotor, pipe1.pressureMca))
      ensures pipe2.View() == old(AskedK2(pump.stateMotor, pipe2.pressureMca))
      ensures flagCheckPressureLow && flagCheckPressureLowDelta && !flagCheckPressureLowK1 ==>
                pipe1.View() == A.Next(old(pipe1.View()), A.Call(old(pump.stateMotor) == P.OnDelta, pipe1.pressureMca))
      ensures flagCheckPressureLow && flagCheckPressureLowK2 ==>
                pipe2.View() == A.Next(old(pipe2.View()), A.Call(old(pump.stateMotor) == P.OnK2, pipe2.pressureMca))
    {
      var airK1 := Ask(pipe1, flagCheckPressureLow && flagCheckPressureLowK1, P.OnK1);
      StopWhen(airK1);
      var airDelta := Ask(pipe1, flagCheckPressureLow && flagCheckPressureLowDelta, P.OnDelta);
      StopWhen(airDelta);
      var airK2 := Ask(pipe2, flagCheckPressureLow && flagCheckPressureLowK2, P.OnK2);
      StopWhen(airK2);
      LowPressureHalts(Settings(), pump.env, old(View()), i);
    }

    method CheckPressure(ghost i: Input)
      requires Valid()
      requires i == Verdicts(pump.stateMotor, pipe1.pressureMca, pipe2.pressureMca, timeDaySec)
      modifies pump, pipe1, pipe2
      ensures Valid() && Settings() == old(Settings())
      ensures var s := StopIf(Settings(), pump.env, old(View()), TooHigh(old(View()).pump, i));
              View() == LowPressureCheck(Settings(), pump.env, s, i)
      ensures pipe1.View() == old(AskedDelta(pump.stateMotor, pipe1.pressureMca))
      ensures pipe2.View() == old(AskedK2(pump.stateMotor, pipe2.pressureMca))
    {
      CheckHighPressure(i);
      CheckLowPressure(i);
    }

    lemma StopDueIs(p: P.State, p1: int, p2: int, t: nat)
      requires Valid()
      ensures MustStop(Settings(), p, Verdicts(p.motor, p1, p2, t)) == StopDue(p, p1)
    {
    }

    /** The timer, the pressure and the thermal relay, in the order of the code. */
    method StopChecks(ghost i: Input)
      requires Valid()
      requires i == Verdicts(pump.stateMotor, pipe1.pressureMca, pipe2.pressureMca, timeDaySec)
      modifies pump, pipe1, pipe2
      ensures Valid() && Settings() == old(Settings())
      ensures View() == StopCheck(Settings(), pump.env, old(View()), i)
      ensures pipe1.View() == old(AskedDelta(pump.stateMotor, pipe1.pressureMca))
      ensures pipe2.View() == old(AskedK2(pump.stateMotor, pipe2.pressureMca))
    {
      CheckTimer();
      CheckPressure(i);
      StopWhen(flagCheckThermalRelay && pump.stateRth && pump.stateMotor != P.OffThermal);
    }

    method OperationPumpStopCheck(ghost i: Input)
      requires Valid()
      requires i == Verdicts(pump.stateMotor, pipe1.pressureMca, pipe2.pressureMca, timeDaySec)
      modifies pump, pipe1, pipe2
      ensures Valid() && Settings() == old(Settings())
      ensures View() == StopCheck(Settings(), pump.env, old(View()), i)
      ensures if old(StopDue(View().pump, pipe1.pressureMca)) then Halted(old(View()).pump, View().pump)
              else View() == old(View())
      ensures pipe1.View() == old(AskedDelta(pump.stateMotor, pipe1.pressureMca))
      ensures pipe2.View() == old(AskedK2(pump.stateMotor, pipe2.pressureMca))
    {
      StopDueIs(View().pump, pipe1.pressureMca, pipe2.pressureMca, timeDaySec);
      StopCheckStops(Settings(), pump.env, View(), i);
      StopChecks(i);
    }

    /** The loop over the start list, which goes on to the last entry that matches. */
    method FindMatch() returns (found: bool, index: nat)
      requires Valid()
      ensures var k := LastMatch(timeMatch[..timeMatchN], timeDaySec);
              found == (k < timeMatchN) && (found ==> index == k)
    {
      found, index := false, 0;
      for i := 0 to timeMatchN
        invariant var k := LastMatch(timeMatch[..i], timeDaySec);
                  found == (k < i) && (found ==> index == k)
      {
        assert timeMatch[..i + 1][..i] == timeMatch[..i];
        if timeMatch[i] == timeDaySec {
          found, index := true, i;
        }
      }
    }

    method OperationPumpStartMatch(ghost i: Input)
      requires Valid() && i.matching == Matching(timeDaySec)
      modifies pump
      ensures Valid() && Settings() == old(Settings())
      ensures View() == StartMatch(Settings(), pump.env, old(View()), i)
      ensures var k := LastMatch(timeMatch[..timeMatchN], timeDaySec);
              if flagCheckTimeMatch && k < timeMatchN && old(pump.stateMotor) == P.OffIdle then
                && (timeToShutdown[k] != 0 ==> pump.timeToShutdown == timeToShutdown[k])
                && (autoStartMode[k] == P.YDeltaRequest ==> Requested(View().pump) && pump.Lines() == old(pump.Lines()))
              else View() == old(View())
    {
      StartMatchIs(Settings(), pump.env, View(), i);
      if flagCheckTimeMatch {
        var found, index := FindMatch();
        if found {
          if pump.stateMotor == P.OffIdle {
            var code := pump.Start(autoStartMode[index]);
            if timeToShutdown[index] != 0 {
              pump.timeToShutdown := timeToShutdown[index];
            }
          }
        }
      }
    }

    method KeepCurrentValve()
      requires Valid()
      modifies valves.load
      ensures Valid() && Settings() == old(Settings()) && View() == KeepCurrent(Settings(), old(View()))
    {
      if flagCheckValves {
        if pump.stateMotor == P.OnDelta && valves.automaticSwitch {
          valves.SetValveState(valves.valveCurrent, true);
        }
      }
    }

    method StartValves()
      requires Valid()
      modifies pump`timeToShutdown, pump`timeToShutdownConfig, valves, valves.load
      ensures Valid() && Settings() == old(Settings()) && View() == FollowStart(Settings(), old(View()))
    {
      if !valves.automaticSwitch {
        if pump.stateMotor == P.OnSpeedingUp {
          valves.Start();
          var total := valves.GetTotalTimeProgrammed();
          pump.timeToShutdown := (total - 10) % WORD32;
          pump.timeToShutdownConfig := total % WORD32;
        }
      }
    }

    method StopValves()
      requires Valid()
      modifies valves, valves.load
      ensures Valid() && Settings() == old(Settings()) && View() == FollowStop(old(View()))
    {
      if valves.automaticSwitch {
        if pump.stateMotor != P.OnDelta {
          if pump.stateMotor != P.OnSpeedingUp {
            valves.Stop();
          }
        }
      }
    }

    method OperationPumpValves()
      requires Valid()
      modifies pump`timeToShutdown, pump`timeToShutdownConfig, valves, valves.load
      ensures Valid() && Settings() == old(Settings())
      ensures View() == PumpValves(Settings(), old(View()))
    {
      KeepCurrentValve();
      StartValves();
      StopValves();
    }

    /** operation_mode in irrigation mode. */
    method OperationMode(ghost i: Input)
      requires Valid()
      requires i == Verdicts(pump.stateMotor, pipe1.pressureMca, pipe2.pressureMca, timeDaySec)
      modifies pump, pipe1, pipe2, valves, valves.load
      ensures Valid() && Settings() == old(Settings())
      ensures View() == PumpValves(Settings(), StartMatch(Settings(), pump.env,
                                                          StopCheck(Settings(), pump.env, old(View()), i), i))
      ensures pipe1.View() == old(AskedDelta(pump.stateMotor, pipe1.pressureMca))
      ensures pipe2.View() == old(AskedK2(pump.stateMotor, pipe2.pressureMca))
    {
      OperationPumpStopCheck(i);
      OperationPumpStartMatch(i);
      OperationPumpValves();
    }

    /** The updates of the objects and operation_mode, with the clock as it is. */
    method RunObjects(p1: int, p2: int) returns (ghost i: Input)
      requires Valid()
      modifies pump, pipe1, pipe2, valves, valves.load
      ensures Valid() && Settings() == old(Settings())
      ensures var motor := Irrigation.UpdateObjects(Settings(), pump.env, old(View())).pump.motor;
              && i == old(Verdicts(motor, p1, p2, timeDaySec))
              && pipe1.View() == old(AskedDelta(motor, p1)) && pipe2.View() == old(AskedK2(motor, p2))
      ensures View() == Second(Settings(), pump.env, old(View()), i)
    {
      UpdateObjects(p1, p2);
      i := Verdicts(pump.stateMotor, p1, p2, timeDaySec);
      OperationMode(i);
    }

    /** The pump after the updates of the second. */
    ghost function Updated(): P.State
      requires Valid()
      reads this, pump, valves, valves.programmed, valves.timeElapsedCfg, valves.load, clock, clock.dt
    {
      Irrigation.UpdateObjects(Settings(), pump.env, View()).pump
    }

    /** run_every_second in irrigation mode: a second of Irrigation, with the verdicts of the pipes and the
        start list at the time and with the pressures of that second, which are returned. */
    method RunEverySecond(uptimeSec: nat, p1: int, p2: int) returns (ghost i: Input)
      requires Valid() && uptimeSec < WORD32
      modifies this, pump, pipe1, pipe2, valves, valves.load, clock, clock.dt
      ensures Valid() && Settings() == old(Settings())
      ensures timeDaySec == if old(timeDaySec) + 1 == NightSchedule.DAY then 0 else old(timeDaySec) + 1
      ensures var motor := Irrigation.UpdateObjects(Settings(), pump.env, old(View())).pump.motor;
              && i == old(Verdicts(motor, p1, p2, if timeDaySec + 1 == NightSchedule.DAY then 0 else timeDaySec + 1))
              && pipe1.View() == old(AskedDelta(motor, p1)) && pipe2.View() == old(AskedK2(motor, p2))
      ensures View() == Second(Settings(), pump.env, old(View()), i)
    {
      UpdateClock(uptimeSec);
      i := RunObjects(p1, p2);
    }

    /** A second in which the pump is to stop, by the flags, the pipes and the pump as its updates leave it, ends
        with all its outputs low, and any other second with the outputs as they were, if no direct start is due. */
    lemma SecondStopsWhenDue(p1: int, p2: int, t: nat)
      requires Valid()
      ensures var i := Verdicts(Updated().motor, p1, p2, t);
              StoppedFor(StopDue(Updated(), p1), Updated(), i, Second(Settings(), pump.env, View(), i).pump)
    {
      StopDueIs(Updated(), p1, p2, t);
      SecondStops(Settings(), pump.env, View(), Verdicts(Updated().motor, p1, p2, t));
    }
  }
}
