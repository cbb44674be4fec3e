/** The pump object (main/acionna/pump.hpp), proved to behave as PumpControl. */
module Pump {
  import opened PumpControl
  import opened Words

  class Pump {
    const env: Environment
    var flagCheckOutputPinOnly: bool
    var timeSwitchKChange: nat
    var timeToShutdownConfig: nat
    var timeDeltaToYSwitchConfig: nat
    var timeWaitPowerOnConfig: nat

    var pins: Three
    var stateKPin: Three
    var stateK: Three
    var stateRth: bool
    var readings: nat
    ghost var log: seq<Event>

    var stateMotor: Motor
    var timeToShutdown: nat
    var flagStartYDelta: bool
    var startYDeltaState: StartType
    var timeDeltaToYSwitch: nat
    var timeOn: nat
    var timeOff: nat
    var timeWaitPowerOn: nat
    var flagCheckWaitPowerOn: bool

    ghost function Settings(): Config
      reads this
    {
      Config(flagCheckOutputPinOnly, timeSwitchKChange, timeToShutdownConfig, timeDeltaToYSwitchConfig,
             timeWaitPowerOnConfig)
    }

    ghost function Lines(): Wires
      reads this
    {
      Wires(pins, stateKPin, stateK, stateRth, readings, log)
    }

    ghost function View(): State
      reads this
    {
      State(Lines(), stateMotor, timeToShutdown, flagStartYDelta, startYDeltaState, timeDeltaToYSwitch,
            Counters(timeOn, timeOff, timeWaitPowerOn, flagCheckWaitPowerOn))
    }

    constructor (env: Environment)
      ensures this.env == env && View() == POWER_UP && Settings() == Config(false, 700, 1800, 7, 600)
    {
      this.env := env;
      flagCheckOutputPinOnly, timeSwitchKChange, timeToShutdownConfig := false, 700, 1800;
      timeDeltaToYSwitchConfig, timeWaitPowerOnConfig := 7, 600;
      pins, stateKPin, stateK, stateRth, readings, log := NONE, NONE, NONE, false, 0, [];
      stateMotor, timeToShutdown, flagStartYDelta := OffIdle, 0, false;
      startYDeltaState, timeDeltaToYSwitch := YDeltaRequest, 0;
      timeOn, timeOff, timeWaitPowerOn, flagCheckWaitPowerOn := 0, 0, 0, false;
    }

    method DriveK(k: Contactor, on: bool)
      modifies `pins, `log
      ensures Lines() == DrivePin(old(Lines()), k, on)
    {
      pins := Put(pins, k, on);
      log := log + [Drive(k, on)];
    }

    method UpdateSwitches()
      modifies `stateKPin, `stateK, `stateRth, `readings, `log
      ensures Lines() == Refresh(Settings(), env, old(Lines()))
    {
      stateKPin := pins;
      var r := env(readings, pins);
      readings := readings + 1;
      log := log + [Sample(r.contactors)];
      stateRth := r.rth;
      stateK := if flagCheckOutputPinOnly then stateKPin else r.contactors;
    }

    /** One of the wait loops, on from its i-th round; every loop of the driver has this shape. */
    method WaitFor(g: Goal) returns (ok: bool, i: nat)
      modifies `stateKPin, `stateK, `stateRth, `readings, `log
      ensures var w := Wait(Settings(), env, old(Lines()), g, 0);
              Lines() == w.wires && ok == w.ok && i == w.loops
      ensures i <= timeSwitchKChange * 1000 + 1
    {
      i := 0;
      while !Reached(g, ReadView())
        invariant i <= timeSwitchKChange * 1000
        invariant Wait(Settings(), env, Lines(), g, i) == Wait(Settings(), env, old(Lines()), g, 0)
        decreases timeSwitchKChange * 1000 - i
      {
        i := i + 1;
        UpdateSwitches();
        if i > timeSwitchKChange * 1000 {
          return false, i;
        }
      }
      ok := true;
    }

    /** The cached view, without the log. */
    function ReadView(): Wires
      reads this
      ensures ReadView().state == stateK && ReadView().seen == stateKPin
    {
      Wires(pins, stateKPin, stateK, stateRth, readings, [])
    }

    method AllOff()
      modifies `pins, `log
      ensures Lines() == AllLow(old(Lines()))
    {
      DriveK(K1, false);
      DriveK(K2, false);
      DriveK(K3, false);
    }

    method ShutLines()
      modifies `pins, `stateKPin, `stateK, `stateRth, `readings, `log
      ensures Lines() == Shutdown(Settings(), env, old(Lines()))
    {
      AllOff();
      var ok, k := WaitFor(Goal.AllOff);
    }

    method Stop()
      modifies this
      ensures Settings() == old(Settings()) && View() == PumpControl.Stop(Settings(), env, old(View()))
    {
      ShutLines();
      timeWaitPowerOn, flagCheckWaitPowerOn := timeWaitPowerOnConfig, true;
      flagStartYDelta := false;
      timeOff := 0;
    }

    method UpdateState()
      modifies this
      ensures Settings() == old(Settings()) && View() == PumpControl.UpdateState(Settings(), env, old(View()))
      ensures MotorIs(stateMotor, Reading(Settings(), env, old(View())), Trips(env, old(View())))
      ensures if DropsOut(Settings(), env, old(View())) then Shut(View()) else pins == old(pins)
    {
      StateByReading(Settings(), env, View());
      UpdateSwitches();
      if stateRth && stateMotor != OffThermal {
        stateMotor := OffThermal;
      } else if stateK == NONE {
        if stateKPin.k1 || stateKPin.k2 {
          Stop();
        }
        stateMotor := OffIdle;
      } else {
        stateMotor := Classify(stateK);
      }
    }

    method UpdateTime()
      modifies `timeToShutdown, `timeOn, `timeOff, `timeWaitPowerOn, `flagCheckWaitPowerOn
      ensures View() == PumpControl.UpdateTime(old(View()))
    {
      if On(stateMotor) {
        timeOn := (timeOn + 1) % WORD32;
        if timeToShutdown > 0 {
          timeToShutdown := timeToShutdown - 1;
        }
      } else {
        timeOff := (timeOff + 1) % WORD32;
      }
      if flagCheckWaitPowerOn {
        if timeWaitPowerOn == 0 {
          flagCheckWaitPowerOn := false;
        } else {
          timeWaitPowerOn := timeWaitPowerOn - 1;
        }
      }
    }

    method Start(mode: StartType) returns (code: int)
      modifies this
      ensures Settings() == old(Settings())
      ensures PumpControl.Start(Settings(), env, old(View()), mode) == Started(View(), code)
    {
      match mode
      case DirectK1 => code := StartDirect(K1);
      case DirectK2 => code := StartDirect(K2);
      case DirectK3 => code := StartDirect(K3);
      case ToDelta => code := StartToDelta();
      case ToY => code := StartToY();
      case YDeltaRequest =>
        flagStartYDelta := true;
        startYDeltaState := ToY;
        code := 0;
      case Unset =>
        FinishStart();
        code := 0;
    }

    method DriveAndWait(k: Contactor) returns (ok: bool)
      modifies `pins, `stateKPin, `stateK, `stateRth, `readings, `log
      ensures var w := Wait(Settings(), env, DrivePin(old(Lines()), k, true), IsOn(k), 0);
              Lines() == w.wires && ok == w.ok
    {
      DriveK(k, true);
      var i;
      ok, i := WaitFor(IsOn(k));
    }

    method StartDirect(k: Contactor) returns (code: int)
      modifies this
      ensures Settings() == old(Settings())
      ensures PumpControl.StartDirect(Settings(), env, old(View()), k) == Started(View(), code)
      ensures code == (if ComesOn(Settings(), env, old(Lines()), k) then 0 else 1) && (code == 1 ==> Shut(View()))
    {
      DirectIff(Settings(), env, View(), k);
      var ok := DriveAndWait(k);
      if !ok {
        Stop();
        return 1;
      }
      FinishStart();
      return 0;
    }

    method FinishStart()
      modifies this
      ensures Settings() == old(Settings()) && Finish(Settings(), env, old(View())) == Started(View(), 0)
    {
      UpdateState();
      timeOn := 0;
      timeToShutdown := timeToShutdownConfig;
    }

    /** Switches k off and waits until it is seen to be off, if the cached view has it on. */
    method ReleaseK(k: Contactor) returns (ok: bool)
      modifies `pins, `stateKPin, `stateK, `stateRth, `readings, `log
      ensures var r := Release(Settings(), env, old(Lines()), k); Lines() == r.wires && ok == r.ok
    {
      ok := true;
      if Get(stateK, k) || Get(stateKPin, k) {
        DriveK(k, false);
        var i;
        ok, i := WaitFor(IsOff(k));
      }
    }

    /** Switches k on, and K1 too if the cached view has it off. */
    method EngageK(k: Contactor)
      modifies `pins, `log
      ensures Lines() == Engage(old(Lines()), k)
    {
      DriveK(k, true);
      if !stateK.k1 && !stateKPin.k1 {
        DriveK(K1, true);
      }
    }

    /** Switches one contactor of the pair off and, once it is seen to be off, the other on. */
    method SwitchOver(off: Contactor, on: Contactor) returns (ok: bool)
      modifies `pins, `stateKPin, `stateK, `stateRth, `readings, `log
      ensures var r := Release(Settings(), env, old(Lines()), off);
              ok == r.ok && Lines() == if ok then Engage(r.wires, on) else AllLow(r.wires)
    {
      ok := ReleaseK(off);
      if !ok {
        AllOff();
        return;
      }
      EngageK(on);
    }

    method StartToDelta() returns (code: int)
      modifies this
      ensures Settings() == old(Settings())
      ensures PumpControl.StartToDelta(Settings(), env, old(View())) == Started(View(), code)
    {
      var ok := SwitchOver(K3, K2);
      if !ok {
        return 1;
      }
      if flagStartYDelta {
        return 0;
      }
      FinishStart();
      return 0;
    }

    method SetUpDelta()
      modifies `startYDeltaState, `timeDeltaToYSwitch
      ensures View() == if flagStartYDelta then
                          old(View()).(nextStart := ToDelta, deltaTimer := timeDeltaToYSwitchConfig)
                        else old(View())
    {
      if flagStartYDelta {
        startYDeltaState := ToDelta;
        timeDeltaToYSwitch := timeDeltaToYSwitchConfig;
      }
    }

    method StartToY() returns (code: int)
      modifies this
      ensures Settings() == old(Settings())
      ensures PumpControl.StartToY(Settings(), env, old(View())) == Started(View(), code)
    {
      var ok := SwitchOver(K2, K3);
      if !ok {
        return 1;
      }
      SetUpDelta();
      FinishStart();
      return 0;
    }

    method CheckStartReq()
      modifies this
      ensures Settings() == old(Settings()) && View() == CheckStartRequest(Settings(), env, old(View()))
    {
      if flagStartYDelta {
        if startYDeltaState == ToY {
          var code := Start(startYDeltaState);
        }
        if timeDeltaToYSwitch == 0 {
          var code := Start(startYDeltaState);
          flagStartYDelta := false;
        } else {
          timeDeltaToYSwitch := timeDeltaToYSwitch - 1;
        }
      }
    }

    /** One second. */
    method Update()
      modifies this
      ensures Settings() == old(Settings()) && View() == PumpControl.Update(Settings(), env, old(View()))
      ensures DropsOut(Settings(), env, old(View())) ==> Shut(View()) && stateMotor == OffIdle
    {
      if DropsOut(Settings(), env, View()) {
        DropOutStops(Settings(), env, View());
      }
      UpdateState();
      UpdateTime();
      CheckStartReq();
    }
  }
}
