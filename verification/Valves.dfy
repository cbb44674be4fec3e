/** The valve objects: the 16-bit output module (components/modules/pcy8575/pcy8575.cpp) and the
    sequencer that drives it (main/acionna/valves.hpp), each proved against ValveCycle. */
module Valves {
  import opened Words
  import opened ValveCycle

  /** The output register of the I2C module and what was last sent to it. */
  class Pcy8575 {
    var output: Word16
    var sent: Word16

    constructor ()
      ensures output == sent == AllOff()
    {
      output, sent := AllOff(), AllOff();
    }

    method Put(word: Word16)
      modifies this
      ensures output == sent == word
    {
      output := word;
      sent := word;
    }

    /** Pin 0 stands for all pins; a pin beyond 16 falls out of the 16-bit register. */
    method Write(pin: nat, level: bool)
      modifies this
      ensures pin == 0 ==> output == seq(16, k => level)
      ensures 1 <= pin <= 16 ==> output == old(output)[pin - 1 := level]
      ensures pin > 16 ==> output == old(output)
      ensures sent == output
    {
      if pin != 0 {
        if pin <= 16 {
          output := output[pin - 1 := level];
        }
      } else {
        output := seq(16, k => level);
      }
      Put(output);
    }
  }

  /** The run times every valve has after power-up (valves.hpp:74-84). */
  const DEFAULT_MINUTES: seq<nat> := [50, 45, 45, 30, 30, 28, 30, 30, 30, 30, 30]

  class Sequencer {
    const load: Pcy8575
    const programmed: array<bool>
    const timeElapsedCfg: array<nat>
    var flagInvertedSequence: bool
    var flagValveDelaySwitch: bool
    var timeDelayCloseConfig: nat

    var automaticSwitch: bool
    var valveCurrent: nat
    var valveLastToClose: nat
    var timeValveRemain: nat
    var flagDelayClose: bool
    var timeDelayClose: nat

    ghost predicate Valid()
      reads this, load
    {
      && programmed.Length == N_VALVES && timeElapsedCfg.Length == N_VALVES
      && load.sent == load.output
      && (automaticSwitch ==>
            if flagInvertedSequence then 1 <= valveCurrent <= N_VALVES + 1 else valveCurrent <= N_VALVES)
    }

    ghost function Settings(): Config
      reads this, programmed, timeElapsedCfg
    {
      Config(programmed[..], timeElapsedCfg[..], flagInvertedSequence, flagValveDelaySwitch, timeDelayCloseConfig)
    }

    ghost function View(): State
      reads this, load
    {
      State(automaticSwitch, valveCurrent, valveLastToClose, timeValveRemain, flagDelayClose, timeDelayClose,
            load.output)
    }

    constructor (load: Pcy8575)
      requires load.sent == load.output
      ensures Valid() && this.load == load && fresh(programmed) && fresh(timeElapsedCfg)
      ensures !automaticSwitch && !flagDelayClose && valveCurrent == 0
      ensures var times := seq(N_VALVES, k requires 0 <= k < N_VALVES => DEFAULT_MINUTES[k] * 60);
              Settings() == Config(seq(N_VALVES, k => true), times, false, true, 30)
    {
      this.load := load;
      programmed := new bool[N_VALVES](k => true);
      timeElapsedCfg := new nat[N_VALVES](k requires 0 <= k < N_VALVES => DEFAULT_MINUTES[k] * 60);
      flagInvertedSequence, flagValveDelaySwitch, timeDelayCloseConfig := false, true, 30;
      automaticSwitch, valveCurrent, valveLastToClose, timeValveRemain := false, 0, 0, 0;
      flagDelayClose, timeDelayClose := false, 0;
    }

    method SetValveTime(valveId: nat, minutes: nat)
      requires Valid() && 1 <= valveId <= N_VALVES
      modifies timeElapsedCfg
      ensures Settings() == old(Settings()).(time := old(timeElapsedCfg[..])[valveId - 1 := minutes * 60])
    {
      timeElapsedCfg[valveId - 1] := minutes * 60;
    }

    function GetValveTime(valveId: nat): nat
      requires Valid() && 1 <= valveId <= N_VALVES
      reads this, load, timeElapsedCfg
    {
      timeElapsedCfg[valveId - 1] / 60
    }

    method SetProgrammed(valveId: nat, on: bool)
      requires Valid() && 1 <= valveId <= N_VALVES
      modifies programmed
      ensures Settings() == old(Settings()).(programmed := old(programmed[..])[valveId - 1 := on])
    {
      programmed[valveId - 1] := on;
    }

    method GetTotalTimeProgrammed() returns (total: nat)
      requires Valid()
      ensures total == TimeUpTo(Settings(), N_VALVES)
    {
      total := 0;
      for i := 0 to N_VALVES
        invariant total == TimeUpTo(Settings(), i)
      {
        if programmed[i] {
          total := total + timeElapsedCfg[i];
        }
      }
    }

    method SetValveState(valveId: nat, on: bool)
      requires Valid()
      modifies load
      ensures Valid() && load.output == SetValve(old(load.output), valveId, on)
    {
      if valveId != 0 && valveId <= N_VALVES {
        load.Write(valveId, on);
      }
    }

    /** Forgets neither the pending delayed close nor the valve it is about. */
    method Start()
      requires Valid()
      modifies this, load
      ensures Valid() && Settings() == old(Settings()) && View() == ValveCycle.Start(Settings(), old(View()))
    {
      load.Put(AllOff());
      timeValveRemain := 0;
      automaticSwitch := true;
      if flagInvertedSequence {
        valveCurrent := N_VALVES + 1;
      } else {
        valveCurrent := 0;
      }
    }

    method Stop()
      requires Valid()
      modifies this, load
      ensures Valid() && Settings() == old(Settings()) && View() == ValveCycle.Stop(old(View()))
    {
      load.Put(AllOff());
      valveCurrent := 0;
      automaticSwitch := false;
    }

    method NextForced()
      requires Valid()
      modifies `timeValveRemain
      ensures Valid() && Settings() == old(Settings()) && View() == ValveCycle.NextForced(old(View()))
    {
      timeValveRemain := 0;
    }

    method OpenCurrent()
      requires Valid() && 1 <= valveCurrent <= N_VALVES
      modifies `timeValveRemain, load
      ensures Valid() && View() == Open(Settings(), old(View()), valveCurrent)
    {
      timeValveRemain := GetValveTime(valveCurrent) * 60;
      SetValveState(valveCurrent, true);
    }

    /** Finds the next programmed valve and opens it, or ends the cycle (valves.hpp:311-360). */
    method FindNext() returns (found: nat)
      requires Valid() && automaticSwitch
      modifies `valveCurrent, `timeValveRemain, `automaticSwitch, load
      ensures Valid() && found == valveCurrent == Scan(Settings(), old(valveCurrent))
      ensures automaticSwitch <==> found != 0
      ensures found != 0 ==> timeValveRemain == RunTime(Settings(), found)
      ensures found == 0 ==> timeValveRemain == old(timeValveRemain)
      ensures load.output == SetValve(old(load.output), found, true)
    {
      if !flagInvertedSequence {
        found := FindNextUp();
      } else {
        found := FindNextDown();
      }
    }

    method FindNextUp() returns (found: nat)
      requires Valid() && automaticSwitch && !flagInvertedSequence
      modifies `valveCurrent, `timeValveRemain, `automaticSwitch, load
      ensures Valid() && found == valveCurrent == Scan(Settings(), old(valveCurrent))
      ensures automaticSwitch <==> found != 0
      ensures found != 0 ==> timeValveRemain == RunTime(Settings(), found)
      ensures found == 0 ==> timeValveRemain == old(timeValveRemain)
      ensures load.output == SetValve(old(load.output), found, true)
    {
      ghost var c := Settings();
      while true
        invariant Valid() && automaticSwitch && valveCurrent <= N_VALVES
        invariant Scan(c, valveCurrent) == Scan(c, old(valveCurrent))
        invariant timeValveRemain == old(timeValveRemain) && load.output == old(load.output)
        decreases N_VALVES + 1 - valveCurrent
      {
        valveCurrent := valveCurrent + 1;
        if valveCurrent < N_VALVES + 1 {
          if programmed[valveCurrent - 1] {
            OpenCurrent();
            return valveCurrent;
          }
        } else {
          automaticSwitch := false;
          valveCurrent := 0;
          return 0;
        }
      }
    }

    method FindNextDown() returns (found: nat)
      requires Valid() && automaticSwitch && flagInvertedSequence
      modifies `valveCurrent, `timeValveRemain, `automaticSwitch, load
      ensures Valid() && found == valveCurrent == Scan(Settings(), old(valveCurrent))
      ensures automaticSwitch <==> found != 0
      ensures found != 0 ==> timeValveRemain == RunTime(Settings(), found)
      ensures found == 0 ==> timeValveRemain == old(timeValveRemain)
      ensures load.output == SetValve(old(load.output), found, true)
    {
      ghost var c := Settings();
      while true
        invariant Valid() && automaticSwitch && 1 <= valveCurrent <= N_VALVES + 1
        invariant Scan(c, valveCurrent) == Scan(c, old(valveCurrent))
        invariant timeValveRemain == old(timeValveRemain) && load.output == old(load.output)
        decreases valveCurrent
      {
        valveCurrent := valveCurrent - 1;
        if valveCurrent != 0 {
          if programmed[valveCurrent - 1] {
            OpenCurrent();
            return valveCurrent;
          }
        } else {
          automaticSwitch := false;
          valveCurrent := 0;
          return 0;
        }
      }
    }

    /** One second: the object does what the state machine does. */
    method Update()
      requires Valid()
      modifies this, load
      ensures Valid() && Settings() == old(Settings()) && View() == Tick(Settings(), old(View()))
    {
      if automaticSwitch {
        if timeValveRemain == 0 {
          SwitchValve();
        } else {
          timeValveRemain := timeValveRemain - 1;
        }
        CloseDelayed();
      }
    }

    /** The time of the current valve is over (valves.hpp:130-153). */
    method SwitchValve()
      requires Valid() && automaticSwitch
      modifies this, load
      ensures Valid() && Settings() == old(Settings()) && View() == Switch(Settings(), old(View()))
    {
      RetireCurrent();
      var found := FindNext();
      if found == 0 {
        Stop();
      }
    }

    method RetireCurrent()
      requires Valid()
      modifies `valveLastToClose, `flagDelayClose, `timeDelayClose, load
      ensures Valid() && View() == Retire(Settings(), old(View()))
    {
      valveLastToClose := valveCurrent;
      if flagValveDelaySwitch {
        flagDelayClose := true;
        timeDelayClose := timeDelayCloseConfig;
      } else {
        SetValveState(valveLastToClose, false);
      }
    }

    /** Counts the delay down and closes the valve that was current before (valves.hpp:159-166). */
    method CloseDelayed()
      requires Valid()
      modifies `flagDelayClose, `timeDelayClose, load
      ensures Valid() && View() == CloseLast(old(View()))
    {
      if flagDelayClose {
        if timeDelayClose > 0 {
          timeDelayClose := timeDelayClose - 1;
        } else {
          flagDelayClose := false;
          SetValveState(valveLastToClose, false);
        }
      }
    }
  }
}
