/** Irrigation mode: the pump, started by star-delta, and the valve cycle that follows it, one step a
    second (main/acionna/acionna.cpp:1831-1889, 1978-2077, 2121-2130, 2447-2460).  The contactors follow
    the pins at once and the thermal relay stays open. */
module Irrigation {
  import opened Options
  import opened Words
  import P = PumpControl
  import V = ValveCycle

  /** Settings that stay fixed; the pump's shutdown time is not among them. */
  datatype Config = Config(pinOnly: bool, switchTime: nat, deltaTime: nat, waitTime: nat, valves: V.Config,
                           checkTimer: bool, checkValves: bool, checkThermal: bool)

  /** The time allowed for a contactor to switch is not zero. */
  ghost predicate ValidConfig(c: Config) {
    V.ValidConfig(c.valves) && c.switchTime >= 1
  }

  datatype State = State(pump: P.State, shutdownTime: nat, valves: V.State)

  /** An entry of the start list: how to start, and for how long (0: the setting of the pump). */
  datatype Entry = Entry(mode: P.StartType, shutdownTime: nat)

  /** What a second brings: the stop conditions that depend on the pipes, and the entry of the start list
      that matches the time, if there is one. */
  datatype Input = Input(pressureHigh: bool, airK1: bool, airDelta: bool, airK2: bool, matching: Option<Entry>)

  /** Irrigation starts the pump by star-delta. */
  predicate ByStarDelta(i: Input) {
    i.matching.Some? ==> i.matching.value.mode == P.YDeltaRequest
  }

  const QUIET := Input(false, false, false, false, None)

  function Ideal(): P.Environment {
    (n, pins) => P.Inputs(pins, false)
  }

  function PumpConfig(c: Config, s: State): P.Config {
    P.Config(c.pinOnly, c.switchTime, s.shutdownTime, c.deltaTime, c.waitTime)
  }

  predicate Fits(c: Config, v: V.State) {
    v.running ==> if c.valves.inverted then 1 <= v.current <= V.N_VALVES + 1 else v.current <= V.N_VALVES
  }

  function StopIf(c: Config, env: P.Environment, s: State, b: bool): (t: State)
    ensures t.valves == s.valves && t.shutdownTime == s.shutdownTime
  {
    if b then s.(pump := P.Stop(PumpConfig(c, s), env, s.pump)) else s
  }

  /** The check for low pressure, with the verdicts of the three air detectors. */
  function LowPressureCheck(c: Config, env: P.Environment, s: State, i: Input): (t: State)
    ensures t.valves == s.valves && t.shutdownTime == s.shutdownTime
  {
    StopIf(c, env, StopIf(c, env, StopIf(c, env, s, i.airK1), i.airDelta), i.airK2)
  }

  predicate TimeIsUp(c: Config, p: P.State) {
    c.checkTimer && P.On(p.motor) && p.timeToShutdown == 0
  }

  predicate TooHigh(p: P.State, i: Input) {
    i.pressureHigh && (p.motor == P.OnK1 || p.motor == P.OnDelta || p.motor == P.OnSpeedingUp)
  }

  /** operation_pump_stop_check: the timer, high pressure, low pressure, the thermal relay. */
  function StopCheck(c: Config, env: P.Environment, s: State, i: Input): (t: State)
    ensures t.valves == s.valves && t.shutdownTime == s.shutdownTime
  {
    var s1 := StopIf(c, env, s, TimeIsUp(c, s.pump));
    var s2 := StopIf(c, env, s1, TooHigh(s1.pump, i));
    var s3 := LowPressureCheck(c, env, s2, i);
    StopIf(c, env, s3, c.checkThermal && s3.pump.wires.rth && s3.pump.motor != P.OffThermal)
  }

  /** operation_pump_start_match */
  function StartMatch(c: Config, env: P.Environment, s: State, i: Input): (t: State)
    ensures t.valves == s.valves && t.shutdownTime == s.shutdownTime
  {
    if i.matching.None? || s.pump.motor != P.OffIdle then s
    else
      var entry := i.matching.value;
      var p := P.Start(PumpConfig(c, s), env, s.pump, entry.mode).state;
      s.(pump := if entry.shutdownTime != 0 then p.(timeToShutdown := entry.shutdownTime) else p)
  }

  /** Sets the current valve again in case the output module was reset. */
  function KeepCurrent(c: Config, s: State): State {
    if c.checkValves && s.pump.motor == P.OnDelta && s.valves.running then
      s.(valves := s.valves.(output := V.SetValve(s.valves.output, s.valves.current, true)))
    else s
  }

  /** Starts the cycle while the motor speeds up; the pump is to stop ten seconds before the programmed
      total, in 32-bit arithmetic. */
  function FollowStart(c: Config, s: State): State
    requires V.ValidConfig(c.valves)
  {
    if !s.valves.running && s.pump.motor == P.OnSpeedingUp then
      var total := V.TimeUpTo(c.valves, V.N_VALVES);
      State(s.pump.(timeToShutdown := (total - 10) % WORD32), total % WORD32, V.Start(c.valves, s.valves))
    else s
  }

  /** Stops the cycle when the motor is neither speeding up nor in delta. */
  function FollowStop(s: State): State {
    if s.valves.running && s.pump.motor != P.OnDelta && s.pump.motor != P.OnSpeedingUp then
      s.(valves := V.Stop(s.valves))
    else s
  }

  /** operation_pump_valves */
  function PumpValves(c: Config, s: State): (t: State)
    requires V.ValidConfig(c.valves) && Fits(c, s.valves)
    ensures Fits(c, t.valves)
  {
    FollowStop(FollowStart(c, KeepCurrent(c, s)))
  }

  /** update_objects */
  function UpdateObjects(c: Config, env: P.Environment, s: State): (t: State)
    requires V.ValidConfig(c.valves) && Fits(c, s.valves)
    ensures Fits(c, t.valves)
  {
    s.(pump := P.Update(PumpConfig(c, s), env, s.pump), valves := V.Tick(c.valves, s.valves))
  }

  function Second(c: Config, env: P.Environment, s: State, i: Input): (t: State)
    requires V.ValidConfig(c.valves) && Fits(c, s.valves)
    ensures Fits(c, t.valves)
  {
    PumpValves(c, StartMatch(c, env, StopCheck(c, env, UpdateObjects(c, env, s), i), i))
  }

  /** A second, or one of the commands that may come between seconds: stop, and start by star-delta. */
  datatype Step = OneSecond(input: Input) | CommandStop | CommandRequest

  function Next(c: Config, s: State, step: Step): (t: State)
    requires ValidConfig(c) && Fits(c, s.valves)
    ensures Fits(c, t.valves)
  {
    match step
    case OneSecond(i) => Second(c, Ideal(), s, i)
    case CommandStop => s.(pump := P.Stop(PumpConfig(c, s), Ideal(), s.pump))
    case CommandRequest => s.(pump := P.Start(PumpConfig(c, s), Ideal(), s.pump, P.YDeltaRequest).state)
  }

  // ----- what a second does to the pump, whatever the contactors report -----

  /** The reasons to stop: the time is up while the motor runs, the pressure is too high while it runs on K1,
      one of the detectors has found air, or the thermal relay is closed. */
  predicate MustStop(c: Config, p: P.State, i: Input) {
    || (c.checkTimer && p.motor in {P.OnK1, P.OnK2, P.OnDelta, P.OnSpeedingUp} && p.timeToShutdown == 0)
    || (i.pressureHigh && p.motor in {P.OnK1, P.OnDelta, P.OnSpeedingUp})
    || i.airK1 || i.airDelta || i.airK2
    || (c.checkThermal && p.wires.rth && p.motor != P.OffThermal)
  }

  /** All outputs are low and no start-up sequence is under way; motor and timer are as before. */
  predicate Halted(p: P.State, q: P.State) {
    q.wires.pins == P.NONE && !q.starDelta && q.motor == p.motor && q.timeToShutdown == p.timeToShutdown
  }

  lemma StopIfHalts(c: Config, env: P.Environment, s: State, b: bool)
    ensures b || Halted(s.pump, s.pump) ==> Halted(s.pump, StopIf(c, env, s, b).pump)
  {
    P.WaitPins(PumpConfig(c, s), env, P.AllLow(s.pump.wires), P.AllOff, 0);
  }

  lemma LowPressureHalts(c: Config, env: P.Environment, s: State, i: Input)
    ensures i.airK1 || i.airDelta || i.airK2 || Halted(s.pump, s.pump) ==>
              Halted(s.pump, LowPressureCheck(c, env, s, i).pump)
  {
    StopIfHalts(c, env, s, i.airK1);
    var s1 := StopIf(c, env, s, i.airK1);
    StopIfHalts(c, env, s1, i.airDelta);
    StopIfHalts(c, env, StopIf(c, env, s1, i.airDelta), i.airK2);
  }

  /** The stop check leaves the pump off if there is any reason to stop, and otherwise as it is. */
  lemma StopCheckStops(c: Config, env: P.Environment, s: State, i: Input)
    ensures var t := StopCheck(c, env, s, i); if MustStop(c, s.pump, i) then Halted(s.pump, t.pump) else t == s
  {
    var up := TimeIsUp(c, s.pump);
    StopIfHalts(c, env, s, up);
    var s1 := StopIf(c, env, s, up);
    StopIfHalts(c, env, s1, TooHigh(s1.pump, i));
    var s2 := StopIf(c, env, s1, TooHigh(s1.pump, i));
    LowPressureHalts(c, env, s2, i);
    var s3 := LowPressureCheck(c, env, s2, i);
    StopIfHalts(c, env, s3, c.checkThermal && s3.pump.wires.rth && s3.pump.motor != P.OffThermal);
  }

  /** An entry of the start list starts an idle motor, in its mode and for its time, and no other. */
  lemma StartMatchIs(c: Config, env: P.Environment, s: State, i: Input)
    ensures var t := StartMatch(c, env, s, i);
            if i.matching == None || s.pump.motor != P.OffIdle then t == s
            else
              var e := i.matching.value;
              && t.pump.wires == P.Start(PumpConfig(c, s), env, s.pump, e.mode).state.wires
              && (e.shutdownTime != 0 ==> t.pump.timeToShutdown == e.shutdownTime)
              && (e.mode == P.YDeltaRequest ==>
                    && Requested(t.pump) && t.pump.wires == s.pump.wires
                    && (e.shutdownTime == 0 ==> t.pump.timeToShutdown == s.pump.timeToShutdown))
  {
  }

  /** The valves by the motor: closed without it, started with it, and the current one kept open in delta. */
  lemma ValvesByMotor(c: Config, s: State, k: nat)
    requires V.ValidConfig(c.valves) && Fits(c, s.valves) && k < V.N_VALVES
    ensures var t := PumpValves(c, s);
            var total := V.TimeUpTo(c.valves, V.N_VALVES);
            match s.pump.motor
            case OnSpeedingUp =>
              if s.valves.running then t == s
              else
                && t.valves == V.Start(c.valves, s.valves) && t.shutdownTime == total % WORD32
                && t.pump == s.pump.(timeToShutdown := (total - 10) % WORD32)
            case OnDelta =>
              && t == s.(valves := s.valves.(output := t.valves.output))
              && (t.valves.output[k] <==> s.valves.output[k] ||
                                          (c.checkValves && s.valves.running && k + 1 == s.valves.current))
            case _ =>
              && t == s.(valves := t.valves) && !t.valves.running
              && (t.valves.output[k] <==> s.valves.output[k] && !s.valves.running)
  {
  }

  /** No entry of the start list starts an idle motor in this second other than by star-delta. */
  predicate NoDirectStart(p: P.State, i: Input) {
    p.motor != P.OffIdle || ByStarDelta(i)
  }

  /** With a reason to stop all outputs are low; without one they are as the updates left them. */
  predicate StoppedFor(due: bool, p: P.State, i: Input, q: P.State) {
    NoDirectStart(p, i) ==> if due then q.wires.pins == P.NONE else q.wires == p.wires
  }

  /** With a reason to stop the second ends with all outputs low, without one with the outputs as its
      updates left them, if no direct start is due to an idle motor; a start by star-delta that is due to an
      idle motor is asked for all the same. */
  lemma SecondStops(c: Config, env: P.Environment, s: State, i: Input)
    requires V.ValidConfig(c.valves) && Fits(c, s.valves)
    ensures var u := UpdateObjects(c, env, s).pump;
            var t := Second(c, env, s, i).pump;
            && StoppedFor(MustStop(c, u, i), u, i, t)
            && (NoDirectStart(u, i) ==>
                  && t.motor == u.motor
                  && if i.matching.Some? && u.motor == P.OffIdle then Requested(t)
                     else t.starDelta == (u.starDelta && !MustStop(c, u, i)))
  {
    var u := UpdateObjects(c, env, s);
    StopCheckStops(c, env, u, i);
    var v := StopCheck(c, env, u, i);
    StartMatchIs(c, env, v, i);
    ValvesByMotor(c, StartMatch(c, env, v, i), 0);
  }

  // ----- the pump on ideal contactors -----

  const STAR := P.Three(true, false, true)
  const DELTA := P.Three(true, true, false)

  predicate Pumping(p: P.State) {
    p.wires.pins != P.NONE
  }

  /** A star-delta start has been asked for and comes with the next second. */
  predicate Requested(p: P.State) {
    p.starDelta && p.nextStart == P.ToY
  }

  /** The view is what was last read, and the motor is idle, speeding up or in delta. */
  predicate Settled(p: P.State) {
    && p.wires.state == p.wires.seen && !p.wires.rth
    && (p.motor == P.OffIdle || p.motor == P.OnSpeedingUp || p.motor == P.OnDelta)
  }

  /** The pump is off, in star or in delta; a sequence is under way in star, and elsewhere may be asked for. */
  predicate PumpInv(p: P.State) {
    || (Settled(p) && p.wires.pins == P.NONE && (p.starDelta ==> p.nextStart == P.ToY))
    || (Settled(p) && p.wires.pins == STAR && p.motor != P.OffIdle
        && p.starDelta && (p.nextStart == P.ToY || p.nextStart == P.ToDelta))
    || (Settled(p) && p.wires.pins == DELTA && p.motor != P.OffIdle && (p.starDelta ==> p.nextStart == P.ToY))
  }

  /** Ideal contactors are seen to have switched at the first reading. */
  lemma WaitsOnce(c: P.Config, w: P.Wires, g: P.Goal)
    requires c.switchTime >= 1 && (P.Reached(g, w) || P.Reached(g, P.Refresh(c, Ideal(), w)))
    ensures P.Wait(c, Ideal(), w, g, 0).ok
    ensures P.Wait(c, Ideal(), w, g, 0).wires == if P.Reached(g, w) then w else P.Refresh(c, Ideal(), w)
  {
    if !P.Reached(g, w) {
      var t := P.Refresh(c, Ideal(), w);
      assert P.Wait(c, Ideal(), t, g, 1) == P.Waited(t, true, 1);
    }
  }

  lemma PumpStop(c: P.Config, p: P.State)
    requires PumpInv(p) && c.switchTime >= 1
    ensures var q := P.Stop(c, Ideal(), p);
            PumpInv(q) && !Pumping(q) && !q.starDelta && q.motor == p.motor && q.timeToShutdown == p.timeToShutdown
  {
    WaitsOnce(c, P.AllLow(p.wires), P.AllOff);
  }

  /** The cached view shows the pins as they are. */
  predicate Seen(p: P.State, pins: P.Three) {
    (p.wires.pins, p.wires.state, p.wires.seen, p.wires.rth) == (pins, pins, pins, false)
  }

  lemma PumpUpdateState(c: P.Config, p: P.State)
    requires PumpInv(p)
    ensures var q := P.UpdateState(c, Ideal(), p);
            && q == p.(wires := q.wires, motor := q.motor) && Seen(q, p.wires.pins)
            && q.motor == if !Pumping(p) then P.OffIdle else if p.wires.pins == STAR then P.OnSpeedingUp else P.OnDelta
  {
  }

  lemma PumpToStar(c: P.Config, p: P.State)
    requires c.switchTime >= 1 && Requested(p)
    requires Seen(p, P.NONE) || Seen(p, STAR) || Seen(p, DELTA)
    ensures var q := P.StartToY(c, Ideal(), p).state;
            && Seen(q, STAR) && InStar(q, c.deltaTime)
            && (q.motor, q.timeToShutdown) == (P.OnSpeedingUp, c.shutdownTime)
  {
    WaitsOnce(c, P.DrivePin(p.wires, P.K2, false), P.IsOff(P.K2));
    var r := P.Release(c, Ideal(), p.wires, P.K2);
    assert r.ok && P.Engage(r.wires, P.K3).pins == STAR;
  }

  lemma PumpToDelta(c: P.Config, p: P.State)
    requires c.switchTime >= 1 && p.starDelta && Seen(p, STAR)
    ensures var q := P.StartToDelta(c, Ideal(), p).state;
            && q == p.(wires := q.wires)
            && (q.wires.pins, q.wires.state, q.wires.rth) == (DELTA, q.wires.seen, false)
  {
    WaitsOnce(c, P.DrivePin(p.wires, P.K3, false), P.IsOff(P.K3));
    var r := P.Release(c, Ideal(), p.wires, P.K3);
    assert r.ok && P.Engage(r.wires, P.K2).pins == DELTA;
  }

  lemma PumpSequence(c: P.Config, p: P.State)
    requires PumpInv(p) && c.switchTime >= 1 && p.starDelta && p.nextStart == P.ToDelta && Seen(p, STAR)
    requires p.motor == P.OnSpeedingUp
    ensures var q := P.CheckStartRequest(c, Ideal(), p);
            PumpInv(q) && Pumping(q) && !Requested(q) && q.motor == p.motor && q.timeToShutdown == p.timeToShutdown
  {
    PumpToDelta(c, p);
  }

  /** One second of the pump: a start that was asked for is under way, and one under way goes on. */
  lemma PumpSecond(c: P.Config, p: P.State)
    requires PumpInv(p) && c.switchTime >= 1
    ensures var q := P.Update(c, Ideal(), p);
            && PumpInv(q) && !Requested(q)
            && (Pumping(q) <==> Pumping(p) || Requested(p))
            && (q.motor == P.OffIdle <==> !Pumping(q))
            && (Requested(p) ==> q.motor == P.OnSpeedingUp)
            && q.timeToShutdown == if Requested(p) then c.shutdownTime
                                   else if Pumping(p) && p.timeToShutdown > 0 then p.timeToShutdown - 1
                                   else p.timeToShutdown
  {
    PumpUpdateState(c, p);
    var t := P.UpdateTime(P.UpdateState(c, Ideal(), p));
    if Requested(p) {
      PumpToStar(c, t);
      var u := P.StartToY(c, Ideal(), t).state;
      PumpSequence(c, u);
      assert P.CheckStartRequest(c, Ideal(), t) == P.CheckStartRequest(c, Ideal(), u);
    } else if p.starDelta {
      PumpSequence(c, t);
    }
  }

  // ----- the course of a star-delta start -----

  /** In star, with so many seconds to go. */
  predicate InStar(p: P.State, left: nat) {
    (p.wires.pins, p.starDelta, p.nextStart, p.deltaTimer) == (STAR, true, P.ToDelta, left)
  }

  predicate InDelta(p: P.State) {
    (p.wires.pins, p.starDelta) == (DELTA, false)
  }

  lemma RequestSecond(c: P.Config, p: P.State)
    requires PumpInv(p) && c.switchTime >= 1 && Requested(p)
    ensures var q := P.Update(c, Ideal(), p);
            || (q.motor == P.OnSpeedingUp && c.deltaTime > 0 && InStar(q, c.deltaTime - 1))
            || (q.motor == P.OnSpeedingUp && c.deltaTime == 0 && InDelta(q))
  {
    PumpUpdateState(c, p);
    var t := P.UpdateTime(P.UpdateState(c, Ideal(), p));
    PumpToStar(c, t);
    PumpToDelta(c, P.StartToY(c, Ideal(), t).state);
  }

  lemma StarSecond(c: P.Config, p: P.State, left: nat)
    requires PumpInv(p) && c.switchTime >= 1 && InStar(p, left)
    ensures var q := P.Update(c, Ideal(), p);
            || (q.motor == P.OnSpeedingUp && left > 0 && InStar(q, left - 1))
            || (q.motor == P.OnSpeedingUp && left == 0 && InDelta(q))
  {
    PumpUpdateState(c, p);
    PumpToDelta(c, P.UpdateTime(P.UpdateState(c, Ideal(), p)));
  }

  lemma DeltaSecond(c: P.Config, p: P.State)
    requires PumpInv(p) && InDelta(p)
    ensures var q := P.Update(c, Ideal(), p); InDelta(q) && q.motor == P.OnDelta
  {
    PumpUpdateState(c, p);
  }

  ghost predicate Updates(c: P.Config, run: seq<P.State>, m: nat) {
    m + 1 < |run| && run[m + 1] == P.Update(c, Ideal(), run[m])
  }

  /** A star-delta start that nothing stops is in star for the configured seconds and in delta from
      then on; the motor is seen in delta one second later. */
  lemma {:induction false} StarDeltaCourse(c: P.Config, run: seq<P.State>, m: nat)
    requires c.switchTime >= 1 && 1 <= m < |run| && PumpInv(run[0]) && Requested(run[0])
    requires forall k :: 0 <= k < |run| - 1 ==> Updates(c, run, k)
    ensures PumpInv(run[m])
    ensures if m <= c.deltaTime then InStar(run[m], c.deltaTime - m) else InDelta(run[m])
    ensures run[m].motor == if m <= c.deltaTime + 1 then P.OnSpeedingUp else P.OnDelta
  {
    assert Updates(c, run, m - 1);
    if m == 1 {
      PumpSecond(c, run[0]);
      RequestSecond(c, run[0]);
    } else {
      StarDeltaCourse(c, run, m - 1);
      PumpSecond(c, run[m - 1]);
      if m - 1 <= c.deltaTime {
        StarSecond(c, run[m - 1], c.deltaTime - (m - 1));
      } else {
        DeltaSecond(c, run[m - 1]);
      }
    }
  }

  /** A direct start of K2 is not safe at all times: given while a star-delta start is in star, one
      second after it was asked for, it drives the pins of K2 and K3 high together. */
  lemma DirectInStar(c: P.Config) returns (run: seq<P.State>, m: nat)
    requires c.switchTime >= 1 && c.deltaTime >= 1
    ensures P.IsRun(c, Ideal(), [P.CommandStart(P.YDeltaRequest), P.Second], run)
    ensures InStar(run[2], c.deltaTime - 1)
    ensures var log := P.Start(c, Ideal(), run[2], P.DirectK2).state.wires.log;
            m <= |log| && P.Level(log[..m], P.K2) && P.Level(log[..m], P.K3)
  {
    var commands := [P.CommandStart(P.YDeltaRequest), P.Second];
    var asked := P.Start(c, Ideal(), P.POWER_UP, P.YDeltaRequest).state;
    var star := P.Update(c, Ideal(), asked);
    run := [P.POWER_UP, asked, star];
    assert P.StepAt(c, Ideal(), commands, run, 0) && P.StepAt(c, Ideal(), commands, run, 1);
    RequestSecond(c, asked);
    P.RunKeeps(c, Ideal(), commands, run, 2);
    P.NotClearUnsafe(c, Ideal(), star, P.K2);
    m := |star.wires.log| + 1;
  }

  // ----- the valves: how many updates a cycle still takes -----

  function Left(c: V.Config, v: nat): nat
    requires V.ValidConfig(c) && V.Position(c, v)
    decreases if c.inverted then v else V.N_VALVES - v
  {
    var w := V.Scan(c, v);
    if w == 0 then 0 else V.RunTime(c, w) + 1 + Left(c, w)
  }

  lemma {:induction false} LeftSum(c: V.Config, v: nat)
    requires V.ValidConfig(c) && V.Position(c, v)
    ensures if c.inverted then Left(c, v) == V.UpdatesUpTo(c, v - 1)
            else Left(c, v) + V.UpdatesUpTo(c, v) == V.UpdatesUpTo(c, V.N_VALVES)
    decreases if c.inverted then v else V.N_VALVES - v
  {
    V.ScanSkipsSum(c, v);
    var w := V.Scan(c, v);
    if w != 0 {
      LeftSum(c, w);
    }
  }

  /** Updates until the cycle ends. */
  function UpdatesLeft(c: V.Config, v: V.State): nat
    requires V.ValidConfig(c) && V.Position(c, v.current)
  {
    v.remain + 1 + Left(c, v.current)
  }

  predicate OnValve(v: V.State) {
    1 <= v.current <= V.N_VALVES
  }

  /** A cycle has just been started or its current valve is open; without a cycle all is closed. */
  ghost predicate ValvesInv(c: V.Config, v: V.State) {
    || (!v.running && v.output == V.AllOff())
    || (v.running && OnValve(v) && v.last != v.current && v.output[v.current - 1])
    || (v.running && v.current == V.StartPosition(c) && v.remain == 0 && v.output == V.AllOff())
  }

  lemma OpenIsNotAllOff(v: V.State)
    requires OnValve(v) && v.output[v.current - 1]
    ensures v.output != V.AllOff()
  {
  }

  /** Every update brings the end one nearer; until then it opens, or keeps open, the current valve. */
  lemma ValvesTick(c: V.Config, v: V.State)
    requires V.ValidConfig(c) && ValvesInv(c, v) && v.running && V.Position(c, v.current)
    ensures var t := V.Tick(c, v);
            && ValvesInv(c, t) && (t.running <==> UpdatesLeft(c, v) > 1)
            && (t.running ==> V.Position(c, t.current) && OnValve(t) && UpdatesLeft(c, t) == UpdatesLeft(c, v) - 1)
  {
    if v.remain == 0 && V.Scan(c, v.current) == 0 {
      V.StaysOff(c, V.Switch(c, v));
    }
  }

  lemma ValvesStart(c: V.Config, v: V.State)
    requires V.ValidConfig(c)
    ensures var t := V.Start(c, v);
            ValvesInv(c, t) && V.Position(c, t.current) && UpdatesLeft(c, t) == 1 + V.UpdatesUpTo(c, V.N_VALVES)
  {
    LeftSum(c, V.StartPosition(c));
  }

  // ----- the parts of operation_mode -----

  /** The pump was left alone or stopped. */
  predicate SameOrStopped(p: P.State, q: P.State) {
    || (PumpInv(q) && q == p)
    || (PumpInv(q) && Halted(p, q))
  }

  lemma StopIfKeeps(c: Config, p: P.State, s: State, b: bool)
    requires ValidConfig(c) && PumpInv(s.pump) && SameOrStopped(p, s.pump)
    ensures SameOrStopped(p, StopIf(c, Ideal(), s, b).pump)
    ensures b ==> !Pumping(StopIf(c, Ideal(), s, b).pump)
    ensures !Pumping(s.pump) ==> !Pumping(StopIf(c, Ideal(), s, b).pump)
  {
    PumpStop(PumpConfig(c, s), s.pump);
  }

  lemma LowPressureKeeps(c: Config, p: P.State, s: State, i: Input)
    requires ValidConfig(c) && PumpInv(s.pump) && SameOrStopped(p, s.pump)
    ensures var t := LowPressureCheck(c, Ideal(), s, i);
            && SameOrStopped(p, t.pump) && (!Pumping(s.pump) ==> !Pumping(t.pump))
            && (!i.airK1 && !i.airDelta && !i.airK2 ==> t == s)
  {
    StopIfKeeps(c, p, s, i.airK1);
    var s1 := StopIf(c, Ideal(), s, i.airK1);
    StopIfKeeps(c, p, s1, i.airDelta);
    StopIfKeeps(c, p, StopIf(c, Ideal(), s1, i.airDelta), i.airK2);
  }

  lemma StopCheckKeeps(c: Config, s: State, i: Input)
    requires ValidConfig(c) && PumpInv(s.pump)
    ensures var t := StopCheck(c, Ideal(), s, i);
            && SameOrStopped(s.pump, t.pump)
            && (TimeIsUp(c, s.pump) ==> !Pumping(t.pump))
            && (i == QUIET && !TimeIsUp(c, s.pump) ==> t == s)
  {
    StopIfKeeps(c, s.pump, s, TimeIsUp(c, s.pump));
    var s1 := StopIf(c, Ideal(), s, TimeIsUp(c, s.pump));
    StopIfKeeps(c, s.pump, s1, TooHigh(s1.pump, i));
    LowPressureKeeps(c, s.pump, StopIf(c, Ideal(), s1, TooHigh(s1.pump, i)), i);
  }

  lemma StartMatchKeeps(c: Config, s: State, i: Input)
    requires PumpInv(s.pump) && (s.pump.motor == P.OffIdle ==> ByStarDelta(i))
    ensures var t := StartMatch(c, Ideal(), s, i);
            && PumpInv(t.pump) && t.pump.motor == s.pump.motor && t.pump.wires == s.pump.wires
            && (s.pump.motor != P.OffIdle || i.matching.None? ==> t == s)
  {
  }

  /** What operation_pump_valves does, by the state of the motor. */
  lemma PumpValvesIs(c: Config, s: State)
    requires ValidConfig(c) && ValvesInv(c.valves, s.valves) && Fits(c, s.valves)
    requires s.pump.motor == P.OffIdle || s.pump.motor == P.OnSpeedingUp || s.pump.motor == P.OnDelta
    ensures PumpValves(c, s) ==
            if s.pump.motor == P.OffIdle then FollowStop(s)
            else if !s.valves.running && s.pump.motor == P.OnSpeedingUp then FollowStart(c, s)
            else s
  {
    assert KeepCurrent(c, s) == s by {
      if s.valves.running && OnValve(s.valves) {
        var w := s.valves.output;
        assert V.SetValve(w, s.valves.current, true) == w;
      }
    }
  }

  // ----- the invariant: the valves outlast the pump -----

  /** The shutdown time a cycle sets, and the length of the cycle. */
  function FollowTime(c: Config): nat
    requires ValidConfig(c)
  {
    (V.TimeUpTo(c.valves, V.N_VALVES) - 10) % WORD32
  }

  function CycleLength(c: Config): nat
    requires ValidConfig(c)
  {
    1 + V.UpdatesUpTo(c.valves, V.N_VALVES)
  }

  /** The timer stops the pump before the cycle is over. */
  ghost predicate TimerComesFirst(c: Config) {
    ValidConfig(c) && c.checkTimer && FollowTime(c) < CycleLength(c)
  }

  lemma {:induction false} NoneProgrammed(c: V.Config, n: nat)
    requires V.ValidConfig(c) && n <= V.N_VALVES
    ensures V.ProgrammedUpTo(c, n) == 0 <==> V.UpdatesUpTo(c, n) == 0
    ensures V.ProgrammedUpTo(c, n) == 0 ==> V.TimeUpTo(c, n) == 0
  {
    if n > 0 {
      NoneProgrammed(c, n - 1);
    }
  }

  lemma CycleIsLongEnough(c: Config)
    requires TimerComesFirst(c)
    ensures CycleLength(c) >= 2
  {
    NoneProgrammed(c.valves, V.N_VALVES);
  }

  /** The cycle takes longer than the timer, and goes on through the next second. */
  ghost predicate Outlasts(c: Config, s: State) {
    && ValidConfig(c) && V.Position(c.valves, s.valves.current)
    && UpdatesLeft(c.valves, s.valves) >= 2 && s.pump.timeToShutdown < UpdatesLeft(c.valves, s.valves)
  }

  /** A start by star-delta sets the timer to the shutdown time.  It may be asked for when no cycle is
      under way, when the cycle leaves that much time, or when it ends with the next second. */
  ghost predicate MayStart(c: Config, s: State) {
    && ValidConfig(c) && Fits(c, s.valves)
    && (s.valves.running ==>
          s.shutdownTime + 1 < UpdatesLeft(c.valves, s.valves) || UpdatesLeft(c.valves, s.valves) == 1)
  }

  ghost predicate Shape(c: Config, s: State) {
    && ValidConfig(c)
    && (|| (s.pump.motor == P.OffIdle && PumpInv(s.pump) && !s.valves.running && s.valves.output == V.AllOff())
        || (s.pump.motor != P.OffIdle && PumpInv(s.pump) && ValvesInv(c.valves, s.valves) && Fits(c, s.valves)))
  }

  ghost predicate Inv(c: Config, s: State) {
    || (Shape(c, s) && (s.valves.running && Pumping(s.pump) ==> Outlasts(c, s)) && !Requested(s.pump))
    || (Shape(c, s) && (s.valves.running && Pumping(s.pump) ==> Outlasts(c, s)) && MayStart(c, s))
  }

  /** Where a second's outputs are closed that were open before it, or in the course of it, the pump
      had been commanded off before that second. */
  ghost predicate PumpFirst(c: Config, s: State, t: State) {
    && ValidConfig(c) && Fits(c, s.valves)
    && (t.valves.output == V.AllOff() ==>
          || !Pumping(s.pump)
          || s.valves.output == V.Tick(c.valves, s.valves).output == V.AllOff())
  }

  /** Pump and cycle run, and the cycle has more updates to go than the timer seconds. */
  ghost predicate RunsOn(c: Config, s: State) {
    && ValidConfig(c)
    && PumpInv(s.pump) && Pumping(s.pump) && !Requested(s.pump) && s.pump.motor != P.OffIdle
    && ValvesInv(c.valves, s.valves) && s.valves.running && OnValve(s.valves)
    && s.pump.timeToShutdown < UpdatesLeft(c.valves, s.valves)
  }

  /** After the updates of a second in which the pump runs. */
  lemma UpdatedRunning(c: Config, s: State)
    requires ValidConfig(c) && Inv(c, s) && s.valves.running && UpdatesLeft(c.valves, s.valves) > 1
    requires Pumping(s.pump) || Requested(s.pump)
    ensures RunsOn(c, UpdateObjects(c, Ideal(), s))
  {
    PumpSecond(PumpConfig(c, s), s.pump);
    ValvesTick(c.valves, s.valves);
  }

  lemma CheckedRunning(c: Config, s: State, i: Input)
    requires TimerComesFirst(c) && RunsOn(c, s)
    ensures var t := StopCheck(c, Ideal(), s, i);
            Inv(c, t) && t.pump.motor == s.pump.motor && t.valves == s.valves && t.valves.output != V.AllOff()
  {
    StopCheckKeeps(c, s, i);
    OpenIsNotAllOff(s.valves);
  }

  /** The pump runs in this second: the valves go on. */
  lemma SecondRunning(c: Config, s: State, i: Input)
    requires TimerComesFirst(c) && Inv(c, s) && s.valves.running && UpdatesLeft(c.valves, s.valves) > 1
    requires Pumping(s.pump) || Requested(s.pump)
    ensures var t := Second(c, Ideal(), s, i); Inv(c, t) && PumpFirst(c, s, t)
  {
    UpdatedRunning(c, s);
    var u := UpdateObjects(c, Ideal(), s);
    CheckedRunning(c, u, i);
    var v := StopCheck(c, Ideal(), u, i);
    StartMatchKeeps(c, v, i);
    PumpValvesIs(c, v);
  }

  lemma UpdatedStarting(c: Config, s: State)
    requires ValidConfig(c) && Inv(c, s)
    requires s.valves.running ==> UpdatesLeft(c.valves, s.valves) == 1
    requires Pumping(s.pump) || Requested(s.pump)
    ensures var t := UpdateObjects(c, Ideal(), s);
            && PumpInv(t.pump) && !Requested(t.pump) && t.pump.motor != P.OffIdle
            && ValvesInv(c.valves, t.valves) && !t.valves.running
    ensures s.valves.running ==> !Pumping(s.pump)
    ensures !s.valves.running ==> s.valves.output == V.Tick(c.valves, s.valves).output == V.AllOff()
  {
    PumpSecond(PumpConfig(c, s), s.pump);
    if s.valves.running {
      ValvesTick(c.valves, s.valves);
    }
  }

  /** A cycle started in time keeps the invariant. */
  lemma FollowsInTime(c: Config, s: State)
    requires TimerComesFirst(c) && PumpInv(s.pump) && !Requested(s.pump) && s.pump.motor != P.OffIdle
    requires ValvesInv(c.valves, s.valves) && !s.valves.running
    ensures Inv(c, PumpValves(c, s))
  {
    PumpValvesIs(c, s);
    ValvesStart(c.valves, s.valves);
    CycleIsLongEnough(c);
  }

  /** The pump runs or starts without a cycle, or as one ends: a new one is started while it speeds up. */
  lemma SecondStarting(c: Config, s: State, i: Input)
    requires TimerComesFirst(c) && Inv(c, s)
    requires s.valves.running ==> UpdatesLeft(c.valves, s.valves) == 1
    requires Pumping(s.pump) || Requested(s.pump)
    ensures var t := Second(c, Ideal(), s, i); Inv(c, t) && PumpFirst(c, s, t)
  {
    UpdatedStarting(c, s);
    var u := UpdateObjects(c, Ideal(), s);
    StopCheckKeeps(c, u, i);
    var v := StopCheck(c, Ideal(), u, i);
    StartMatchKeeps(c, v, i);
    FollowsInTime(c, v);
    assert Second(c, Ideal(), s, i) == PumpValves(c, v);
  }

  /** The pump is off: a cycle is stopped. */
  lemma SecondIdle(c: Config, s: State, i: Input)
    requires ValidConfig(c) && Shape(c, s) && ByStarDelta(i)
    requires !Pumping(s.pump) && !Requested(s.pump)
    ensures var t := Second(c, Ideal(), s, i); Inv(c, t) && PumpFirst(c, s, t)
  {
    PumpSecond(PumpConfig(c, s), s.pump);
    if s.valves.running {
      ValvesTick(c.valves, s.valves);
    }
    var u := UpdateObjects(c, Ideal(), s);
    StopCheckKeeps(c, u, i);
    var v := StopCheck(c, Ideal(), u, i);
    StartMatchKeeps(c, v, i);
    PumpValvesIs(c, StartMatch(c, Ideal(), v, i));
  }

  lemma SecondKeeps(c: Config, s: State, i: Input)
    requires TimerComesFirst(c) && Inv(c, s) && ByStarDelta(i)
    ensures var t := Second(c, Ideal(), s, i); Inv(c, t) && PumpFirst(c, s, t)
  {
    if !Pumping(s.pump) && !Requested(s.pump) {
      SecondIdle(c, s, i);
    } else if s.valves.running && UpdatesLeft(c.valves, s.valves) > 1 {
      SecondRunning(c, s, i);
    } else {
      SecondStarting(c, s, i);
    }
  }

  // ----- every run -----

  /** Power-up: everything off, whatever is left in the valve timers and the shutdown time. */
  ghost predicate Started(s: State) {
    s.pump == P.POWER_UP && !s.valves.running && s.valves.output == V.AllOff()
  }

  ghost predicate StepAt(c: Config, steps: seq<Step>, run: seq<State>, n: nat) {
    && ValidConfig(c) && n < |steps| && n + 1 < |run|
    && Fits(c, run[n].valves) && run[n + 1] == Next(c, run[n], steps[n])
    && (steps[n].OneSecond? ==> ByStarDelta(steps[n].input))
  }

  ghost predicate Follows(c: Config, steps: seq<Step>, run: seq<State>) {
    ValidConfig(c) && |run| == |steps| + 1 && forall n :: 0 <= n < |steps| ==> StepAt(c, steps, run, n)
  }

  ghost predicate PermittedAt(c: Config, steps: seq<Step>, run: seq<State>, n: nat) {
    n < |steps| && n < |run| && (steps[n] == CommandRequest ==> MayStart(c, run[n]))
  }

  /** From step k on a start is commanded only when it may be. */
  ghost predicate PermittedFrom(c: Config, steps: seq<Step>, run: seq<State>, k: nat) {
    forall n :: k <= n < |steps| ==> PermittedAt(c, steps, run, n)
  }

  ghost predicate SafeAt(c: Config, steps: seq<Step>, run: seq<State>, n: nat) {
    n < |steps| && n + 1 < |run| && (steps[n].OneSecond? ==> PumpFirst(c, run[n], run[n + 1]))
  }

  /** In every second of the run the valves close only after the pump was commanded off. */
  ghost predicate SafeRun(c: Config, steps: seq<Step>, run: seq<State>) {
    forall n :: 0 <= n < |steps| ==> SafeAt(c, steps, run, n)
  }

  lemma StepKeeps(c: Config, s: State, step: Step)
    requires TimerComesFirst(c) && Inv(c, s)
    requires step == CommandRequest ==> MayStart(c, s)
    requires step.OneSecond? ==> ByStarDelta(step.input)
    ensures Inv(c, Next(c, s, step))
  {
    match step
    case OneSecond(i) => SecondKeeps(c, s, i);
    case CommandStop => PumpStop(PumpConfig(c, s), s.pump);
    case CommandRequest =>
  }

  lemma {:induction false} RunKeeps(c: Config, steps: seq<Step>, run: seq<State>, n: nat)
    requires TimerComesFirst(c) && Follows(c, steps, run) && Inv(c, run[0]) && PermittedFrom(c, steps, run, 0)
    requires n <= |steps|
    ensures Inv(c, run[n])
  {
    if n > 0 {
      RunKeeps(c, steps, run, n - 1);
      assert StepAt(c, steps, run, n - 1) && PermittedAt(c, steps, run, n - 1);
      StepKeeps(c, run[n - 1], steps[n - 1]);
    }
  }

  lemma KeptIsSafe(c: Config, steps: seq<Step>, run: seq<State>)
    requires TimerComesFirst(c) && Follows(c, steps, run) && Inv(c, run[0]) && PermittedFrom(c, steps, run, 0)
    ensures SafeRun(c, steps, run)
  {
    forall n | 0 <= n < |steps| ensures SafeAt(c, steps, run, n) {
      RunKeeps(c, steps, run, n);
      assert StepAt(c, steps, run, n);
      if steps[n].OneSecond? {
        SecondKeeps(c, run[n], steps[n].input);
      }
    }
  }

  // ----- the condition is exact -----

  ghost predicate UnderWay(c: Config, s: State) {
    && Shape(c, s) && s.valves.running && Pumping(s.pump) && !Requested(s.pump)
    && (UpdatesLeft(c.valves, s.valves) >= 2 || OnValve(s.valves))
  }

  /** The cycle will be over before the timer stops the pump. */
  ghost predicate Late(c: Config, s: State) {
    || (UnderWay(c, s) && !c.checkTimer)
    || (UnderWay(c, s) && s.pump.timeToShutdown >= UpdatesLeft(c.valves, s.valves))
  }

  /** In a second without events nothing stops a pump whose time is not up. */
  lemma QuietSecond(c: Config, s: State)
    requires ValidConfig(c) && Shape(c, s) && (Pumping(s.pump) || Requested(s.pump))
    requires !TimeIsUp(c, UpdateObjects(c, Ideal(), s).pump)
    ensures Second(c, Ideal(), s, QUIET) == PumpValves(c, UpdateObjects(c, Ideal(), s))
  {
    PumpSecond(PumpConfig(c, s), s.pump);
    var u := UpdateObjects(c, Ideal(), s);
    StopCheckKeeps(c, u, QUIET);
    StartMatchKeeps(c, u, QUIET);
  }

  lemma LateGoesOn(c: Config, s: State)
    requires ValidConfig(c) && Late(c, s) && UpdatesLeft(c.valves, s.valves) >= 2
    ensures var t := Second(c, Ideal(), s, QUIET);
            Late(c, t) && UpdatesLeft(c.valves, t.valves) == UpdatesLeft(c.valves, s.valves) - 1
  {
    PumpSecond(PumpConfig(c, s), s.pump);
    ValvesTick(c.valves, s.valves);
    QuietSecond(c, s);
    PumpValvesIs(c, UpdateObjects(c, Ideal(), s));
  }

  lemma LateCloses(c: Config, s: State)
    requires ValidConfig(c) && Late(c, s) && UpdatesLeft(c.valves, s.valves) == 1
    ensures !PumpFirst(c, s, Second(c, Ideal(), s, QUIET))
  {
    PumpSecond(PumpConfig(c, s), s.pump);
    ValvesTick(c.valves, s.valves);
    var u := UpdateObjects(c, Ideal(), s);
    StopCheckKeeps(c, u, QUIET);
    PumpValvesIs(c, StopCheck(c, Ideal(), u, QUIET));
    OpenIsNotAllOff(s.valves);
  }

  /** A run that closes the valves while the pump runs, of a start by command at most one. */
  ghost predicate Unsafe(c: Config, steps: seq<Step>, run: seq<State>) {
    Follows(c, steps, run) && !SafeRun(c, steps, run) && forall n :: 1 <= n < |steps| ==> steps[n] == OneSecond(QUIET)
  }

  lemma Prepend(c: Config, s: State, step: Step, steps: seq<Step>, run: seq<State>)
    requires ValidConfig(c) && Fits(c, s.valves) && Unsafe(c, steps, run) && run[0] == Next(c, s, step)
    requires step == CommandRequest || step == OneSecond(QUIET)
    requires |steps| > 0 && steps[0] == OneSecond(QUIET)
    ensures Unsafe(c, [step] + steps, [s] + run)
  {
    var steps', run' := [step] + steps, [s] + run;
    forall n | 0 <= n < |steps'| ensures StepAt(c, steps', run', n) {
      if n > 0 {
        assert StepAt(c, steps, run, n - 1);
      }
    }
    var n :| 0 <= n < |steps| && !SafeAt(c, steps, run, n);
    assert !SafeAt(c, steps', run', n + 1);
  }

  lemma {:induction false} LateIsUnsafe(c: Config, s: State) returns (steps: seq<Step>, run: seq<State>)
    requires ValidConfig(c) && Late(c, s)
    ensures Unsafe(c, steps, run) && run[0] == s && |steps| > 0 && steps[0] == OneSecond(QUIET)
    decreases UpdatesLeft(c.valves, s.valves)
  {
    var t := Second(c, Ideal(), s, QUIET);
    if UpdatesLeft(c.valves, s.valves) == 1 {
      LateCloses(c, s);
      steps, run := [OneSecond(QUIET)], [s, t];
      assert StepAt(c, steps, run, 0) && !SafeAt(c, steps, run, 0);
    } else {
      LateGoesOn(c, s);
      steps, run := LateIsUnsafe(c, t);
      Prepend(c, s, OneSecond(QUIET), steps, run);
      steps, run := [OneSecond(QUIET)] + steps, [s] + run;
    }
  }

  /** A start that was asked for, and the second in which it takes place. */
  lemma RequestIsUnsafe(c: Config, s: State) returns (steps: seq<Step>, run: seq<State>)
    requires ValidConfig(c) && Fits(c, s.valves)
    requires var r := Next(c, s, CommandRequest); Shape(c, r) && Late(c, Second(c, Ideal(), r, QUIET))
    ensures Unsafe(c, steps, run) && run[0] == s && |steps| > 0 && steps[0] == CommandRequest
    ensures PermittedFrom(c, steps, run, 1)
  {
    var r := Next(c, s, CommandRequest);
    steps, run := LateIsUnsafe(c, Second(c, Ideal(), r, QUIET));
    Prepend(c, r, OneSecond(QUIET), steps, run);
    steps, run := [OneSecond(QUIET)] + steps, [r] + run;
    Prepend(c, s, CommandRequest, steps, run);
    steps, run := [CommandRequest] + steps, [s] + run;
  }

  const AT_REST := State(P.POWER_UP, 1800, V.State(false, 0, 0, 0, false, 0, V.AllOff()))

  /** ... and it takes that: a second that stops an idle pump and then finds an entry for a direct start of K1
      ends with the pin of K1 high. */
  lemma StartsAfterStop(c: Config)
    requires ValidConfig(c)
    ensures var t := Second(c, Ideal(), AT_REST, Input(false, false, true, false, Some(Entry(P.DirectK1, 0))));
            t.pump.wires.pins == P.Three(true, false, false)
  {
    var i := Input(false, false, true, false, Some(Entry(P.DirectK1, 0)));
    var u := UpdateObjects(c, Ideal(), AT_REST);
    PumpSecond(PumpConfig(c, AT_REST), AT_REST.pump);
    var v := StopCheck(c, Ideal(), u, i);
    StopCheckKeeps(c, u, i);
    var w := P.DrivePin(v.pump.wires, P.K1, true);
    WaitsOnce(PumpConfig(c, v), w, P.IsOn(P.K1));
    ValvesByMotor(c, StartMatch(c, Ideal(), v, i), 0);
  }

  /** When the timer does not come first, the first start after power-up already shows it. */
  lemma FirstStartIsLate(c: Config)
    requires ValidConfig(c) && !TimerComesFirst(c) && V.ProgrammedUpTo(c.valves, V.N_VALVES) > 0
    ensures var r := Next(c, AT_REST, CommandRequest); Shape(c, r) && Late(c, Second(c, Ideal(), r, QUIET))
  {
    var r := Next(c, AT_REST, CommandRequest);
    PumpSecond(PumpConfig(c, r), r.pump);
    var u := UpdateObjects(c, Ideal(), r);
    QuietSecond(c, r);
    PumpValvesIs(c, u);
    ValvesStart(c.valves, u.valves);
    NoneProgrammed(c.valves, V.N_VALVES);
  }

  // ----- nothing programmed, nothing opened -----

  ghost predicate Closed(c: Config, v: V.State) {
    || (!v.running && v.output == V.AllOff())
    || (v.current == V.StartPosition(c.valves) && v.remain == 0 && v.output == V.AllOff())
  }

  lemma {:induction false} ProgrammedCounts(c: V.Config, n: nat, v: nat)
    requires V.ValidConfig(c) && 1 <= v <= n <= V.N_VALVES && c.programmed[v - 1]
    ensures V.ProgrammedUpTo(c, n) > 0
  {
    if v < n {
      ProgrammedCounts(c, n - 1, v);
    }
  }

  lemma ClosedTick(c: Config, v: V.State)
    requires ValidConfig(c) && V.ProgrammedUpTo(c.valves, V.N_VALVES) == 0 && Closed(c, v) && Fits(c, v)
    ensures Closed(c, V.Tick(c.valves, v))
  {
    if v.running {
      var next := V.Scan(c.valves, v.current);
      if next != 0 {
        ProgrammedCounts(c.valves, V.N_VALVES, next);
      } else {
        V.StaysOff(c.valves, V.Switch(c.valves, v));
      }
    }
  }

  lemma ClosedStays(c: Config, s: State, step: Step)
    requires ValidConfig(c) && V.ProgrammedUpTo(c.valves, V.N_VALVES) == 0 && Closed(c, s.valves) && Fits(c, s.valves)
    ensures Closed(c, Next(c, s, step).valves)
  {
    ClosedTick(c, s.valves);
  }

  lemma {:induction false} ClosedForGood(c: Config, steps: seq<Step>, run: seq<State>, n: nat)
    requires ValidConfig(c) && V.ProgrammedUpTo(c.valves, V.N_VALVES) == 0
    requires Follows(c, steps, run) && Closed(c, run[0].valves) && n <= |steps|
    ensures Closed(c, run[n].valves)
  {
    if n > 0 {
      ClosedForGood(c, steps, run, n - 1);
      assert StepAt(c, steps, run, n - 1);
      ClosedStays(c, run[n - 1], steps[n - 1]);
    }
  }

  lemma ClosedIsSafe(c: Config, steps: seq<Step>, run: seq<State>)
    requires ValidConfig(c) && V.ProgrammedUpTo(c.valves, V.N_VALVES) == 0
    requires Follows(c, steps, run) && Closed(c, run[0].valves)
    ensures SafeRun(c, steps, run)
  {
    forall n | 0 <= n < |steps| ensures SafeAt(c, steps, run, n) {
      ClosedForGood(c, steps, run, n);
      assert StepAt(c, steps, run, n);
      ClosedTick(c, run[n].valves);
    }
  }

  // ----- the main results -----

  ghost predicate FromPowerUp(c: Config, steps: seq<Step>, run: seq<State>) {
    Follows(c, steps, run) && Started(run[0]) && PermittedFrom(c, steps, run, 0)
  }

  /** The valves close last: in every run from power-up, whatever stops the pump and whenever, the
      valve outputs go all-closed only in a second before which the pump had been commanded off. */
  lemma ValvesCloseLast(c: Config, steps: seq<Step>, run: seq<State>)
    requires ValidConfig(c) && FromPowerUp(c, steps, run)
    requires TimerComesFirst(c) || V.ProgrammedUpTo(c.valves, V.N_VALVES) == 0
    ensures SafeRun(c, steps, run)
  {
    if TimerComesFirst(c) {
      KeptIsSafe(c, steps, run);
    } else {
      ClosedIsSafe(c, steps, run);
    }
  }

  lemma UnsafeFromPowerUp(c: Config) returns (steps: seq<Step>, run: seq<State>)
    requires ValidConfig(c) && !TimerComesFirst(c) && V.ProgrammedUpTo(c.valves, V.N_VALVES) > 0
    ensures FromPowerUp(c, steps, run) && !SafeRun(c, steps, run)
  {
    FirstStartIsLate(c);
    steps, run := RequestIsUnsafe(c, AT_REST);
    assert PermittedAt(c, steps, run, 0);
  }

  /** ... and that the timer comes before the end of the cycle is exactly what it takes. */
  lemma ValvesCloseLastIff(c: Config)
    requires ValidConfig(c)
    ensures (forall steps, run :: FromPowerUp(c, steps, run) ==> SafeRun(c, steps, run)) <==>
            TimerComesFirst(c) || V.ProgrammedUpTo(c.valves, V.N_VALVES) == 0
  {
    if TimerComesFirst(c) || V.ProgrammedUpTo(c.valves, V.N_VALVES) == 0 {
      forall steps, run | FromPowerUp(c, steps, run) ensures SafeRun(c, steps, run) {
        ValvesCloseLast(c, steps, run);
      }
    } else {
      var steps, run := UnsafeFromPowerUp(c);
    }
  }

  ghost predicate StartsWithRequest(c: Config, s: State, steps: seq<Step>, run: seq<State>) {
    && Follows(c, steps, run) && run[0] == s && PermittedFrom(c, steps, run, 1)
    && |steps| > 0 && steps[0] == CommandRequest
  }

  /** A start commanded in the middle of things is safe exactly when it may be: when no cycle is under
      way, when the cycle takes longer than the shutdown time, or when it ends with the next second. */
  lemma RequestSafeIff(c: Config, s: State)
    requires TimerComesFirst(c) && Inv(c, s)
    ensures (forall steps, run :: StartsWithRequest(c, s, steps, run) ==> SafeRun(c, steps, run)) <==> MayStart(c, s)
  {
    if MayStart(c, s) {
      forall steps, run | StartsWithRequest(c, s, steps, run) ensures SafeRun(c, steps, run) {
        assert PermittedAt(c, steps, run, 0);
        KeptIsSafe(c, steps, run);
      }
    } else {
      var r := Next(c, s, CommandRequest);
      PumpSecond(PumpConfig(c, r), r.pump);
      ValvesTick(c.valves, r.valves);
      QuietSecond(c, r);
      PumpValvesIs(c, UpdateObjects(c, Ideal(), r));
      var steps, run := RequestIsUnsafe(c, s);
      assert StartsWithRequest(c, s, steps, run);
    }
  }

  lemma {:induction false} AtMostAll(c: V.Config, n: nat)
    requires V.ValidConfig(c) && n <= V.N_VALVES
    ensures V.ProgrammedUpTo(c, n) <= n
  {
    if n > 0 {
      AtMostAll(c, n - 1);
    }
  }

  /** In terms of the settings: the total is ten seconds or more, and the seconds beyond whole minutes,
      which the timer counts and the valves do not run, are at most ten and one a valve. */
  lemma TimerComesFirstIff(c: Config)
    requires ValidConfig(c) && V.TimeUpTo(c.valves, V.N_VALVES) < WORD32
    ensures TimerComesFirst(c) <==>
            && c.checkTimer && V.TimeUpTo(c.valves, V.N_VALVES) >= 10
            && V.OddSecondsUpTo(c.valves, V.N_VALVES) <= 10 + V.ProgrammedUpTo(c.valves, V.N_VALVES)
  {
    V.UpdatesAndTime(c.valves, V.N_VALVES);
    AtMostAll(c.valves, V.N_VALVES);
    var total := V.TimeUpTo(c.valves, V.N_VALVES);
    assert FollowTime(c) == if total >= 10 then total - 10 else total - 10 + WORD32;
  }

  lemma {:induction false} WholeMinutesHaveNoOddSeconds(c: V.Config, n: nat)
    requires V.ValidConfig(c) && n <= V.N_VALVES
    requires forall v :: 0 <= v < n && c.programmed[v] ==> c.time[v] % 60 == 0
    ensures V.OddSecondsUpTo(c, n) == 0
    ensures forall v :: 0 <= v < n && c.programmed[v] ==> c.time[v] <= V.TimeUpTo(c, n)
  {
    if n > 0 {
      WholeMinutesHaveNoOddSeconds(c, n - 1);
    }
  }

  /** With whole minutes and a programmed valve of a minute or more the timer comes first. */
  lemma WholeMinutes(c: Config, v: nat)
    requires ValidConfig(c) && c.checkTimer && V.TimeUpTo(c.valves, V.N_VALVES) < WORD32
    requires forall k :: 0 <= k < V.N_VALVES && c.valves.programmed[k] ==> c.valves.time[k] % 60 == 0
    requires v < V.N_VALVES && c.valves.programmed[v] && c.valves.time[v] >= 60
    ensures TimerComesFirst(c)
  {
    WholeMinutesHaveNoOddSeconds(c.valves, V.N_VALVES);
    TimerComesFirstIff(c);
  }

  // ----- the valves follow the pump, with any settings -----

  /** Before operation_pump_valves: the motor is idle exactly if the second found the pump off and no start
      asked for, and speeds up if one was. */
  ghost predicate Prepared(c: Config, s: State, t: State)
    requires ValidConfig(c)
  {
    || (Kept(c, s, t) && t.pump.motor == P.OffIdle && !Pumping(s.pump) && !Requested(s.pump))
    || (Kept(c, s, t) && t.pump.motor == P.OnSpeedingUp && Requested(s.pump))
    || (Kept(c, s, t) && t.pump.motor != P.OffIdle && Pumping(s.pump) && !Requested(s.pump))
  }

  ghost predicate Kept(c: Config, s: State, t: State)
    requires ValidConfig(c)
  {
    && PumpInv(t.pump) && ValvesInv(c.valves, t.valves) && Fits(c, t.valves)
    && (!s.valves.running ==> t.valves == s.valves)
  }

  lemma UpdatePrepares(c: Config, s: State)
    requires ValidConfig(c) && Shape(c, s)
    ensures Prepared(c, s, UpdateObjects(c, Ideal(), s))
  {
    PumpSecond(PumpConfig(c, s), s.pump);
    if s.valves.running {
      ValvesTick(c.valves, s.valves);
    }
  }

  lemma ChecksPrepare(c: Config, s: State, u: State, i: Input)
    requires ValidConfig(c) && Prepared(c, s, u) && ByStarDelta(i)
    ensures Prepared(c, s, StartMatch(c, Ideal(), StopCheck(c, Ideal(), u, i), i))
  {
    StopCheckKeeps(c, u, i);
    StartMatchKeeps(c, StopCheck(c, Ideal(), u, i), i);
  }

  /** A second that found the pump off, with no start asked for, ends with all valves closed; one that
      carried out a start without a cycle ends with a cycle begun and its time set. */
  ghost predicate ValvesFollowed(c: Config, s: State, t: State)
    requires ValidConfig(c)
  {
    || (!Pumping(s.pump) && !Requested(s.pump) && Shape(c, t) && !t.valves.running && t.valves.output == V.AllOff())
    || (Requested(s.pump) && !s.valves.running && Shape(c, t) &&
        (t.valves, t.pump.timeToShutdown) == (V.Start(c.valves, s.valves), FollowTime(c)))
    || (Requested(s.pump) && s.valves.running && Shape(c, t))
    || (Pumping(s.pump) && !Requested(s.pump) && Shape(c, t))
  }

  lemma PreparedFollows(c: Config, s: State, w: State)
    requires ValidConfig(c) && Prepared(c, s, w)
    ensures ValvesFollowed(c, s, PumpValves(c, w))
  {
    PumpValvesIs(c, w);
    ValvesStart(c.valves, w.valves);
  }

  lemma SecondFollows(c: Config, s: State, i: Input)
    requires ValidConfig(c) && Shape(c, s) && ByStarDelta(i)
    ensures ValvesFollowed(c, s, Second(c, Ideal(), s, i))
  {
    UpdatePrepares(c, s);
    var u := UpdateObjects(c, Ideal(), s);
    ChecksPrepare(c, s, u, i);
    PreparedFollows(c, s, StartMatch(c, Ideal(), StopCheck(c, Ideal(), u, i), i));
  }

  lemma {:induction false} RunKeepsShape(c: Config, steps: seq<Step>, run: seq<State>, n: nat)
    requires ValidConfig(c) && Follows(c, steps, run) && Started(run[0]) && n <= |steps|
    ensures Shape(c, run[n])
  {
    if n > 0 {
      RunKeepsShape(c, steps, run, n - 1);
      var s := run[n - 1];
      assert StepAt(c, steps, run, n - 1);
      match steps[n - 1]
      case OneSecond(i) => SecondFollows(c, s, i);
      case CommandStop => PumpStop(PumpConfig(c, s), s.pump);
      case CommandRequest =>
    }
  }

  /** In every run, with any settings and any commands: a second that begins with the pump commanded
      off and no start asked for ends with all valves closed, so they are closed at most one second
      after the pump; and a start without a cycle under way begins one. */
  lemma ValvesFollowPump(c: Config, steps: seq<Step>, run: seq<State>, n: nat)
    requires ValidConfig(c) && Follows(c, steps, run) && Started(run[0])
    requires n < |steps| && steps[n].OneSecond?
    ensures !Pumping(run[n].pump) && !Requested(run[n].pump) ==> run[n + 1].valves.output == V.AllOff()
    ensures Requested(run[n].pump) && !run[n].valves.running ==>
              run[n + 1].valves == V.Start(c.valves, run[n].valves) &&
              run[n + 1].pump.timeToShutdown == FollowTime(c)
  {
    RunKeepsShape(c, steps, run, n);
    assert StepAt(c, steps, run, n);
    SecondFollows(c, run[n], steps[n].input);
  }
}
