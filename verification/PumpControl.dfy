/** The pump driver as a state machine over its three contactors (main/acionna/pump.hpp), with every
    contactor reading left to the environment, and the star-delta interlock proved over all runs. */
module PumpControl {
  import opened Words

  datatype Motor = OffIdle | OnK1 | OnK2 | OnSpeedingUp | OnDelta | OffK3ShortCircuit | OffThermal | Undefined

  /** Unset stands for an entry of a start list that was never given a type. */
  datatype StartType = DirectK1 | DirectK2 | DirectK3 | ToDelta | ToY | YDeltaRequest | Unset

  predicate On(m: Motor) {
    m == OnK1 || m == OnK2 || m == OnDelta || m == OnSpeedingUp
  }

  /** One value for each of K1, K2 and K3. */
  datatype Three = Three(k1: bool, k2: bool, k3: bool)

  const NONE := Three(false, false, false)

  /** What one reading of the four inputs finds. */
  datatype Inputs = Inputs(contactors: Three, rth: bool)

  /** What the n-th reading since power-up finds when the output pins are as given: any function. */
  type Environment = (nat, Three) -> Inputs

  datatype Contactor = K1 | K2 | K3

  function Get(t: Three, k: Contactor): bool {
    match k case K1 => t.k1 case K2 => t.k2 case K3 => t.k3
  }

  function Put(t: Three, k: Contactor, on: bool): Three {
    match k case K1 => t.(k1 := on) case K2 => t.(k2 := on) case K3 => t.(k3 := on)
  }

  /** What happens on the wires, in order. */
  datatype Event = Drive(k: Contactor, on: bool) | Sample(read: Three)

  datatype Config = Config(pinOnly: bool, switchTime: nat, shutdownTime: nat, deltaTime: nat, waitTime: nat)

  /** The output pins; the pins and the contactors as last read; the number of readings so far. */
  datatype Wires = Wires(pins: Three, seen: Three, state: Three, rth: bool, now: nat, log: seq<Event>)

  const UNPOWERED := Wires(NONE, NONE, NONE, false, 0, [])

  // ----- outputs and inputs -----

  function DrivePin(w: Wires, k: Contactor, on: bool): Wires {
    w.(pins := Put(w.pins, k, on), log := w.log + [Drive(k, on)])
  }

  function AllLow(w: Wires): Wires {
    DrivePin(DrivePin(DrivePin(w, K1, false), K2, false), K3, false)
  }

  /** update_switches_ */
  function Refresh(c: Config, env: Environment, w: Wires): Wires {
    var r := env(w.now, w.pins);
    Wires(w.pins, w.pins, if c.pinOnly then w.pins else r.contactors, r.rth, w.now + 1,
          w.log + [Sample(r.contactors)])
  }

  /** What a wait loop waits for: one contactor on, one contactor off and its pin low, or all off. */
  datatype Goal = IsOn(k: Contactor) | IsOff(k: Contactor) | AllOff

  predicate Reached(g: Goal, w: Wires) {
    match g
    case IsOn(k) => Get(w.state, k)
    case IsOff(k) => !Get(w.state, k) && !Get(w.seen, k)
    case AllOff => w.state == NONE
  }

  datatype Waited = Waited(wires: Wires, ok: bool, loops: nat)

  function Limit(c: Config): nat {
    c.switchTime * 1000
  }

  /** A wait loop that has gone round i times: read again until the goal is reached, give up after
      1000 rounds for every millisecond of the switch time. */
  function Wait(c: Config, env: Environment, w: Wires, g: Goal, i: nat): (r: Waited)
    requires i <= Limit(c)
    ensures i <= r.loops <= Limit(c) + 1
    ensures r.ok ==> Reached(g, r.wires)
    decreases Limit(c) - i
  {
    if Reached(g, w) then Waited(w, true, i)
    else if i + 1 > Limit(c) then Waited(Refresh(c, env, w), false, i + 1)
    else Wait(c, env, Refresh(c, env, w), g, i + 1)
  }

  /** Before `on` is driven, its opposite is driven low and waited for if the cached view has it on. */
  function Release(c: Config, env: Environment, w: Wires, opposite: Contactor): Waited {
    if Get(w.state, opposite) || Get(w.seen, opposite) then
      Wait(c, env, DrivePin(w, opposite, false), IsOff(opposite), 0)
    else Waited(w, true, 0)
  }

  /** Drives a contactor of the pair, and K1 too if the cached view has it off. */
  function Engage(w: Wires, k: Contactor): Wires {
    var t := DrivePin(w, k, true);
    if !t.state.k1 && !t.seen.k1 then DrivePin(t, K1, true) else t
  }

  function Shutdown(c: Config, env: Environment, w: Wires): Wires {
    Wait(c, env, AllLow(w), AllOff, 0).wires
  }

  // ----- the driver -----

  /** Seconds on and off, and the wait after a stop; they decide nothing in the driver. */
  datatype Counters = Counters(on: nat, off: nat, wait: nat, checkWait: bool)

  datatype State = State(wires: Wires, motor: Motor, timeToShutdown: nat,
                         starDelta: bool, nextStart: StartType, deltaTimer: nat, counters: Counters)

  const POWER_UP := State(UNPOWERED, OffIdle, 0, false, YDeltaRequest, 0, Counters(0, 0, 0, false))

  function Stop(c: Config, env: Environment, s: State): State {
    s.(wires := Shutdown(c, env, s.wires), starDelta := false,
       counters := s.counters.(wait := c.waitTime, checkWait := true, off := 0))
  }

  function Classify(k: Three): Motor {
    match k
    case Three(true, false, false) => OnK1
    case Three(false, true, false) => OnK2
    case Three(true, false, true) => OnSpeedingUp
    case Three(true, true, false) => OnDelta
    case Three(false, _, _) => OffK3ShortCircuit
    case _ => Undefined
  }

  function UpdateState(c: Config, env: Environment, s: State): State {
    var w := Refresh(c, env, s.wires);
    if w.rth && s.motor != OffThermal then s.(wires := w, motor := OffThermal)
    else if w.state == NONE then
      (if w.seen.k1 || w.seen.k2 then Stop(c, env, s.(wires := w)) else s.(wires := w)).(motor := OffIdle)
    else s.(wires := w, motor := Classify(w.state))
  }

  function Count(k: Counters, on: bool): Counters {
    var t := if on then k.(on := (k.on + 1) % WORD32) else k.(off := (k.off + 1) % WORD32);
    if !t.checkWait then t else if t.wait == 0 then t.(checkWait := false) else t.(wait := t.wait - 1)
  }

  function UpdateTime(s: State): State {
    var t := s.(counters := Count(s.counters, On(s.motor)));
    if On(s.motor) && s.timeToShutdown > 0 then t.(timeToShutdown := s.timeToShutdown - 1) else t
  }

  datatype Started = Started(state: State, code: int)

  /** The common end of a start that went through. */
  function Finish(c: Config, env: Environment, s: State): Started {
    var t := UpdateState(c, env, s);
    Started(t.(timeToShutdown := c.shutdownTime, counters := t.counters.(on := 0)), 0)
  }

  function StartDirect(c: Config, env: Environment, s: State, k: Contactor): Started {
    var w := Wait(c, env, DrivePin(s.wires, k, true), IsOn(k), 0);
    if w.ok then Finish(c, env, s.(wires := w.wires)) else Started(Stop(c, env, s.(wires := w.wires)), 1)
  }

  /** K3 is switched off and seen to be off before K2 is switched on. */
  function StartToDelta(c: Config, env: Environment, s: State): Started {
    var w := Release(c, env, s.wires, K3);
    if !w.ok then Started(s.(wires := AllLow(w.wires)), 1)
    else
      var t := s.(wires := Engage(w.wires, K2));
      if t.starDelta then Started(t, 0) else Finish(c, env, t)
  }

  /** K2 is switched off and seen to be off before K3 is switched on. */
  function StartToY(c: Config, env: Environment, s: State): Started {
    var w := Release(c, env, s.wires, K2);
    if !w.ok then Started(s.(wires := AllLow(w.wires)), 1)
    else
      var t := s.(wires := Engage(w.wires, K3));
      Finish(c, env, if t.starDelta then t.(nextStart := ToDelta, deltaTimer := c.deltaTime) else t)
  }

  function Start(c: Config, env: Environment, s: State, mode: StartType): Started {
    match mode
    case DirectK1 => StartDirect(c, env, s, K1)
    case DirectK2 => StartDirect(c, env, s, K2)
    case DirectK3 => StartDirect(c, env, s, K3)
    case ToDelta => StartToDelta(c, env, s)
    case ToY => StartToY(c, env, s)
    case YDeltaRequest => Started(s.(starDelta := true, nextStart := ToY), 0)
    case Unset => Finish(c, env, s)
  }

  /** The star-delta sequence: to star at once, to delta when the timer is over. */
  function CheckStartRequest(c: Config, env: Environment, s: State): State {
    if !s.starDelta then s
    else
      var t := if s.nextStart == ToY then StartToY(c, env, s).state else s;
      if t.deltaTimer == 0 then Start(c, env, t, t.nextStart).state.(starDelta := false)
      else t.(deltaTimer := t.deltaTimer - 1)
  }

  /** One second. */
  function Update(c: Config, env: Environment, s: State): State {
    CheckStartRequest(c, env, UpdateTime(UpdateState(c, env, s)))
  }

  // ----- what the interlock promises about the events on the wires -----

  /** The level of output pin k after the events of the log. */
  function Level(log: seq<Event>, k: Contactor): bool {
    if log == [] then false
    else
      var e := log[|log| - 1];
      if e.Drive? && e.k == k then e.on else Level(log[..|log| - 1], k)
  }

  /** The last reading of the inputs found contactor k off. */
  function SampledOff(log: seq<Event>, k: Contactor): bool {
    if log == [] then false
    else
      var e := log[|log| - 1];
      if e.Sample? then !Get(e.read, k) else SampledOff(log[..|log| - 1], k)
  }

  /** K2 and K3 must never be on together. */
  function Opposite(k: Contactor): Contactor {
    match k case K1 => K1 case K2 => K3 case K3 => K2
  }

  /** K2 or K3 goes high only while the other is low and, by the last reading, its contactor off. */
  ghost predicate Allowed(c: Config, log: seq<Event>, e: Event) {
    e.Drive? && e.on && e.k != K1 ==>
      !Level(log, Opposite(e.k)) && (c.pinOnly || SampledOff(log, Opposite(e.k)))
  }

  /** Every event of the log was allowed when it happened. */
  ghost predicate Safe(c: Config, log: seq<Event>) {
    log == [] || (var n := |log| - 1; Safe(c, log[..n]) && Allowed(c, log[..n], log[n]))
  }

  /** So the pins of K2 and K3 are never both high, at no moment of the log. */
  lemma {:induction false} SafeNeverBoth(c: Config, log: seq<Event>, n: nat)
    requires Safe(c, log) && n <= |log|
    ensures !(Level(log[..n], K2) && Level(log[..n], K3))
    decreases |log|
  {
    if n == |log| {
      assert log[..n] == log;
      if log != [] {
        var prefix := log[..n - 1];
        SafeNeverBoth(c, prefix, n - 1);
        assert prefix[..n - 1] == prefix;
      }
    } else {
      var prefix := log[..|log| - 1];
      SafeNeverBoth(c, prefix, n);
      assert prefix[..n] == log[..n];
    }
  }

  lemma Appended(c: Config, log: seq<Event>, e: Event, k: Contactor)
    ensures Level(log + [e], k) == if e.Drive? && e.k == k then e.on else Level(log, k)
    ensures SampledOff(log + [e], k) == if e.Sample? then !Get(e.read, k) else SampledOff(log, k)
    ensures Safe(c, log + [e]) <==> (Safe(c, log) && Allowed(c, log, e))
  {
    assert (log + [e])[..|log + [e]| - 1] == log;
  }

  // ----- the invariant -----

  function Levels(log: seq<Event>): Three {
    Three(Level(log, K1), Level(log, K2), Level(log, K3))
  }

  /** The contactors as last read; taken to be on before the first reading. */
  function LastRead(log: seq<Event>): Three {
    Three(!SampledOff(log, K1), !SampledOff(log, K2), !SampledOff(log, K3))
  }

  /** The log is safe and tells the pins. */
  ghost predicate Told(c: Config, w: Wires) {
    Safe(c, w.log) && w.pins == Levels(w.log)
  }

  /** And the cached contactor states are those last read, if the contactors have been read at all. */
  ghost predicate Inv(c: Config, w: Wires) {
    || (Told(c, w) && w.now == 0 && w.state == w.seen == NONE && LastRead(w.log) == Three(true, true, true))
    || (Told(c, w) && w.now > 0 && (c.pinOnly || w.state == LastRead(w.log)))
  }

  /** The cached view does not hide a high pin k, and the contactors have been read at all. */
  predicate Shows(c: Config, w: Wires, k: Contactor) {
    (c.pinOnly || w.now > 0) && (Get(w.pins, k) ==> Get(w.seen, k) || Get(w.state, k))
  }

  /** Pin k is low and, where contactors are looked at, contactor k was off at the last reading. */
  predicate Clear(c: Config, w: Wires, k: Contactor) {
    !Get(w.pins, k) && (c.pinOnly || (w.now > 0 && !Get(w.state, k)))
  }

  /** The cached view shows every pin of K2 and K3 that is high. */
  predicate FreshView(w: Wires) {
    || (w.now > 0 && (w.pins.k2 ==> w.seen.k2) && w.seen.k3)
    || (w.now > 0 && (w.pins.k2 ==> w.seen.k2) && !w.pins.k3)
  }

  lemma DriveKeeps(c: Config, w: Wires, k: Contactor, on: bool)
    requires Inv(c, w) && Allowed(c, w.log, Drive(k, on))
    ensures Inv(c, DrivePin(w, k, on))
    ensures FreshView(w) && (!on || k == K1) ==> FreshView(DrivePin(w, k, on))
  {
    Appended(c, w.log, Drive(k, on), K1);
    Appended(c, w.log, Drive(k, on), K2);
    Appended(c, w.log, Drive(k, on), K3);
  }

  lemma AllLowKeeps(c: Config, w: Wires)
    requires Inv(c, w)
    ensures Inv(c, AllLow(w)) && AllLow(w).pins == NONE && (FreshView(w) ==> FreshView(AllLow(w)))
  {
    DriveKeeps(c, w, K1, false);
    DriveKeeps(c, DrivePin(w, K1, false), K2, false);
    DriveKeeps(c, DrivePin(DrivePin(w, K1, false), K2, false), K3, false);
  }

  lemma RefreshKeeps(c: Config, env: Environment, w: Wires)
    requires Inv(c, w)
    ensures Inv(c, Refresh(c, env, w)) && FreshView(Refresh(c, env, w))
  {
    var e := Sample(env(w.now, w.pins).contactors);
    Appended(c, w.log, e, K1);
    Appended(c, w.log, e, K2);
    Appended(c, w.log, e, K3);
  }

  lemma {:induction false} WaitKeeps(c: Config, env: Environment, w: Wires, g: Goal, i: nat)
    requires Inv(c, w) && i <= Limit(c)
    ensures var t := Wait(c, env, w, g, i).wires;
            Inv(c, t) && t.pins == w.pins && (FreshView(w) ==> FreshView(t)) && (t != w ==> FreshView(t))
    decreases Limit(c) - i
  {
    if !Reached(g, w) {
      RefreshKeeps(c, env, w);
      if i + 1 <= Limit(c) {
        WaitKeeps(c, env, Refresh(c, env, w), g, i + 1);
      }
    }
  }

  lemma ShutdownKeeps(c: Config, env: Environment, w: Wires)
    requires Inv(c, w)
    ensures var t := Shutdown(c, env, w); Inv(c, t) && t.pins == NONE && (FreshView(w) ==> FreshView(t))
  {
    AllLowKeeps(c, w);
    WaitKeeps(c, env, AllLow(w), AllOff, 0);
  }

  /** After a release that went through, the opposite contactor may be engaged. */
  lemma ReleaseAllows(c: Config, env: Environment, w: Wires, k: Contactor)
    requires Inv(c, w) && Shows(c, w, Opposite(k)) && k != K1
    ensures var r := Release(c, env, w, Opposite(k));
            && Inv(c, r.wires) && (FreshView(w) ==> FreshView(r.wires))
            && (r.ok ==> Allowed(c, r.wires.log, Drive(k, true)))
  {
    DriveKeeps(c, w, Opposite(k), false);
    WaitKeeps(c, env, DrivePin(w, Opposite(k), false), IsOff(Opposite(k)), 0);
  }

  lemma EngageKeeps(c: Config, w: Wires, k: Contactor)
    requires Inv(c, w) && Allowed(c, w.log, Drive(k, true))
    ensures Inv(c, Engage(w, k))
  {
    DriveKeeps(c, w, k, true);
    DriveKeeps(c, DrivePin(w, k, true), K1, true);
  }

  lemma UpdateStateKeeps(c: Config, env: Environment, s: State)
    requires Inv(c, s.wires)
    ensures var t := UpdateState(c, env, s); Inv(c, t.wires) && FreshView(t.wires)
  {
    RefreshKeeps(c, env, s.wires);
    ShutdownKeeps(c, env, Refresh(c, env, s.wires));
  }

  lemma ToDeltaKeeps(c: Config, env: Environment, s: State)
    requires Inv(c, s.wires) && Shows(c, s.wires, K3)
    ensures Inv(c, StartToDelta(c, env, s).state.wires)
  {
    ReleaseAllows(c, env, s.wires, K2);
    var r := Release(c, env, s.wires, K3);
    AllLowKeeps(c, r.wires);
    if r.ok {
      EngageKeeps(c, r.wires, K2);
      UpdateStateKeeps(c, env, s.(wires := Engage(r.wires, K2)));
    }
  }

  lemma ToYKeeps(c: Config, env: Environment, s: State)
    requires Inv(c, s.wires) && Shows(c, s.wires, K2)
    ensures var t := StartToY(c, env, s).state; Inv(c, t.wires) && (FreshView(s.wires) ==> FreshView(t.wires))
  {
    ReleaseAllows(c, env, s.wires, K3);
    var r := Release(c, env, s.wires, K2);
    AllLowKeeps(c, r.wires);
    if r.ok {
      EngageKeeps(c, r.wires, K3);
      var t := s.(wires := Engage(r.wires, K3));
      UpdateStateKeeps(c, env, if t.starDelta then t.(nextStart := ToDelta, deltaTimer := c.deltaTime) else t);
    }
  }

  /** A direct start of contactor k looks neither at its opposite nor at the cached view. */
  lemma DirectKeeps(c: Config, env: Environment, s: State, k: Contactor)
    requires Inv(c, s.wires) && (k != K1 ==> Clear(c, s.wires, Opposite(k)))
    ensures Inv(c, StartDirect(c, env, s, k).state.wires)
  {
    var w := DrivePin(s.wires, k, true);
    DriveKeeps(c, s.wires, k, true);
    WaitKeeps(c, env, w, IsOn(k), 0);
    var t := s.(wires := Wait(c, env, w, IsOn(k), 0).wires);
    UpdateStateKeeps(c, env, t);
    ShutdownKeeps(c, env, t.wires);
  }

  // ----- every run -----

  /** A star-delta sequence under way is about to go to star or to delta. */
  predicate SequenceInv(s: State) {
    s.starDelta ==> s.nextStart == ToY || s.nextStart == ToDelta
  }

  lemma UpdateStateSequence(c: Config, env: Environment, s: State)
    ensures var t := UpdateState(c, env, s);
            && t.nextStart == s.nextStart && t.deltaTimer == s.deltaTimer
            && (t.starDelta ==> s.starDelta) && t.timeToShutdown == s.timeToShutdown
  {
  }

  lemma ToYSequence(c: Config, env: Environment, s: State)
    requires s.starDelta && s.nextStart == ToY
    ensures var t := StartToY(c, env, s).state; t.nextStart == ToY || t.nextStart == ToDelta
  {
    var r := Release(c, env, s.wires, K2);
    if r.ok {
      UpdateStateSequence(c, env, s.(wires := Engage(r.wires, K3), nextStart := ToDelta, deltaTimer := c.deltaTime));
    }
  }

  lemma SecondStartKeeps(c: Config, env: Environment, s: State)
    requires Inv(c, s.wires) && FreshView(s.wires) && (s.nextStart == ToY || s.nextStart == ToDelta)
    ensures Inv(c, Start(c, env, s, s.nextStart).state.wires)
  {
    if s.nextStart == ToY {
      ToYKeeps(c, env, s);
    } else {
      ToDeltaKeeps(c, env, s);
    }
  }

  lemma CheckStartRequestKeeps(c: Config, env: Environment, s: State)
    requires Inv(c, s.wires) && FreshView(s.wires) && SequenceInv(s)
    ensures var t := CheckStartRequest(c, env, s); Inv(c, t.wires) && SequenceInv(t)
  {
    if s.starDelta {
      var t := s;
      if s.nextStart == ToY {
        ToYKeeps(c, env, s);
        ToYSequence(c, env, s);
        t := StartToY(c, env, s).state;
      }
      SecondStartKeeps(c, env, t);
    }
  }

  lemma UpdateKeeps(c: Config, env: Environment, s: State)
    requires Inv(c, s.wires) && SequenceInv(s)
    ensures var t := Update(c, env, s); Inv(c, t.wires) && SequenceInv(t)
  {
    UpdateStateKeeps(c, env, s);
    CheckStartRequestKeeps(c, env, UpdateTime(UpdateState(c, env, s)));
  }

  datatype Command = Second | CommandStop | CommandStart(mode: StartType)

  function Step(c: Config, env: Environment, s: State, m: Command): State {
    match m
    case Second => Update(c, env, s)
    case CommandStop => Stop(c, env, s)
    case CommandStart(mode) => Start(c, env, s, mode).state
  }

  /** A command to star or to delta comes on a view that does not hide the opposite pin; a direct start
      of K2 or K3, which has no interlock of its own, only while the opposite contactor is clear. */
  predicate Permitted(c: Config, s: State, m: Command) {
    match m
    case CommandStart(ToY) => Shows(c, s.wires, K2)
    case CommandStart(ToDelta) => Shows(c, s.wires, K3)
    case CommandStart(DirectK2) => Clear(c, s.wires, K3)
    case CommandStart(DirectK3) => Clear(c, s.wires, K2)
    case _ => true
  }

  ghost predicate StepAt(c: Config, env: Environment, commands: seq<Command>, run: seq<State>, n: nat) {
    && n < |commands| && n + 1 < |run|
    && Permitted(c, run[n], commands[n]) && run[n + 1] == Step(c, env, run[n], commands[n])
  }

  /** The states a pump goes through from power-up under the commands. */
  ghost predicate IsRun(c: Config, env: Environment, commands: seq<Command>, run: seq<State>) {
    && |run| == |commands| + 1 && run[0] == POWER_UP
    && forall n :: 0 <= n < |commands| ==> StepAt(c, env, commands, run, n)
  }

  /** Every permitted start keeps the invariant. */
  lemma StartKeeps(c: Config, env: Environment, s: State, mode: StartType)
    requires Inv(c, s.wires) && Permitted(c, s, CommandStart(mode))
    ensures Inv(c, Start(c, env, s, mode).state.wires)
  {
    match mode
    case DirectK1 => DirectKeeps(c, env, s, K1);
    case DirectK2 => DirectKeeps(c, env, s, K2);
    case DirectK3 => DirectKeeps(c, env, s, K3);
    case ToDelta => ToDeltaKeeps(c, env, s);
    case ToY => ToYKeeps(c, env, s);
    case YDeltaRequest =>
    case Unset => UpdateStateKeeps(c, env, s);
  }

  lemma StartKeepsSequence(c: Config, env: Environment, s: State, mode: StartType)
    requires SequenceInv(s)
    ensures SequenceInv(Start(c, env, s, mode).state)
  {
    match mode
    case DirectK1 | DirectK2 | DirectK3 =>
      var k := if mode == DirectK1 then K1 else if mode == DirectK2 then K2 else K3;
      UpdateStateSequence(c, env, s.(wires := Wait(c, env, DrivePin(s.wires, k, true), IsOn(k), 0).wires));
    case ToDelta =>
      UpdateStateSequence(c, env, s.(wires := Engage(Release(c, env, s.wires, K3).wires, K2)));
    case ToY =>
      var t := s.(wires := Engage(Release(c, env, s.wires, K2).wires, K3));
      UpdateStateSequence(c, env, if t.starDelta then t.(nextStart := ToDelta, deltaTimer := c.deltaTime) else t);
    case YDeltaRequest =>
    case Unset => UpdateStateSequence(c, env, s);
  }

  lemma {:induction false} RunKeeps(c: Config, env: Environment, commands: seq<Command>, run: seq<State>, n: nat)
    requires IsRun(c, env, commands, run) && n < |run|
    ensures Inv(c, run[n].wires) && SequenceInv(run[n])
  {
    if n > 0 {
      var s := run[n - 1];
      RunKeeps(c, env, commands, run, n - 1);
      assert StepAt(c, env, commands, run, n - 1);
      match commands[n - 1]
      case Second => UpdateKeeps(c, env, s);
      case CommandStop => ShutdownKeeps(c, env, s.wires);
      case CommandStart(mode) =>
        StartKeeps(c, env, s, mode);
        StartKeepsSequence(c, env, s, mode);
    }
  }

  /** The interlock: in every run, with starts of all types that are permitted, and whatever the
      contactors report, the pins of K2 and K3 are never both high at any moment, and each goes high only
      after the last reading found the opposite contactor off (when only the pins are looked at: while
      the opposite pin is low). */
  lemma Interlock(c: Config, env: Environment, commands: seq<Command>, run: seq<State>, n: nat, m: nat)
    requires IsRun(c, env, commands, run) && n < |run|
    requires m <= |run[n].wires.log|
    ensures var log := run[n].wires.log;
            && Safe(c, log)
            && !(Level(log[..m], K2) && Level(log[..m], K3))
            && (m < |log| ==> Allowed(c, log[..m], log[m]))
            && run[n].wires.pins.k2 == Level(log, K2) && run[n].wires.pins.k3 == Level(log, K3)
  {
    RunKeeps(c, env, commands, run, n);
    var log := run[n].wires.log;
    SafeNeverBoth(c, log, m);
    if m < |log| {
      SafePrefix(c, log, m + 1);
      assert log[..m + 1][..m] == log[..m] && log[..m + 1][m] == log[m];
    }
  }

  lemma {:induction false} SafePrefix(c: Config, log: seq<Event>, m: nat)
    requires Safe(c, log) && m <= |log|
    ensures Safe(c, log[..m])
  {
    if m == |log| {
      assert log[..m] == log;
    } else {
      var prefix := log[..|log| - 1];
      SafePrefix(c, prefix, m);
      assert prefix[..m] == log[..m];
    }
  }

  // ----- the condition on external starts is exact -----

  lemma {:induction false} WaitGrows(c: Config, env: Environment, w: Wires, g: Goal, i: nat)
    requires i <= Limit(c)
    ensures w.log <= Wait(c, env, w, g, i).wires.log
    decreases Limit(c) - i
  {
    if !Reached(g, w) && i + 1 <= Limit(c) {
      WaitGrows(c, env, Refresh(c, env, w), g, i + 1);
    }
  }

  lemma UpdateStateGrows(c: Config, env: Environment, s: State)
    ensures s.wires.log <= UpdateState(c, env, s).wires.log
  {
    WaitGrows(c, env, AllLow(Refresh(c, env, s.wires)), AllOff, 0);
  }

  /** A view that hides the opposite pin makes the start drive both pins high (or, before the first
      reading, drive one without having looked). */
  lemma HiddenPinUnsafe(c: Config, env: Environment, s: State, mode: StartType)
    requires Inv(c, s.wires) && (mode == ToY || mode == ToDelta)
    requires !Shows(c, s.wires, if mode == ToY then K2 else K3)
    ensures !Safe(c, Start(c, env, s, mode).state.wires.log)
  {
    var k := if mode == ToY then K3 else K2;
    var w := s.wires;
    var driven := w.log + [Drive(k, true)];
    Appended(c, w.log, Drive(k, true), k);
    assert !Allowed(c, w.log, Drive(k, true));
    var t := s.(wires := Engage(w, k));
    var u := if mode == ToY && t.starDelta then t.(nextStart := ToDelta, deltaTimer := c.deltaTime) else t;
    UpdateStateGrows(c, env, u);
    var log := Start(c, env, s, mode).state.wires.log;
    assert driven <= log && log[..|driven|] == driven;
    if Safe(c, log) {
      SafePrefix(c, log, |driven|);
    }
  }

  /** A direct start while the opposite contactor is not clear is unsafe; with the opposite pin high it
      drives both pins high. */
  lemma NotClearUnsafe(c: Config, env: Environment, s: State, k: Contactor)
    requires Inv(c, s.wires) && k != K1 && !Clear(c, s.wires, Opposite(k))
    ensures !Safe(c, StartDirect(c, env, s, k).state.wires.log)
    ensures var log := StartDirect(c, env, s, k).state.wires.log;
            var m := |s.wires.log| + 1;
            Get(s.wires.pins, Opposite(k)) ==> m <= |log| && (Level(log[..m], K2), Level(log[..m], K3)) == (true, true)
  {
    var w := DrivePin(s.wires, k, true);
    Appended(c, s.wires.log, Drive(k, true), K2);
    Appended(c, s.wires.log, Drive(k, true), K3);
    assert !Allowed(c, s.wires.log, Drive(k, true));
    WaitGrows(c, env, w, IsOn(k), 0);
    var t := s.(wires := Wait(c, env, w, IsOn(k), 0).wires);
    UpdateStateGrows(c, env, t);
    WaitGrows(c, env, AllLow(t.wires), AllOff, 0);
    var log := StartDirect(c, env, s, k).state.wires.log;
    assert w.log <= log && log[..|w.log|] == w.log;
    if Safe(c, log) {
      SafePrefix(c, log, |w.log|);
    }
  }

  /** In any reachable state a start of any type keeps the interlock exactly when it is permitted. */
  lemma ExternalStartSafeIff(c: Config, env: Environment, s: State, mode: StartType)
    requires Inv(c, s.wires)
    ensures Safe(c, Start(c, env, s, mode).state.wires.log) <==> Permitted(c, s, CommandStart(mode))
  {
    if Permitted(c, s, CommandStart(mode)) {
      StartKeeps(c, env, s, mode);
    } else {
      match mode
      case DirectK2 => NotClearUnsafe(c, env, s, K2);
      case DirectK3 => NotClearUnsafe(c, env, s, K3);
      case _ => HiddenPinUnsafe(c, env, s, mode);
    }
  }

  // ----- a thermal trip -----

  /** The relay closed for one second only: the motor of an idle pump is not idle in that second, and
      idle again in the next one. */
  lemma TripForOneSecond(c: Config, env: Environment, s: State)
    requires s.motor == OffIdle && s.wires.pins == NONE && !s.starDelta
    requires env(s.wires.now, NONE) == Inputs(NONE, true) && env(s.wires.now + 1, NONE) == Inputs(NONE, false)
    ensures var t := Update(c, env, s);
            && t.motor == OffThermal && t.wires.pins == NONE && !t.starDelta
            && Update(c, env, t).motor == OffIdle && Update(c, env, t).wires.pins == NONE
  {
    var t := Update(c, env, s);
    assert t.wires.now == s.wires.now + 1;
  }

  lemma {:induction false} WaitPins(c: Config, env: Environment, w: Wires, g: Goal, i: nat)
    requires i <= Limit(c)
    ensures Wait(c, env, w, g, i).wires.pins == w.pins
    decreases Limit(c) - i
  {
    if !Reached(g, w) && i + 1 <= Limit(c) {
      WaitPins(c, env, Refresh(c, env, w), g, i + 1);
    }
  }

  /** A start that fails leaves every output low. */
  lemma FailedStartIsLow(c: Config, env: Environment, s: State, mode: StartType)
    requires Start(c, env, s, mode).code != 0
    ensures Start(c, env, s, mode).state.wires.pins == NONE
  {
    match mode
    case DirectK1 => WaitPins(c, env, AllLow(Wait(c, env, DrivePin(s.wires, K1, true), IsOn(K1), 0).wires), AllOff, 0);
    case DirectK2 => WaitPins(c, env, AllLow(Wait(c, env, DrivePin(s.wires, K2, true), IsOn(K2), 0).wires), AllOff, 0);
    case DirectK3 => WaitPins(c, env, AllLow(Wait(c, env, DrivePin(s.wires, K3, true), IsOn(K3), 0).wires), AllOff, 0);
    case _ =>
  }

  // ----- one reading of the contactors and what follows from it -----

  /** What the next reading finds on; only the pins are looked at if so configured. */
  function Reading(c: Config, env: Environment, s: State): Three {
    if c.pinOnly then s.wires.pins else env(s.wires.now, s.wires.pins).contactors
  }

  /** The next reading finds the thermal relay newly closed. */
  predicate Trips(env: Environment, s: State) {
    env(s.wires.now, s.wires.pins).rth && s.motor != OffThermal
  }

  /** All contactors are off, without a new trip, though K1 or K2 is driven high. */
  predicate DropsOut(c: Config, env: Environment, s: State) {
    !Trips(env, s) && Reading(c, env, s) == NONE && (s.wires.pins.k1 || s.wires.pins.k2)
  }

  /** Each state of the motor by the contactors read. */
  predicate MotorIs(m: Motor, k: Three, trips: bool) {
    match m
    case OffThermal => trips
    case OffIdle => !trips && !k.k1 && !k.k2 && !k.k3
    case OnK1 => !trips && k.k1 && !k.k2 && !k.k3
    case OnK2 => !trips && !k.k1 && k.k2 && !k.k3
    case OnSpeedingUp => !trips && k.k1 && !k.k2 && k.k3
    case OnDelta => !trips && k.k1 && k.k2 && !k.k3
    case OffK3ShortCircuit => !trips && !k.k1 && k.k3
    case Undefined => !trips && k.k1 && k.k2 && k.k3
  }

  /** Outputs low and no start-up sequence. */
  predicate Shut(s: State) {
    s.wires.pins == NONE && !s.starDelta
  }

  lemma StopShuts(c: Config, env: Environment, s: State)
    ensures Shut(Stop(c, env, s))
    ensures Stop(c, env, s).counters == Counters(s.counters.on, 0, c.waitTime, true)
  {
    WaitPins(c, env, AllLow(s.wires), AllOff, 0);
  }

  /** A reading makes the motor state; a pump whose contactors have dropped out is stopped, and otherwise the
      outputs are left as they are and the view is what was read. */
  lemma StateByReading(c: Config, env: Environment, s: State)
    ensures var t := UpdateState(c, env, s);
            && MotorIs(t.motor, Reading(c, env, s), Trips(env, s))
            && t == s.(wires := t.wires, motor := t.motor, starDelta := t.starDelta, counters := t.counters)
            && if DropsOut(c, env, s) then Shut(t)
               else
                 && t == s.(wires := t.wires, motor := t.motor) && t.wires.pins == t.wires.seen == s.wires.pins
                 && t.wires.state == Reading(c, env, s)
                 && t.wires.rth == env(s.wires.now, s.wires.pins).rth && t.wires.now == s.wires.now + 1
  {
    StopShuts(c, env, s.(wires := Refresh(c, env, s.wires)));
  }

  /** In the second that finds the contactors dropped out the pump is commanded off, and stays so. */
  lemma DropOutStops(c: Config, env: Environment, s: State)
    requires DropsOut(c, env, s)
    ensures Shut(Update(c, env, s)) && Update(c, env, s).motor == OffIdle
  {
    StateByReading(c, env, s);
  }

  /** A second on takes one off the time left and is counted; a second off is counted as such. */
  lemma TimeLaw(s: State)
    ensures var t := UpdateTime(s);
            var on := s.motor in {OnK1, OnK2, OnDelta, OnSpeedingUp};
            var waits := s.counters.checkWait && s.counters.wait > 0;
            t == s.(timeToShutdown := if on && s.timeToShutdown > 0 then s.timeToShutdown - 1 else s.timeToShutdown,
                    counters := Counters(if on then (s.counters.on + 1) % WORD32 else s.counters.on,
                                         if on then s.counters.off else (s.counters.off + 1) % WORD32,
                                         if waits then s.counters.wait - 1 else s.counters.wait, waits))
  {
  }

  // ----- when a start goes through -----

  /** Reading number m, with the pins as given, finds what is waited for. */
  predicate Finds(c: Config, env: Environment, pins: Three, m: nat, g: Goal) {
    var k := if c.pinOnly then pins else env(m, pins).contactors;
    match g
    case IsOn(K1) => k.k1
    case IsOn(K2) => k.k2
    case IsOn(K3) => k.k3
    case IsOff(K1) => !k.k1 && !pins.k1
    case IsOff(K2) => !k.k2 && !pins.k2
    case IsOff(K3) => !k.k3 && !pins.k3
    case AllOff => !k.k1 && !k.k2 && !k.k3
  }

  /** A wait takes readings until one finds what is waited for; it fails when none of those it looks at does,
      and has made one more by then. */
  lemma {:induction false} WaitIff(c: Config, env: Environment, w: Wires, g: Goal, i: nat)
    requires i <= Limit(c) && !Reached(g, w)
    ensures var r := Wait(c, env, w, g, i);
            && (|| (r.ok && w.now < r.wires.now <= w.now + Limit(c) - i && Finds(c, env, w.pins, r.wires.now - 1, g))
                || (!r.ok && r.wires.now == w.now + Limit(c) - i + 1))
            && forall m :: w.now <= m < r.wires.now - 1 ==> !Finds(c, env, w.pins, m, g)
    decreases Limit(c) - i
  {
    var t := Refresh(c, env, w);
    assert Reached(g, t) <==> Finds(c, env, w.pins, w.now, g);
    if i < Limit(c) {
      if Reached(g, t) {
        assert Wait(c, env, t, g, i + 1) == Waited(t, true, i + 1);
      } else {
        WaitIff(c, env, t, g, i + 1);
      }
    }
  }

  /** One of 1000 readings for every millisecond of the switch time finds what is waited for. */
  ghost predicate FoundInTime(c: Config, env: Environment, pins: Three, from: nat, g: Goal) {
    exists m :: from <= m < from + c.switchTime * 1000 && Finds(c, env, pins, m, g)
  }

  lemma WaitInTime(c: Config, env: Environment, w: Wires, g: Goal)
    ensures Wait(c, env, w, g, 0).ok <==> Reached(g, w) || FoundInTime(c, env, w.pins, w.now, g)
  {
    if !Reached(g, w) {
      WaitIff(c, env, w, g, 0);
    }
  }

  /** A stop goes on reading until no contactor is found on, or the switch time is over; it makes no reading
      when the cached view shows none on. */
  lemma StopWaits(c: Config, env: Environment, s: State)
    ensures var t := Stop(c, env, s).wires;
            && (|| (s.wires.state == NONE && t.now == s.wires.now)
                || (s.wires.state != NONE && t.now == s.wires.now + c.switchTime * 1000 + 1)
                || (s.wires.state != NONE && s.wires.now < t.now <= s.wires.now + c.switchTime * 1000 &&
                    Finds(c, env, NONE, t.now - 1, AllOff)))
            && forall m :: s.wires.now <= m < t.now - 1 ==> !Finds(c, env, NONE, m, AllOff)
  {
    if s.wires.state != NONE {
      WaitIff(c, env, AllLow(s.wires), AllOff, 0);
    }
  }

  /** The contactor shows on in the cached view, or is found on in time with its pin high. */
  ghost predicate ComesOn(c: Config, env: Environment, w: Wires, k: Contactor) {
    Get(w.state, k) || FoundInTime(c, env, Put(w.pins, k, true), w.now, IsOn(k))
  }

  /** Neither pin nor contactor shows in the cached view, or the contactor is found off in time with its pin low. */
  ghost predicate GoesOff(c: Config, env: Environment, w: Wires, k: Contactor) {
    (!Get(w.state, k) && !Get(w.seen, k)) || FoundInTime(c, env, Put(w.pins, k, false), w.now, IsOff(k))
  }

  /** A direct start returns 0 exactly when the contactor comes on, and sets the timer then; otherwise it
      returns 1 and leaves the pump off. */
  lemma DirectIff(c: Config, env: Environment, s: State, k: Contactor)
    ensures var r := StartDirect(c, env, s, k);
            || (ComesOn(c, env, s.wires, k) &&
                (r.code, r.state.timeToShutdown, r.state.counters.on) == (0, c.shutdownTime, 0))
            || (!ComesOn(c, env, s.wires, k) && r.code == 1 && Shut(r.state))
  {
    var w := DrivePin(s.wires, k, true);
    WaitInTime(c, env, w, IsOn(k));
    StopShuts(c, env, s.(wires := Wait(c, env, w, IsOn(k), 0).wires));
  }

  /** The view need not be right: when it still shows the contactor on, the start goes through without a
      reading, and the reading at its end that finds everything off stops the pump, with code 0 all the same. */
  lemma StaleViewStarts(c: Config, env: Environment, s: State, k: Contactor)
    requires !c.pinOnly && k != K3 && Get(s.wires.state, k)
    requires env(s.wires.now, Put(s.wires.pins, k, true)) == Inputs(NONE, false)
    ensures var r := StartDirect(c, env, s, k); r.code == 0 && Shut(r.state) && r.state.motor == OffIdle
  {
    StateByReading(c, env, s.(wires := DrivePin(s.wires, k, true)));
  }

  /** A change to star or to delta returns 0 exactly when the opposite contactor goes off; otherwise it
      returns 1 with all outputs low. */
  lemma SwitchOverIff(c: Config, env: Environment, s: State, mode: StartType)
    requires mode == ToY || mode == ToDelta
    ensures var r := Start(c, env, s, mode);
            var goesOff := GoesOff(c, env, s.wires, if mode == ToY then K2 else K3);
            || (goesOff && r.code == 0)
            || (!goesOff && r == Started(s.(wires := r.state.wires), 1) && r.state.wires.pins == NONE)
  {
    var k := if mode == ToY then K2 else K3;
    WaitInTime(c, env, DrivePin(s.wires, k, false), IsOff(k));
  }

  /** A change to star or to delta that goes through and ends with a reading sets the timer, or with the
      outputs it has switched over; star sets up the change to delta. */
  lemma SwitchOverSets(c: Config, env: Environment, s: State, mode: StartType)
    requires (mode == ToY || mode == ToDelta) && Start(c, env, s, mode).code == 0
    ensures var t := Start(c, env, s, mode).state;
            || (mode == ToDelta && s.starDelta && t == s.(wires := t.wires) && t.wires.pins.k2 &&
                (Get(s.wires.seen, K3) ==> !t.wires.pins.k3))
            || ((mode == ToY || !s.starDelta) && (t.timeToShutdown, t.counters.on) == (c.shutdownTime, 0) &&
                (mode == ToY && s.starDelta ==> (t.nextStart, t.deltaTimer) == (ToDelta, c.deltaTime)))
  {
    WaitPins(c, env, DrivePin(s.wires, K3, false), IsOff(K3), 0);
  }

  /** The star-delta sequence with any contactors: it waits in star for its timer; the change to delta ends it,
      done or given up; and a change to star whose opposite contactor does not go off is tried again. */
  lemma SequenceStep(c: Config, env: Environment, s: State)
    requires SequenceInv(s)
    ensures var t := CheckStartRequest(c, env, s);
            || (!s.starDelta && t == s)
            || (s.nextStart == ToDelta && s.deltaTimer > 0 && t == s.(deltaTimer := s.deltaTimer - 1))
            || (s.nextStart == ToDelta && s.deltaTimer == 0 && !t.starDelta &&
                if GoesOff(c, env, s.wires, K3) then t.wires.pins.k2 && (Get(s.wires.seen, K3) ==> !t.wires.pins.k3)
                else t.wires.pins == NONE)
            || (s.nextStart == ToY && GoesOff(c, env, s.wires, K2) &&
                (c.deltaTime > 0 ==> (t.nextStart, t.deltaTimer, t.timeToShutdown) ==
                                     (ToDelta, c.deltaTime - 1, c.shutdownTime)))
            || (s.nextStart == ToY && !GoesOff(c, env, s.wires, K2) &&
                if s.deltaTimer == 0 then !t.starDelta
                else t == s.(wires := t.wires, deltaTimer := s.deltaTimer - 1) && t.wires.pins == NONE)
  {
    if s.starDelta {
      var mode := s.nextStart;
      SwitchOverIff(c, env, s, mode);
      if Start(c, env, s, mode).code == 0 {
        SwitchOverSets(c, env, s, mode);
      }
    }
  }
}
