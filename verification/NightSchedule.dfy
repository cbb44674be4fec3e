/** The nightly schedule of the optimized mode (main/acionna/acionna.cpp:1890-1977, 2435-2446): which
    second of the day a pump start is issued in, whatever the motor does. */
module NightSchedule {
  import opened Options
  import opened Words

  const DAY := 86400
  const MAX_EVENTS := 9

  /** Settings; times of day in seconds.  `cycles` holds cycles_n of each event. */
  datatype Config = Config(timeStart: nat, timeRed: nat, delay: nat, eventN: nat, cycles: seq<int>)

  ghost predicate ValidConfig(c: Config) {
    c.eventN <= |c.cycles| == MAX_EVENTS
  }

  /** Red time ends the night; it lies before the start time of the next one. */
  predicate Night(c: Config) {
    60 <= c.timeRed < c.timeStart < DAY
  }

  datatype State = State(time: nat, next: nat, nextConfig: bool, event: nat, cycle: nat, running: bool)

  /** What the motor shows in one call: is it idle at the beginning, and after a start in the call. */
  datatype Motor = Motor(idle: bool, idleAfterStart: bool)

  /** The outcome of a call: the new state, the event whose start was issued, the event whose
      shutdown time was set, and whether the pump was stopped. */
  datatype Outcome = Outcome(state: State, start: Option<nat>, cycled: Option<nat>, stopped: bool)

  /** The do-while: the next event with cycles left, from the current position on. */
  function Pick(c: Config, s: State): (r: (State, Option<nat>))
    requires ValidConfig(c)
    ensures r.1.Some? ==> r.1.value < c.eventN
    decreases c.eventN - s.event
  {
    if s.event >= c.eventN then (s.(running := false), None)
    else if s.cycle < c.cycles[s.event] then
      (s.(nextConfig := true, cycle := s.cycle + 1), Some(s.event))
    else
      var t := s.(event := s.event + 1, cycle := 0);
      if t.event < c.eventN && !t.nextConfig then Pick(c, t) else (t, None)
  }

  predicate Matches(c: Config, s: State, m: Motor) {
    s.time == c.timeStart || (s.time == s.next && m.idle)
  }

  function Restart(c: Config, s: State): State {
    if s.time == c.timeStart then s.(event := 0, cycle := 0, running := true) else s
  }

  /** Remember when to start again, once the motor has gone idle (acionna.cpp:1950-1959). */
  function PlanNext(c: Config, s: State, idle: bool): State {
    if s.nextConfig && idle then s.(nextConfig := false, next := (s.time + c.delay) % WORD32) else s
  }

  /** The beginning of red time (acionna.cpp:1962-1975). */
  function EnterRed(c: Config, s: State, idle: bool): State {
    if s.time != c.timeRed then s
    else if !idle then s.(nextConfig := false)
    else if s.next >= c.timeRed then s.(next := (s.time - 60) % WORD32) else s
  }

  /** operation_pump_start_match_optimized */
  function Call(c: Config, s: State, m: Motor): (o: Outcome)
    requires ValidConfig(c)
  {
    var r := Restart(c, s);
    var p := if Matches(c, s, m) then Pick(c, r) else (r, None);
    var started := p.1.Some? && m.idle;
    var idle := if started then m.idleAfterStart else m.idle;
    Outcome(EnterRed(c, PlanNext(c, p.0, idle), idle),
            if started then p.1 else None, p.1, s.time == c.timeRed && !idle)
  }

  /** update_clock */
  function Clock(s: State): State {
    s.(time := if s.time + 1 == DAY then 0 else s.time + 1)
  }

  /** One second in optimized mode. */
  function Second(c: Config, s: State, m: Motor): Outcome
    requires ValidConfig(c)
  {
    Call(c, Clock(s), m)
  }

  // ----- what a second does, from its inputs -----

  /** The second of the day that comes with this call. */
  function Now(s: State): nat {
    if s.time + 1 == DAY then 0 else s.time + 1
  }

  /** It is the start time, or the planned time and the motor is idle. */
  predicate Due(c: Config, s: State, m: Motor) {
    Now(s) == c.timeStart || (Now(s) == s.next && m.idle)
  }

  /** The position the search for an event begins at: at the start time the first event, with no cycle done. */
  function From(c: Config, s: State): (nat, nat) {
    if Now(s) == c.timeStart then (0, 0) else (s.event, s.cycle)
  }

  /** Event e has cycles left when `done` of them are done, and no event of the position before it has. */
  ghost predicate NextEvent(c: Config, from: (nat, nat), e: nat) {
    && ValidConfig(c) && from.0 <= e < c.eventN
    && (if e == from.0 then from.1 else 0) < c.cycles[e]
    && forall j :: from.0 <= j < e ==> c.cycles[j] <= if j == from.0 then from.1 else 0
  }

  lemma {:induction false} PickIs(c: Config, s: State, e: nat)
    requires ValidConfig(c)
    ensures var r := Pick(c, s);
            && (r.1 == Some(e) <==> NextEvent(c, (s.event, s.cycle), e) && (s.nextConfig ==> e == s.event))
            && (r.1 == Some(e) ==>
                  r.0 == s.(nextConfig := true, event := e, cycle := 1 + if e == s.event then s.cycle else 0))
    decreases c.eventN - s.event
  {
    if s.event < c.eventN && s.cycle >= c.cycles[s.event] {
      PickIs(c, s.(event := s.event + 1, cycle := 0), e);
    }
  }

  lemma {:induction false} PickIsNone(c: Config, s: State)
    requires ValidConfig(c)
    ensures var r := Pick(c, s);
            r.1 == None ==>
              r.0 == if s.event >= c.eventN then s.(running := false)
                     else s.(event := if s.nextConfig then s.event + 1 else c.eventN, cycle := 0)
    decreases c.eventN - s.event
  {
    if s.event < c.eventN && s.cycle >= c.cycles[s.event] {
      PickIsNone(c, s.(event := s.event + 1, cycle := 0));
    }
  }

  /** A cycle of event e is counted exactly at the start time, or at the planned time with the motor idle, if e
      is the next event with cycles left (only the event under way counts while a plan is still to be made). */
  lemma CycleIff(c: Config, s: State, m: Motor, e: nat)
    requires ValidConfig(c)
    ensures Second(c, s, m).cycled == Some(e) <==>
            Due(c, s, m) && NextEvent(c, From(c, s), e) && (s.nextConfig ==> e == From(c, s).0)
  {
    PickIs(c, Restart(c, Clock(s)), e);
  }

  /** A start is issued exactly when a cycle is counted and the motor is idle. */
  lemma StartIff(c: Config, s: State, m: Motor, e: nat)
    requires ValidConfig(c)
    ensures Second(c, s, m).start == Some(e) <==>
            && m.idle && (Now(s) == c.timeStart || Now(s) == s.next)
            && NextEvent(c, From(c, s), e) && (s.nextConfig ==> e == From(c, s).0)
  {
    CycleIff(c, s, m, e);
  }

  /** The position moves to the event counted, one cycle on; past the end when there is none left. */
  lemma PositionLaw(c: Config, s: State, m: Motor)
    requires ValidConfig(c)
    ensures var o := Second(c, s, m);
            var (event, cycle) := From(c, s);
            (o.state.time, (o.state.event, o.state.cycle)) ==
            (Now(s), if !Due(c, s, m) then (s.event, s.cycle)
                     else if o.cycled.Some? then (o.cycled.value, 1 + if o.cycled.value == event then cycle else 0)
                     else if event >= c.eventN then (event, cycle)
                     else (if s.nextConfig then event + 1 else c.eventN, 0))
  {
    var r := Restart(c, Clock(s));
    PickIsNone(c, r);
    if Pick(c, r).1.Some? {
      PickIs(c, r, Pick(c, r).1.value);
    }
  }

  /** The night is over once a call finds no event at the position; it begins at the start time. */
  lemma RunningLaw(c: Config, s: State, m: Motor)
    requires ValidConfig(c)
    ensures Second(c, s, m).state.running <==>
            (Now(s) == c.timeStart || s.running) && !(Due(c, s, m) && From(c, s).0 >= c.eventN)
  {
    var r := Restart(c, Clock(s));
    PickIsNone(c, r);
    if Pick(c, r).1.Some? {
      PickIs(c, r, Pick(c, r).1.value);
    }
  }

  /** What is planned: a cycle counted asks for a plan, made as soon as the motor is idle, for `delay` seconds
      later.  The second of red time stops a motor that is not idle, and takes back what is asked for; with the
      motor idle it puts a plan for later a minute into the past. */
  lemma PlanLaw(c: Config, s: State, m: Motor)
    requires ValidConfig(c)
    ensures var o := Second(c, s, m);
            var idle := if o.start.Some? then m.idleAfterStart else m.idle;
            var asked := s.nextConfig || o.cycled.Some?;
            var planned := if asked && idle then (Now(s) + c.delay) % WORD32 else s.next;
            (o.start, o.stopped, o.state.nextConfig, o.state.next) ==
            (if m.idle then o.cycled else None,
             Now(s) == c.timeRed && !idle,
             asked && !idle && Now(s) != c.timeRed,
             if Now(s) == c.timeRed && idle && planned >= c.timeRed then (Now(s) - 60) % WORD32 else planned)
  {
    var r := Restart(c, Clock(s));
    PickKeepsPlan(c, r);
    PickIsNone(c, r);
    if Pick(c, r).1.Some? {
      PickIs(c, r, Pick(c, r).1.value);
    }
  }

  // ----- runs -----

  ghost predicate StepAt(c: Config, motors: seq<Motor>, run: seq<State>, n: nat) {
    ValidConfig(c) && n < |motors| && n + 1 < |run| && run[n + 1] == Second(c, run[n], motors[n]).state
  }

  ghost predicate IsRun(c: Config, motors: seq<Motor>, run: seq<State>) {
    && ValidConfig(c) && |run| == |motors| + 1
    && forall n :: 0 <= n < |motors| ==> StepAt(c, motors, run, n)
  }

  predicate Fresh(s: State) {
    s.time < DAY && s.next == 0 && !s.nextConfig
  }

  // ----- no start in red time -----

  predicate InRed(c: Config, t: nat) {
    c.timeRed < t < c.timeStart
  }

  /** Some event from the current position on has cycles left. */
  ghost predicate HasWork(c: Config, s: State) {
    ValidConfig(c) && exists e :: s.event <= e < c.eventN && (if e == s.event then s.cycle else 0) < c.cycles[e]
  }

  /** The second of red time finds the motor idle, or no start planned in red time, or no work left. */
  ghost predicate CleanAt(c: Config, s: State, m: Motor) {
    Clock(s).time == c.timeRed ==> m.idle || !InRed(c, s.next) || !HasWork(c, s)
  }

  /** Nothing is planned in red time that could be started. */
  ghost predicate NoPlan(c: Config, s: State) {
    (!s.nextConfig && !InRed(c, s.next)) || (!s.nextConfig && !HasWork(c, s))
  }

  /** From red time to the start time there is no such plan. */
  ghost predicate Quiet(c: Config, s: State) {
    || (s.time < DAY && !(c.timeRed <= s.time < c.timeStart))
    || (s.time < DAY && NoPlan(c, s))
  }

  lemma PickKeepsPlan(c: Config, s: State)
    requires ValidConfig(c)
    ensures Pick(c, s).0.next == s.next && Pick(c, s).0.time == s.time
    decreases c.eventN - s.event
  {
  }

  lemma {:induction false} PickFindsWork(c: Config, s: State)
    requires ValidConfig(c) && !s.nextConfig
    ensures Pick(c, s).1.Some? <==> HasWork(c, s)
    decreases c.eventN - s.event
  {
    if s.event < c.eventN && s.cycle >= c.cycles[s.event] {
      var t := s.(event := s.event + 1, cycle := 0);
      PickFindsWork(c, t);
      if HasWork(c, s) {
        var e :| s.event <= e < c.eventN && (if e == s.event then s.cycle else 0) < c.cycles[e];
        assert t.event <= e < c.eventN;
      }
      if HasWork(c, t) {
        var e :| t.event <= e < c.eventN && (if e == t.event then t.cycle else 0) < c.cycles[e];
        assert s.event <= e < c.eventN && (if e == s.event then s.cycle else 0) < c.cycles[e];
      }
    }
  }

  /** A second inside red time without a plan: no start, and no plan after it. */
  lemma StaysWithoutPlan(c: Config, s: State, m: Motor)
    requires ValidConfig(c) && Night(c) && c.timeRed <= s.time && s.time + 1 < c.timeStart && NoPlan(c, s)
    ensures var o := Second(c, s, m);
            (o.start, o.state.time, o.state.next) == (None, s.time + 1, s.next) && NoPlan(c, o.state)
  {
    var t := Clock(s);
    PickFindsWork(c, t);
    PickIsNone(c, t);
  }

  /** The second of red time: afterwards a start is planned in the window only if one was before, the
      motor is not idle, and there is work. */
  lemma RedSecond(c: Config, s: State, m: Motor)
    requires ValidConfig(c) && Night(c) && Clock(s).time == c.timeRed
    ensures var o := Second(c, s, m);
            && o.state.time == c.timeRed && !o.state.nextConfig
            && (NoPlan(c, o.state) <==> m.idle || !InRed(c, s.next) || !HasWork(c, s))
            && (InRed(c, s.next) && !m.idle ==> o.state == Clock(s).(nextConfig := false))
  {
    PickKeepsPlan(c, Restart(c, Clock(s)));
    if InRed(c, s.next) && !m.idle {
      var t := Second(c, s, m).state;
      assert t.event == s.event && t.cycle == s.cycle;
      assert HasWork(c, t) <==> HasWork(c, s);
    }
  }

  lemma QuietStep(c: Config, s: State, m: Motor)
    requires ValidConfig(c) && Night(c) && Quiet(c, s) && CleanAt(c, s, m)
    ensures Quiet(c, Second(c, s, m).state)
    ensures InRed(c, Clock(s).time) ==> Second(c, s, m).start == None
  {
    PickKeepsPlan(c, Restart(c, Clock(s)));
    if Clock(s).time == c.timeRed {
      RedSecond(c, s, m);
    } else if InRed(c, Clock(s).time) {
      StaysWithoutPlan(c, s, m);
    }
  }

  /** With the second of red time clean every day, no run issues a start strictly between red time and
      start time. */
  lemma {:induction false} NoStartInRed(c: Config, motors: seq<Motor>, run: seq<State>, n: nat)
    requires IsRun(c, motors, run) && Night(c) && Fresh(run[0])
    requires n < |motors| && forall k :: 0 <= k <= n ==> CleanAt(c, run[k], motors[k])
    ensures Quiet(c, run[n])
    ensures InRed(c, run[n + 1].time) ==> Second(c, run[n], motors[n]).start == None
  {
    assert StepAt(c, motors, run, n);
    if n > 0 {
      NoStartInRed(c, motors, run, n - 1);
      assert StepAt(c, motors, run, n - 1) && CleanAt(c, run[n - 1], motors[n - 1]);
      QuietStep(c, run[n - 1], motors[n - 1]);
    }
    assert CleanAt(c, run[n], motors[n]);
    QuietStep(c, run[n], motors[n]);
    PickKeepsPlan(c, Restart(c, Clock(run[n])));
  }

  // ----- the condition is exact -----

  /** A clock that shows `time` shows t within the next n seconds. */
  predicate Reaches(time: nat, n: nat, t: nat) {
    time < t <= time + n
  }

  /** While no match is due and nothing is to be planned, nothing changes but the clock. */
  lemma {:induction false} OnlyClock(c: Config, motors: seq<Motor>, run: seq<State>, a: nat, n: nat)
    requires IsRun(c, motors, run) && a + n < |run|
    requires !run[a].nextConfig && run[a].time + n < DAY
    requires !Reaches(run[a].time, n, c.timeStart) && !Reaches(run[a].time, n, c.timeRed)
    requires !Reaches(run[a].time, n, run[a].next)
    ensures run[a + n] == run[a].(time := run[a].time + n)
  {
    if n > 0 {
      OnlyClock(c, motors, run, a, n - 1);
      assert StepAt(c, motors, run, a + n - 1);
    }
  }

  /** Whatever the motor does, no start is issued in the rest of the window that begins with state s. */
  ghost predicate WindowQuiet(c: Config, s: State) {
    forall motors: seq<Motor>, run: seq<State>, n: nat ::
      IsRun(c, motors, run) && run[0] == s && n < |motors| && InRed(c, c.timeRed + n + 1) ==>
        Second(c, run[n], motors[n]).start == None
  }

  /** After the call at red time, the rest of the window stays without a start exactly if no start is
      planned in it or no cycle is left. */
  lemma RedWindowQuietIff(c: Config, s: State)
    requires ValidConfig(c) && Night(c) && s.time == c.timeRed && !s.nextConfig
    ensures WindowQuiet(c, s) <==> !InRed(c, s.next) || !HasWork(c, s)
  {
    if !InRed(c, s.next) || !HasWork(c, s) {
      forall motors: seq<Motor>, run: seq<State>, n: nat
        | IsRun(c, motors, run) && run[0] == s && n < |motors| && InRed(c, c.timeRed + n + 1)
        ensures Second(c, run[n], motors[n]).start == None
      {
        NoPlanNoStart(c, motors, run, n);
      }
    } else {
      var motors := seq(s.next - c.timeRed, _ => Motor(true, true));
      var run := RunOf(c, s, motors);
      RunOfIsRun(c, s, motors);
      var n := s.next - c.timeRed - 1;
      OnlyClock(c, motors, run, 0, n);
      PickFindsWork(c, Clock(run[n]));
      assert Second(c, run[n], motors[n]).start != None;
    }
  }

  /** The window after red time stays without a start, whatever the motor does in it, exactly if in the
      second of red time the motor is idle, or no start is planned in the window, or no cycle is left:
      the branch for a motor that is not idle (acionna.cpp:1963-1967) does not withdraw the plan. */
  lemma RedTimeQuietIff(c: Config, s: State, m: Motor)
    requires ValidConfig(c) && Night(c) && Clock(s).time == c.timeRed
    ensures WindowQuiet(c, Second(c, s, m).state) <==> m.idle || !InRed(c, s.next) || !HasWork(c, s)
  {
    RedSecond(c, s, m);
    RedWindowQuietIff(c, Second(c, s, m).state);
  }

  /** The states the given motor behaviour leads through. */
  function RunOf(c: Config, s: State, motors: seq<Motor>): (run: seq<State>)
    requires ValidConfig(c)
    ensures |run| == |motors| + 1
  {
    if motors == [] then [s]
    else
      var n := |motors| - 1;
      var run := RunOf(c, s, motors[..n]);
      run + [Second(c, run[n], motors[n]).state]
  }

  lemma {:induction false} RunOfIsRun(c: Config, s: State, motors: seq<Motor>)
    requires ValidConfig(c)
    ensures IsRun(c, motors, RunOf(c, s, motors)) && RunOf(c, s, motors)[0] == s
  {
    if motors != [] {
      var n := |motors| - 1;
      var before := RunOf(c, s, motors[..n]);
      RunOfIsRun(c, s, motors[..n]);
      forall k | 0 <= k < n ensures StepAt(c, motors, RunOf(c, s, motors), k) {
        assert StepAt(c, motors[..n], before, k);
      }
    }
  }

  const TRIP := Config(77460, 60, 100, 1, [2, 0, 0, 0, 0, 0, 0, 0, 0])

  function TripMotors(): seq<Motor> {
    seq(102, k => Motor(k != 60, k != 0))
  }

  lemma TripBeforeRed(run: seq<State>)
    requires IsRun(TRIP, TripMotors(), run) && run[0] == State(DAY - 1, 0, false, 0, 0, false)
    ensures run[60] == State(59, 101, false, 0, 1, false)
  {
    var motors := TripMotors();
    assert StepAt(TRIP, motors, run, 0) && run[1] == State(0, 0, true, 0, 1, false);
    assert StepAt(TRIP, motors, run, 1) && run[2] == State(1, 101, false, 0, 1, false);
    OnlyClock(TRIP, motors, run, 2, 58);
  }

  /** The clean second is needed: with red time at 00:01:00 and a delay of 100 s, a motor that is not
      idle in the one second of 00:01:00, say by a thermal trip, lets the start planned for 00:01:41
      go through. */
  lemma TripAtRedTime() returns (motors: seq<Motor>, run: seq<State>, n: nat)
    ensures IsRun(TRIP, motors, run) && Night(TRIP) && Fresh(run[0]) && n < |motors|
    ensures forall k :: 0 <= k <= n ==> motors[k].idle == (k != 60)
    ensures InRed(TRIP, run[n + 1].time) && Second(TRIP, run[n], motors[n]).start == Some(0)
  {
    motors := TripMotors();
    var s := State(DAY - 1, 0, false, 0, 0, false);
    run := RunOf(TRIP, s, motors);
    RunOfIsRun(TRIP, s, motors);
    n := 101;
    TripBeforeRed(run);
    assert StepAt(TRIP, motors, run, 60) && run[61] == State(60, 101, false, 0, 1, false);
    OnlyClock(TRIP, motors, run, 61, 40);
    assert StepAt(TRIP, motors, run, 101);
  }

  /** Idle or busy, without a plan no start is issued in the window. */
  lemma {:induction false} NoPlanNoStart(c: Config, motors: seq<Motor>, run: seq<State>, n: nat)
    requires IsRun(c, motors, run) && Night(c) && n < |motors| && InRed(c, c.timeRed + n + 1)
    requires run[0].time == c.timeRed && NoPlan(c, run[0])
    ensures run[n].time == c.timeRed + n && NoPlan(c, run[n])
    ensures Second(c, run[n], motors[n]).start == None
  {
    if n > 0 {
      NoPlanNoStart(c, motors, run, n - 1);
      assert StepAt(c, motors, run, n - 1);
      StaysWithoutPlan(c, run[n - 1], motors[n - 1]);
    }
    StaysWithoutPlan(c, run[n], motors[n]);
  }

  // ----- how far the schedule gets between two start-time matches -----

  function Quota(c: Config, e: nat): nat
    requires e < |c.cycles|
  {
    if c.cycles[e] > 0 then c.cycles[e] else 0
  }

  /** Cycles of event e the position of s lies behind. */
  function Spent(c: Config, s: State, e: nat): nat
    requires ValidConfig(c) && e < c.eventN
  {
    if e < s.event then Quota(c, e) else if e == s.event then s.cycle else 0
  }

  /** The position is one the schedule can be at. */
  predicate InQuota(c: Config, s: State)
    requires ValidConfig(c)
  {
    s.event < c.eventN ==> s.cycle <= Quota(c, s.event)
  }

  /** The position of t is that of s or a later one. */
  predicate NotBefore(s: State, t: State) {
    s.event < t.event || (s.event == t.event && s.cycle <= t.cycle)
  }

  lemma {:induction false} PickSpends(c: Config, s: State, e: nat)
    requires ValidConfig(c) && InQuota(c, s) && e < c.eventN
    ensures var r := Pick(c, s);
            && InQuota(c, r.0) && NotBefore(s, r.0)
            && Spent(c, r.0, e) == Spent(c, s, e) + if r.1 == Some(e) then 1 else 0
    decreases c.eventN - s.event
  {
    if s.event < c.eventN && s.cycle >= c.cycles[s.event] {
      PickSpends(c, s.(event := s.event + 1, cycle := 0), e);
    }
  }

  /** One call: the position goes on, and each event it comes to uses up one cycle. */
  lemma CallSpends(c: Config, s: State, m: Motor, e: nat)
    requires ValidConfig(c) && e < c.eventN && (s.time == c.timeStart || InQuota(c, s))
    ensures var o := Call(c, s, m);
            && InQuota(c, o.state) && NotBefore(Restart(c, s), o.state)
            && Spent(c, o.state, e) == (if s.time == c.timeStart then 0 else Spent(c, s, e)) +
                                       if o.cycled == Some(e) then 1 else 0
  {
    PickSpends(c, Restart(c, s), e);
  }

  /** Starts of event e issued in the calls first .. end - 1. */
  function Starts(c: Config, motors: seq<Motor>, run: seq<State>, first: nat, end: nat, e: nat): nat
    requires ValidConfig(c) && first <= end <= |motors| < |run|
  {
    if first == end then 0
    else Starts(c, motors, run, first, end - 1, e) +
         if Second(c, run[end - 1], motors[end - 1]).start == Some(e) then 1 else 0
  }

  /** The calls after the one at `first`, before `end`, do not match the start time. */
  ghost predicate OneNight(c: Config, motors: seq<Motor>, run: seq<State>, first: nat, end: nat) {
    && IsRun(c, motors, run) && first < end <= |motors|
    && Clock(run[first]).time == c.timeStart
    && forall k :: first < k < end ==> NoMatch(c, run, k)
  }

  ghost predicate NoMatch(c: Config, run: seq<State>, k: nat) {
    k < |run| && Clock(run[k]).time != c.timeStart
  }

  /** A cycle of event e that the start time used up though the motor was not idle. */
  function Lost(c: Config, s: State, m: Motor, e: nat): nat
    requires ValidConfig(c)
  {
    if !m.idle && Second(c, s, m).cycled == Some(e) then 1 else 0
  }

  /** Every cycle behind the position was started, but for the one lost at the start time to a busy motor. */
  lemma {:induction false} StartsSpent(c: Config, motors: seq<Motor>, run: seq<State>, first: nat, end: nat, e: nat)
    requires OneNight(c, motors, run, first, end) && e < c.eventN
    ensures InQuota(c, run[end]) && Spent(c, run[end], e) <= Quota(c, e)
    ensures Starts(c, motors, run, first, end, e) + Lost(c, run[first], motors[first], e) == Spent(c, run[end], e)
    decreases end
  {
    var s := run[end - 1];
    assert StepAt(c, motors, run, end - 1);
    if end - 1 > first {
      assert OneNight(c, motors, run, first, end - 1) by {
        assert forall k :: first < k < end - 1 ==> NoMatch(c, run, k);
      }
      StartsSpent(c, motors, run, first, end - 1, e);
      assert NoMatch(c, run, end - 1);
    }
    CallSpends(c, Clock(s), motors[end - 1], e);
  }

  function TotalStarts(c: Config, motors: seq<Motor>, run: seq<State>, first: nat, end: nat): nat
    requires ValidConfig(c) && first <= end <= |motors| < |run|
  {
    if first == end then 0
    else TotalStarts(c, motors, run, first, end - 1) +
         if Second(c, run[end - 1], motors[end - 1]).start != None then 1 else 0
  }

  function SumStarts(c: Config, motors: seq<Motor>, run: seq<State>, first: nat, end: nat, n: nat): nat
    requires ValidConfig(c) && first <= end <= |motors| < |run|
  {
    if n == 0 then 0
    else SumStarts(c, motors, run, first, end, n - 1) + Starts(c, motors, run, first, end, n - 1)
  }

  function SumQuota(c: Config, n: nat): nat
    requires n <= |c.cycles|
  {
    if n == 0 then 0 else SumQuota(c, n - 1) + Quota(c, n - 1)
  }

  lemma {:induction false} SumOverEvents(c: Config, motors: seq<Motor>, run: seq<State>, first: nat, end: nat, n: nat)
    requires ValidConfig(c) && first < end <= |motors| < |run|
    ensures var start := Second(c, run[end - 1], motors[end - 1]).start;
            SumStarts(c, motors, run, first, end, n) ==
            SumStarts(c, motors, run, first, end - 1, n) + if start.Some? && start.value < n then 1 else 0
  {
    if n > 0 {
      SumOverEvents(c, motors, run, first, end, n - 1);
    }
  }

  lemma {:induction false} SumNothing(c: Config, motors: seq<Motor>, run: seq<State>, first: nat, n: nat)
    requires ValidConfig(c) && first <= |motors| < |run|
    ensures SumStarts(c, motors, run, first, first, n) == 0
  {
    if n > 0 {
      SumNothing(c, motors, run, first, n - 1);
    }
  }

  lemma {:induction false} TotalIsSum(c: Config, motors: seq<Motor>, run: seq<State>, first: nat, end: nat)
    requires ValidConfig(c) && first <= end <= |motors| < |run|
    ensures TotalStarts(c, motors, run, first, end) == SumStarts(c, motors, run, first, end, c.eventN)
    decreases end
  {
    if first == end {
      SumNothing(c, motors, run, first, c.eventN);
    } else {
      TotalIsSum(c, motors, run, first, end - 1);
      SumOverEvents(c, motors, run, first, end, c.eventN);
    }
  }

  lemma {:induction false} SumBounded(c: Config, motors: seq<Motor>, run: seq<State>, first: nat, end: nat, n: nat)
    requires OneNight(c, motors, run, first, end) && n <= c.eventN
    ensures SumStarts(c, motors, run, first, end, n) <= SumQuota(c, n)
  {
    if n > 0 {
      SumBounded(c, motors, run, first, end, n - 1);
      StartsSpent(c, motors, run, first, end, n - 1);
    }
  }

  /** Between two start-time matches event e is started at most cycles_n times, and all events
      together at most as often as their cycles add up to. */
  lemma NightBounded(c: Config, motors: seq<Motor>, run: seq<State>, first: nat, end: nat)
    requires OneNight(c, motors, run, first, end)
    ensures forall e :: 0 <= e < c.eventN ==> Starts(c, motors, run, first, end, e) <= Quota(c, e)
    ensures TotalStarts(c, motors, run, first, end) <= SumQuota(c, c.eventN)
  {
    forall e: nat | e < c.eventN ensures Starts(c, motors, run, first, end, e) <= Quota(c, e) {
      StartsSpent(c, motors, run, first, end, e);
    }
    TotalIsSum(c, motors, run, first, end);
    SumBounded(c, motors, run, first, end, c.eventN);
  }

  /** Between two start-time matches the position only grows. */
  lemma {:induction false} PositionGrows(c: Config, motors: seq<Motor>, run: seq<State>, first: nat, k: nat, end: nat)
    requires OneNight(c, motors, run, first, end) && first < k <= end
    ensures NotBefore(run[k], run[end])
    decreases end
  {
    if k < end {
      assert OneNight(c, motors, run, first, end - 1) by {
        assert forall j :: first < j < end - 1 ==> NoMatch(c, run, j);
      }
      PositionGrows(c, motors, run, first, k, end - 1);
      assert StepAt(c, motors, run, end - 1) && NoMatch(c, run, end - 1);
      if c.eventN > 0 {
        StartsSpent(c, motors, run, first, end - 1, 0);
        CallSpends(c, Clock(run[end - 1]), motors[end - 1], 0);
      }
    }
  }

  // ----- a whole night -----

  function SumSpent(c: Config, s: State, n: nat): nat
    requires ValidConfig(c) && n <= c.eventN
  {
    if n == 0 then 0 else SumSpent(c, s, n - 1) + Spent(c, s, n - 1)
  }

  lemma {:induction false} SpentSums(c: Config, s: State, n: nat)
    requires ValidConfig(c) && InQuota(c, s) && n <= c.eventN
    ensures SumSpent(c, s, n) <= SumQuota(c, n)
    ensures SumSpent(c, s, n) == SumQuota(c, n) ==> forall e :: 0 <= e < n ==> Spent(c, s, e) == Quota(c, e)
    ensures !HasWork(c, s) ==> SumSpent(c, s, n) == SumQuota(c, n)
  {
    if n > 0 {
      SpentSums(c, s, n - 1);
    }
  }

  lemma {:induction false} SpentByPosition(c: Config, s: State, t: State, n: nat)
    requires ValidConfig(c) && n <= c.eventN && s.event == t.event && s.cycle == t.cycle
    ensures SumSpent(c, s, n) == SumSpent(c, t, n)
  {
    if n > 0 {
      SpentByPosition(c, s, t, n - 1);
    }
  }

  /** A call in which a cycle is counted adds one to the sum. */
  lemma {:induction false} CallAddsOne(c: Config, s: State, m: Motor, n: nat)
    requires ValidConfig(c) && n <= c.eventN && (s.time == c.timeStart || InQuota(c, s))
    ensures var o := Call(c, s, m);
            SumSpent(c, o.state, n) == (if s.time == c.timeStart then 0 else SumSpent(c, s, n)) +
                                       if o.cycled.Some? && o.cycled.value < n then 1 else 0
  {
    if n > 0 {
      CallSpends(c, s, m, n - 1);
      CallAddsOne(c, s, m, n - 1);
    }
  }

  /** The i-th cycle was counted just now, and the next one is planned. */
  ghost predicate JustCounted(c: Config, s: State, i: nat, time: nat)
    requires ValidConfig(c)
  {
    (SumSpent(c, s, c.eventN), s) == (i, State(time, (time + c.delay) % WORD32, false, s.event, s.cycle, s.running))
    && InQuota(c, s)
  }

  lemma IdleCall(c: Config, s: State, i: nat)
    requires ValidConfig(c) && Night(c) && c.eventN > 0 && i < SumQuota(c, c.eventN)
    requires !s.nextConfig && Now(s) != c.timeRed
    requires if Now(s) == c.timeStart then i == 0
             else Now(s) == s.next && InQuota(c, s) && SumSpent(c, s, c.eventN) == i
    ensures var t := Second(c, s, Motor(true, true)).state; JustCounted(c, t, i + 1, Now(s))
  {
    var m, r := Motor(true, true), Restart(c, Clock(s));
    if Now(s) == c.timeStart {
      AtFirst(c, r, c.eventN);
    } else {
      SpentByPosition(c, s, r, c.eventN);
    }
    SpentSums(c, r, c.eventN);
    PickFindsWork(c, r);
    assert Second(c, s, m).cycled.Some?;
    CallSpends(c, Clock(s), m, 0);
    CallAddsOne(c, Clock(s), m, c.eventN);
    PlanLaw(c, s, m);
    PositionLaw(c, s, m);
  }

  lemma {:induction false} AtFirst(c: Config, s: State, n: nat)
    requires ValidConfig(c) && n <= c.eventN && s.event == s.cycle == 0
    ensures SumSpent(c, s, n) == 0
  {
    if n > 0 {
      AtFirst(c, s, n - 1);
    }
  }

  /** The motor is idle in all these calls, and the cycles fit into the time before midnight. */
  ghost predicate IdleNight(c: Config, motors: seq<Motor>, run: seq<State>, first: nat, end: nat) {
    && OneNight(c, motors, run, first, end) && Night(c) && c.eventN > 0 && c.delay >= 1 && !run[first].nextConfig
    && forall k :: first <= k < end ==> motors[k] == Motor(true, true)
  }

  /** The i-th start comes i - 1 delays after the start time. */
  function StartAfter(c: Config, i: nat): nat {
    if i <= 1 then 0 else StartAfter(c, i - 1) + c.delay
  }

  lemma {:induction false} StartAfterIs(c: Config, i: nat)
    requires i >= 1
    ensures StartAfter(c, i) == (i - 1) * c.delay
  {
    if i > 1 {
      StartAfterIs(c, i - 1);
      assert (i - 1) * c.delay == (i - 2) * c.delay + c.delay;
    }
  }

  lemma {:induction false} IdleStarts(c: Config, motors: seq<Motor>, run: seq<State>, first: nat, end: nat, i: nat)
    requires IdleNight(c, motors, run, first, end) && 1 <= i <= SumQuota(c, c.eventN)
    requires c.timeStart + StartAfter(c, i) < DAY && first + StartAfter(c, i) < end
    ensures JustCounted(c, run[first + StartAfter(c, i) + 1], i, c.timeStart + StartAfter(c, i))
    decreases i
  {
    var k := first + StartAfter(c, i);
    assert StepAt(c, motors, run, k);
    if i == 1 {
      IdleCall(c, run[first], 0);
    } else {
      IdleStarts(c, motors, run, first, end, i - 1);
      OneDelay(c, motors, run, first, end, i - 1, StartAfter(c, i - 1));
      IdleCall(c, run[k], i - 1);
    }
  }

  /** From one start to the second before the next. */
  lemma OneDelay(c: Config, motors: seq<Motor>, run: seq<State>, first: nat, end: nat, i: nat, after: nat)
    requires IdleNight(c, motors, run, first, end)
    requires c.timeStart + after + c.delay < DAY && first + after + c.delay < end
    requires JustCounted(c, run[first + after + 1], i, c.timeStart + after)
    ensures var s := run[first + after + c.delay];
            && (Now(s), s.next, s.nextConfig, SumSpent(c, s, c.eventN)) ==
               (c.timeStart + after + c.delay, c.timeStart + after + c.delay, false, i)
            && InQuota(c, s)
  {
    OnlyClock(c, motors, run, first + after + 1, c.delay - 1);
    SpentByPosition(c, run[first + after + 1], run[first + after + c.delay], c.eventN);
  }

  lemma {:induction false} StartsGrow(c: Config, motors: seq<Motor>, run: seq<State>, first: nat, end: nat, end': nat,
                                      e: nat)
    requires ValidConfig(c) && first <= end <= end' <= |motors| < |run|
    ensures Starts(c, motors, run, first, end, e) <= Starts(c, motors, run, first, end', e)
    decreases end'
  {
    if end < end' {
      StartsGrow(c, motors, run, first, end, end' - 1, e);
    }
  }

  /** How long after the start time the last of all cycles is started by an idle motor. */
  function LastStart(c: Config): nat
    requires ValidConfig(c)
  {
    var total := SumQuota(c, c.eventN);
    if total == 0 then 0 else (total - 1) * c.delay
  }

  /** With an idle motor, and time for all of them before midnight, every event is started exactly as often as
      its cycles say. */
  lemma NightComplete(c: Config, motors: seq<Motor>, run: seq<State>, first: nat, end: nat, e: nat)
    requires IdleNight(c, motors, run, first, end) && e < c.eventN
    requires c.timeStart + LastStart(c) < DAY && first + LastStart(c) < end
    ensures Starts(c, motors, run, first, end, e) == Quota(c, e)
  {
    StartsSpent(c, motors, run, first, end, e);
    var total := SumQuota(c, c.eventN);
    if total == 0 {
      SpentSums(c, run[end], c.eventN);
    } else {
      var mid := first + LastStart(c) + 1;
      StartAfterIs(c, total);
      IdleStarts(c, motors, run, first, end, total);
      SpentSums(c, run[mid], c.eventN);
      assert OneNight(c, motors, run, first, mid) by {
        assert forall k :: first < k < mid ==> NoMatch(c, run, k);
      }
      StartsSpent(c, motors, run, first, mid, e);
      StartsGrow(c, motors, run, first, mid, end, e);
    }
  }

  // ----- a plan past midnight is lost -----

  /** No time of day is planned, or one of a minute before a red time that is over. */
  predicate PlanLost(c: Config, s: State) {
    || (s.time < DAY && !s.nextConfig && s.next >= DAY)
    || (c.timeRed <= s.time < c.timeStart && !s.nextConfig && s.next == c.timeRed - 60)
  }

  lemma LostSecond(c: Config, s: State, m: Motor)
    requires ValidConfig(c) && Night(c) && PlanLost(c, s) && Now(s) != c.timeStart
    ensures var o := Second(c, s, m); o.start == None && PlanLost(c, o.state)
  {
    CycleIff(c, s, m, 0);
  }

  /** A motor that goes idle so late that the delay ends after midnight is not started again before the next
      start time, though cycles are left: the time planned is not taken modulo the length of a day. */
  lemma {:induction false} PastMidnightIsLost(c: Config, motors: seq<Motor>, run: seq<State>, a: nat, n: nat)
    requires IsRun(c, motors, run) && Night(c) && a <= n < |motors| && PlanLost(c, run[a])
    requires forall k :: a <= k <= n ==> NoMatch(c, run, k)
    ensures PlanLost(c, run[n]) && Second(c, run[n], motors[n]).start == None
    decreases n
  {
    if a < n {
      PastMidnightIsLost(c, motors, run, a, n - 1);
      assert StepAt(c, motors, run, n - 1) && NoMatch(c, run, n - 1);
      LostSecond(c, run[n - 1], motors[n - 1]);
    }
    assert NoMatch(c, run, n);
    LostSecond(c, run[n], motors[n]);
  }

  /** Whatever the motor does, no start is issued from state s up to the next start time. */
  ghost predicate RestQuiet(c: Config, s: State) {
    forall motors: seq<Motor>, run: seq<State>, n: nat ::
      IsRun(c, motors, run) && run[0] == s && n < |motors| && (forall k :: 0 <= k <= n ==> NoMatch(c, run, k)) ==>
        Second(c, run[n], motors[n]).start == None
  }

  /** In the evening, with cycles left, the plan for a later time is lost exactly if that is past midnight. */
  lemma PlanLostIff(c: Config, s: State)
    requires ValidConfig(c) && Night(c) && c.timeStart <= s.time < DAY && s.time < s.next
    requires !s.nextConfig && HasWork(c, s)
    ensures RestQuiet(c, s) <==> s.next >= DAY
  {
    if s.next >= DAY {
      forall motors: seq<Motor>, run: seq<State>, n: nat
        | IsRun(c, motors, run) && run[0] == s && n < |motors| && (forall k :: 0 <= k <= n ==> NoMatch(c, run, k))
        ensures Second(c, run[n], motors[n]).start == None
      {
        PastMidnightIsLost(c, motors, run, 0, n);
      }
    } else {
      var n := s.next - s.time - 1;
      var motors := seq(n + 1, _ => Motor(true, true));
      var run := RunOf(c, s, motors);
      RunOfIsRun(c, s, motors);
      forall k | 0 <= k <= n ensures NoMatch(c, run, k) {
        OnlyClock(c, motors, run, 0, k);
      }
      OnlyClock(c, motors, run, 0, n);
      PickFindsWork(c, Clock(run[n]));
      assert Second(c, run[n], motors[n]).start != None;
    }
  }
}
