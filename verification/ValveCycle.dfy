/** The irrigation valve sequencer as a state machine with one step a second
    (main/acionna/valves.hpp:127-172, 280-360), and the exact course of an automatic cycle. */
module ValveCycle {
  import opened Words

  const N_VALVES := 11

  /** Settings; times in seconds.  They stay fixed during a cycle. */
  datatype Config = Config(programmed: seq<bool>, time: seq<nat>, inverted: bool,
                           delaySwitch: bool, delayConfig: nat)

  ghost predicate ValidConfig(c: Config) {
    |c.programmed| == N_VALVES && |c.time| == N_VALVES
  }

  datatype State = State(running: bool, current: nat, last: nat, remain: nat,
                         delayOn: bool, delay: nat, output: Word16)

  function AllOff(): (w: Word16)
    ensures forall p :: 0 <= p < 16 ==> !w[p]
  {
    [false, false, false, false, false, false, false, false,
     false, false, false, false, false, false, false, false]
  }

  /** The output register with one pin driven; pins that are no valve are refused (valves.hpp:266-272). */
  function SetValve(w: Word16, valve: nat, on: bool): Word16 {
    if 1 <= valve <= N_VALVES then w[valve - 1 := on] else w
  }

  /** Whole minutes of the configured time, in seconds (valves.hpp:233-235, 321). */
  function RunTime(c: Config, valve: nat): nat
    requires ValidConfig(c) && 1 <= valve <= N_VALVES
  {
    c.time[valve - 1] / 60 * 60
  }

  /** Where find_next can start: anywhere from the end it counts from to the other. */
  ghost predicate Position(c: Config, v: nat) {
    if c.inverted then 1 <= v <= N_VALVES + 1 else v <= N_VALVES
  }

  ghost predicate Before(c: Config, a: nat, b: nat) {
    if c.inverted then b < a else a < b
  }

  /** The next programmed valve after v in the direction of the cycle; 0 if there is none. */
  function Scan(c: Config, v: nat): (next: nat)
    requires ValidConfig(c) && Position(c, v)
    ensures next == 0 || (1 <= next <= N_VALVES && c.programmed[next - 1])
    ensures next != 0 ==> Before(c, v, next)
    decreases if c.inverted then v else N_VALVES - v
  {
    var w := if c.inverted then v - 1 else v + 1;
    if w == 0 || w > N_VALVES then 0
    else if c.programmed[w - 1] then w
    else Scan(c, w)
  }

  lemma {:induction false} ScanSkipsNothing(c: Config, v: nat)
    requires ValidConfig(c) && Position(c, v)
    ensures forall u :: 1 <= u <= N_VALVES && c.programmed[u - 1] && Before(c, v, u) ==>
                        Scan(c, v) != 0 && !Before(c, u, Scan(c, v))
    decreases if c.inverted then v else N_VALVES - v
  {
    var w := if c.inverted then v - 1 else v + 1;
    if !(w == 0 || w > N_VALVES) && !c.programmed[w - 1] {
      ScanSkipsNothing(c, w);
      assert forall u :: 1 <= u <= N_VALVES && c.programmed[u - 1] && Before(c, v, u) ==> Before(c, w, u);
    }
  }

  function StartPosition(c: Config): nat {
    if c.inverted then N_VALVES + 1 else 0
  }

  function Start(c: Config, s: State): State {
    State(true, StartPosition(c), s.last, 0, s.delayOn, s.delay, AllOff())
  }

  function Stop(s: State): State {
    s.(running := false, current := 0, output := AllOff())
  }

  function NextForced(s: State): State {
    s.(remain := 0)
  }

  /** The current valve has run its time: close it now, or after the delay. */
  function Retire(c: Config, s: State): State {
    if c.delaySwitch then s.(last := s.current, delayOn := true, delay := c.delayConfig)
    else s.(last := s.current, output := SetValve(s.output, s.current, false))
  }

  function Open(c: Config, s: State, next: nat): State
    requires ValidConfig(c) && 1 <= next <= N_VALVES
  {
    s.(current := next, remain := RunTime(c, next), output := SetValve(s.output, next, true))
  }

  /** The switch to the next valve, when the time of the current one is over. */
  function Switch(c: Config, s: State): State
    requires ValidConfig(c) && Position(c, s.current)
  {
    var next := Scan(c, s.current);
    if next != 0 then Open(c, Retire(c, s), next) else Stop(Retire(c, s))
  }

  /** The delayed close of the valve that was current before. */
  function CloseLast(s: State): State {
    if !s.delayOn then s
    else if s.delay > 0 then s.(delay := s.delay - 1)
    else s.(delayOn := false, output := SetValve(s.output, s.last, false))
  }

  /** One update. */
  function Tick(c: Config, s: State): State
    requires ValidConfig(c) && (s.running ==> Position(c, s.current))
  {
    if !s.running then s
    else CloseLast(if s.remain == 0 then Switch(c, s) else s.(remain := s.remain - 1))
  }

  // ----- the order of a cycle -----

  /** The valves a cycle still visits after v. */
  function Chain(c: Config, v: nat): (order: seq<nat>)
    requires ValidConfig(c) && Position(c, v)
    ensures forall k :: 0 <= k < |order| ==> 1 <= order[k] <= N_VALVES
    decreases if c.inverted then v else N_VALVES - v
  {
    var next := Scan(c, v);
    if next == 0 then [] else [next] + Chain(c, next)
  }

  function Order(c: Config): (order: seq<nat>)
    requires ValidConfig(c)
    ensures forall k :: 0 <= k < |order| ==> 1 <= order[k] <= N_VALVES
  {
    Chain(c, StartPosition(c))
  }

  lemma {:induction false} ChainVisits(c: Config, v: nat)
    requires ValidConfig(c) && Position(c, v)
    ensures forall u :: u in Chain(c, v) <==> 1 <= u <= N_VALVES && c.programmed[u - 1] && Before(c, v, u)
    decreases if c.inverted then v else N_VALVES - v
  {
    var next := Scan(c, v);
    ScanSkipsNothing(c, v);
    if next != 0 {
      ChainVisits(c, next);
      assert forall u :: u in Chain(c, v) <==> u == next || u in Chain(c, next);
    }
  }

  lemma {:induction false} ChainSorted(c: Config, v: nat)
    requires ValidConfig(c) && Position(c, v)
    ensures forall j, k :: 0 <= j < k < |Chain(c, v)| ==> Before(c, Chain(c, v)[j], Chain(c, v)[k])
    decreases if c.inverted then v else N_VALVES - v
  {
    var next := Scan(c, v);
    if next != 0 {
      var rest := Chain(c, next);
      ChainSorted(c, next);
      ChainVisits(c, next);
      assert forall k :: 0 <= k < |rest| ==> rest[k] in rest;
    }
  }

  /** A cycle visits exactly the programmed valves, each once, in ascending or descending order. */
  lemma OrderIsProgrammed(c: Config)
    requires ValidConfig(c)
    ensures forall v :: v in Order(c) <==> 1 <= v <= N_VALVES && c.programmed[v - 1]
    ensures forall j, k :: 0 <= j < k < |Order(c)| ==> Before(c, Order(c)[j], Order(c)[k])
  {
    ChainVisits(c, StartPosition(c));
    ChainSorted(c, StartPosition(c));
  }

  lemma {:induction false} ChainLinks(c: Config, v: nat, k: nat)
    requires ValidConfig(c) && Position(c, v) && k <= |Chain(c, v)|
    ensures var order := Chain(c, v);
            var from := if k == 0 then v else order[k - 1];
            Position(c, from) && Scan(c, from) == if k < |order| then order[k] else 0
    decreases if c.inverted then v else N_VALVES - v
  {
    var next := Scan(c, v);
    if k > 0 {
      assert Chain(c, v) == [next] + Chain(c, next);
      ChainLinks(c, next, k - 1);
    }
  }

  ghost predicate NoRepeats(order: seq<nat>) {
    if order == [] then true
    else var n := |order| - 1; order[n] !in order[..n] && NoRepeats(order[..n])
  }

  lemma {:induction false} DistinctAt(order: seq<nat>, k: nat, m: nat)
    requires NoRepeats(order) && k < |order| && m < |order| && k != m
    ensures order[k] != order[m]
  {
    var n := |order| - 1;
    if k < n && m < n {
      DistinctAt(order[..n], k, m);
    } else {
      assert k < n ==> order[k] in order[..n];
      assert m < n ==> order[m] in order[..n];
    }
  }

  lemma {:induction false} SortedHasNoRepeats(c: Config, order: seq<nat>)
    requires forall j, k :: 0 <= j < k < |order| ==> Before(c, order[j], order[k])
    ensures NoRepeats(order)
  {
    if order != [] {
      var n := |order| - 1;
      assert forall j :: 0 <= j < n ==> Before(c, order[..n][j], order[n]);
      SortedHasNoRepeats(c, order[..n]);
    }
  }

  ghost predicate ValidOrder(c: Config, order: seq<nat>) {
    && ValidConfig(c)
    && (forall k :: 0 <= k < |order| ==> 1 <= order[k] <= N_VALVES)
    && NoRepeats(order)
  }

  function Previous(c: Config, order: seq<nat>, k: nat): nat
    requires k <= |order|
  {
    if k == 0 then StartPosition(c) else order[k - 1]
  }

  /** find_next goes from the valve before position k to the one at k, or to the end. */
  ghost predicate Link(c: Config, order: seq<nat>, k: nat)
    requires ValidConfig(c) && k <= |order|
  {
    && Position(c, Previous(c, order, k))
    && Scan(c, Previous(c, order, k)) == if k < |order| then order[k] else 0
  }

  /** `order` is the way find_next goes from the start position to the end. */
  ghost predicate IsOrder(c: Config, order: seq<nat>) {
    ValidOrder(c, order) && forall k :: 0 <= k <= |order| ==> Link(c, order, k)
  }

  lemma OrderIsOrder(c: Config)
    requires ValidConfig(c)
    ensures IsOrder(c, Order(c))
  {
    ChainSorted(c, StartPosition(c));
    SortedHasNoRepeats(c, Order(c));
    forall k | 0 <= k <= |Order(c)| ensures Link(c, Order(c), k) {
      ChainLinks(c, StartPosition(c), k);
    }
  }

  // ----- the course of a cycle -----

  /** Updates until the i-th valve of the order becomes current (or, past the last, until the end). */
  function SwitchTime(c: Config, order: seq<nat>, i: nat): (t: nat)
    requires ValidOrder(c, order) && i <= |order|
  {
    if i == 0 then 1 else SwitchTime(c, order, i - 1) + RunTime(c, order[i - 1]) + 1
  }

  /** The states at the end of the updates that follow `Start`, with nothing else in between. */
  ghost predicate IsRun(c: Config, s: State, run: seq<State>)
    requires ValidConfig(c)
  {
    run != [] && run[0] == Start(c, s) && forall n :: 0 <= n < |run| - 1 ==> Updates(c, run, n)
  }

  ghost predicate Updates(c: Config, run: seq<State>, n: nat)
    requires ValidConfig(c) && n + 1 < |run|
  {
    (run[n].running ==> Position(c, run[n].current)) && run[n + 1] == Tick(c, run[n])
  }

  /** Is the k-th valve of the order open, j updates after the i-th became current?  Without the
      delayed close only the current one is.  With it the one before stays for the delay, and so does,
      to the end, every earlier one whose successor ran for less than the delay. */
  ghost predicate IsOpen(c: Config, order: seq<nat>, i: nat, j: nat, k: nat)
    requires ValidOrder(c, order) && i < |order| && k < |order|
  {
    || k == i
    || (c.delaySwitch && k + 1 == i && j < c.delayConfig)
    || (c.delaySwitch && k + 1 < i && RunTime(c, order[k + 1]) < c.delayConfig)
  }

  /** The pin belongs to no valve of the order. */
  ghost predicate Spare(order: seq<nat>, pin: nat) {
    pin + 1 !in order
  }

  /** The output of the k-th valve is on. */
  ghost predicate IsOn(order: seq<nat>, w: Word16, k: nat)
    requires k < |order| && 1 <= order[k] <= N_VALVES
  {
    w[order[k] - 1]
  }

  ghost predicate OutputIs(c: Config, order: seq<nat>, w: Word16, i: nat, j: nat)
    requires ValidOrder(c, order) && i < |order|
  {
    && (forall k {:trigger IsOn(order, w, k)} {:trigger IsOpen(c, order, i, j, k)} ::
          0 <= k < |order| ==> IsOn(order, w, k) == IsOpen(c, order, i, j, k))
    && (forall p {:trigger Spare(order, p)} :: 0 <= p < 16 && Spare(order, p) ==> !w[p])
  }

  ghost predicate Timers(c: Config, order: seq<nat>, s: State, i: nat, j: nat)
    requires ValidOrder(c, order) && i < |order| && j <= RunTime(c, order[i])
  {
    var delayed := c.delaySwitch && j < c.delayConfig;
    (s.running, s.current, s.last, s.remain, c.delaySwitch && s.delayOn, if delayed then s.delay else 0) ==
    (true, order[i], Previous(c, order, i), RunTime(c, order[i]) - j, delayed,
     if delayed then c.delayConfig - 1 - j else 0)
  }

  /** The state j updates after the i-th valve became current. */
  ghost predicate Course(c: Config, order: seq<nat>, s: State, i: nat, j: nat)
    requires ValidOrder(c, order) && i < |order| && j <= RunTime(c, order[i])
  {
    Timers(c, order, s, i, j) && OutputIs(c, order, s.output, i, j)
  }

  // ----- how an update moves along the course -----

  /** Driving the pin of the m-th valve changes that valve's output and no other. */
  lemma DrivesOne(c: Config, order: seq<nat>, w: Word16, m: nat, on: bool)
    requires ValidOrder(c, order) && m < |order|
    ensures var w' := SetValve(w, order[m], on);
            && (forall k {:trigger IsOn(order, w', k)} ::
                  0 <= k < |order| ==> IsOn(order, w', k) == if k == m then on else IsOn(order, w, k))
            && (forall p {:trigger Spare(order, p)} :: 0 <= p < 16 && Spare(order, p) ==> w'[p] == w[p])
  {
    forall k | 0 <= k < |order| && k != m ensures order[k] != order[m] {
      DistinctAt(order, k, m);
    }
  }

  lemma StartsCourse(c: Config, order: seq<nat>, s: State)
    requires ValidOrder(c, order) && order != [] && Link(c, order, 0)
    ensures Course(c, order, Tick(c, Start(c, s)), 0, 0)
  {
    DrivesOne(c, order, AllOff(), 0, true);
  }

  /** CloseLast in the middle of the i-th valve's time. */
  lemma ClosesOnTime(c: Config, order: seq<nat>, s: State, i: nat, j: nat)
    requires ValidOrder(c, order) && i < |order| && j < RunTime(c, order[i])
    requires Course(c, order, s, i, j)
    ensures Course(c, order, Tick(c, s), i, j + 1)
  {
    if i > 0 {
      DrivesOne(c, order, s.output, i - 1, false);
    }
  }

  /** The output after the i-th valve is retired and the next one opened. */
  lemma SwitchOutput(c: Config, order: seq<nat>, s: State, i: nat)
    requires ValidOrder(c, order) && i + 1 < |order|
    requires OutputIs(c, order, s.output, i, RunTime(c, order[i])) && s.current == order[i]
    ensures var w := Open(c, Retire(c, s), order[i + 1]).output;
            && (forall k {:trigger IsOn(order, w, k)} :: 0 <= k < |order| ==>
                  IsOn(order, w, k) == (k == i + 1 || (k == i && c.delaySwitch) ||
                                        (k < i && IsOpen(c, order, i + 1, 0, k))))
            && (forall p {:trigger Spare(order, p)} :: 0 <= p < 16 && Spare(order, p) ==> !w[p])
  {
    DrivesOne(c, order, s.output, i, false);
    DrivesOne(c, order, Retire(c, s).output, i + 1, true);
  }

  lemma SwitchTimers(c: Config, order: seq<nat>, s: State, i: nat)
    requires ValidOrder(c, order) && i + 1 < |order| && Link(c, order, i + 1)
    requires Timers(c, order, s, i, RunTime(c, order[i]))
    ensures Timers(c, order, Tick(c, s), i + 1, 0)
    ensures var t := Open(c, Retire(c, s), order[i + 1]);
            Tick(c, s).output ==
            if t.delayOn && t.delay == 0 then SetValve(t.output, order[i], false) else t.output
    ensures c.delaySwitch ==> var t := Open(c, Retire(c, s), order[i + 1]); t.delayOn && t.delay == c.delayConfig
  {
  }

  lemma SwitchesOnTime(c: Config, order: seq<nat>, s: State, i: nat)
    requires ValidOrder(c, order) && i + 1 < |order| && Link(c, order, i + 1)
    requires Course(c, order, s, i, RunTime(c, order[i]))
    ensures Course(c, order, Tick(c, s), i + 1, 0)
  {
    SwitchTimers(c, order, s, i);
    SwitchOutput(c, order, s, i);
    DrivesOne(c, order, Open(c, Retire(c, s), order[i + 1]).output, i, false);
  }

  lemma StaysOff(c: Config, t: State)
    requires t.output == AllOff()
    ensures CloseLast(t).output == AllOff()
  {
    assert SetValve(AllOff(), t.last, false) == AllOff();
  }

  lemma EndsOnTime(c: Config, order: seq<nat>, s: State)
    requires ValidConfig(c) && Link(c, order, |order|)
    requires s.running && s.current == Previous(c, order, |order|) && s.remain == 0
    ensures var t := Tick(c, s); !t.running && t.current == 0 && t.output == AllOff()
  {
    StaysOff(c, Switch(c, s));
  }

  lemma CourseStarts(c: Config, order: seq<nat>, s: State, run: seq<State>)
    requires IsOrder(c, order) && IsRun(c, s, run) && order != [] && |run| > 1
    ensures Course(c, order, run[1], 0, 0)
  {
    assert Updates(c, run, 0) && Link(c, order, 0);
    StartsCourse(c, order, s);
  }

  lemma CourseGoesOn(c: Config, order: seq<nat>, run: seq<State>, i: nat, j: nat, n: nat)
    requires ValidOrder(c, order) && i < |order| && j < RunTime(c, order[i])
    requires n + 1 < |run| && Updates(c, run, n) && Course(c, order, run[n], i, j)
    ensures Course(c, order, run[n + 1], i, j + 1)
  {
    ClosesOnTime(c, order, run[n], i, j);
  }

  lemma CourseSwitches(c: Config, order: seq<nat>, run: seq<State>, i: nat, n: nat)
    requires ValidOrder(c, order) && i + 1 < |order| && Link(c, order, i + 1)
    requires n + 1 < |run| && Updates(c, run, n) && Course(c, order, run[n], i, RunTime(c, order[i]))
    ensures Course(c, order, run[n + 1], i + 1, 0)
  {
    SwitchesOnTime(c, order, run[n], i);
  }

  /** The whole course: whatever was left over from before `Start`, after SwitchTime(i) + j updates
      the i-th valve is current and the outputs are those of IsOpen. */
  lemma {:induction false} CycleCourse(c: Config, order: seq<nat>, s: State, run: seq<State>,
                                       i: nat, j: nat, n: nat)
    requires IsOrder(c, order) && IsRun(c, s, run)
    requires i < |order| && j <= RunTime(c, order[i])
    requires n == SwitchTime(c, order, i) + j < |run|
    ensures Course(c, order, run[n], i, j)
    decreases i, j
  {
    if j > 0 {
      CycleCourse(c, order, s, run, i, j - 1, n - 1);
      assert Updates(c, run, n - 1);
      CourseGoesOn(c, order, run, i, j - 1, n - 1);
    } else if i > 0 {
      CycleCourse(c, order, s, run, i - 1, RunTime(c, order[i - 1]), n - 1);
      assert Updates(c, run, n - 1) && Link(c, order, i);
      CourseSwitches(c, order, run, i - 1, n - 1);
    } else {
      CourseStarts(c, order, s, run);
    }
  }

  /** Before its last update the cycle is at its last valve, or still where it started. */
  lemma BeforeEnd(c: Config, order: seq<nat>, s: State, run: seq<State>, n: nat)
    requires IsOrder(c, order) && IsRun(c, s, run)
    requires n + 1 == SwitchTime(c, order, |order|) && n < |run|
    ensures run[n].running && run[n].current == Previous(c, order, |order|) && run[n].remain == 0
  {
    if order != [] {
      var last := |order| - 1;
      CycleCourse(c, order, s, run, last, RunTime(c, order[last]), n);
    }
  }

  /** The cycle ends, all outputs off, with update number 1 + the sum of (run time + 1). */
  lemma CycleEnd(c: Config, order: seq<nat>, s: State, run: seq<State>, n: nat)
    requires IsOrder(c, order) && IsRun(c, s, run)
    requires n == SwitchTime(c, order, |order|) < |run|
    ensures !run[n].running && run[n].current == 0 && run[n].output == AllOff()
  {
    BeforeEnd(c, order, s, run, n - 1);
    assert Link(c, order, |order|) && Updates(c, run, n - 1);
    EndsOnTime(c, order, run[n - 1]);
  }

  // ----- a forced switch -----

  /** A forced switch in the middle of the i-th valve's time: the next update goes on to the next valve, with
      its whole time, or ends the cycle.  Every valve before the i-th that is still open then, be it only for
      its delay, stays open. */
  lemma ForcedSwitch(c: Config, order: seq<nat>, s: State, i: nat, j: nat)
    requires ValidOrder(c, order) && i < |order| && j <= RunTime(c, order[i]) && Course(c, order, s, i, j)
    requires Link(c, order, i + 1)
    ensures var t := Tick(c, NextForced(s));
            if i + 1 == |order| then !t.running && t.current == 0 && t.output == AllOff()
            else
              && Timers(c, order, t, i + 1, 0)
              && forall k {:trigger IsOn(order, t.output, k)} :: 0 <= k < |order| ==>
                   IsOn(order, t.output, k) == (k == i + 1 || (k == i && c.delaySwitch && c.delayConfig > 0) ||
                                                (k < i && IsOpen(c, order, i, j, k)))
  {
    var f := NextForced(s);
    if i + 1 == |order| {
      EndsOnTime(c, order, f);
    } else {
      DrivesOne(c, order, s.output, i, false);
      var t := Retire(c, f);
      DrivesOne(c, order, t.output, i + 1, true);
      DrivesOne(c, order, Open(c, t, order[i + 1]).output, i, false);
    }
  }

  // ----- what the course means -----

  /** Which valve update n belongs to. */
  lemma Locate(c: Config, order: seq<nat>, n: nat) returns (i: nat, j: nat)
    requires ValidOrder(c, order) && 1 <= n < SwitchTime(c, order, |order|)
    ensures i < |order| && j <= RunTime(c, order[i]) && n == SwitchTime(c, order, i) + j
  {
    i := |order|;
    while n < SwitchTime(c, order, i)
      invariant i <= |order|
      invariant i < |order| ==> n < SwitchTime(c, order, i + 1)
    {
      i := i - 1;
    }
    j := n - SwitchTime(c, order, i);
  }

  lemma {:induction false} SwitchTimeGrows(c: Config, order: seq<nat>, i: nat, k: nat)
    requires ValidOrder(c, order) && i < k <= |order|
    ensures SwitchTime(c, order, i) + RunTime(c, order[i]) + 1 <= SwitchTime(c, order, k)
  {
    if i + 1 < k {
      SwitchTimeGrows(c, order, i, k - 1);
    }
  }

  lemma {:induction false} SwitchTimePositive(c: Config, order: seq<nat>, i: nat)
    requires ValidOrder(c, order) && i <= |order|
    ensures SwitchTime(c, order, i) >= 1
  {
    if i > 0 {
      SwitchTimePositive(c, order, i - 1);
    }
  }

  /** The i-th valve is the current one after update n exactly when n lies in its RunTime + 1 updates. */
  lemma CurrentExactly(c: Config, order: seq<nat>, s: State, run: seq<State>, i: nat, n: nat)
    requires IsOrder(c, order) && IsRun(c, s, run)
    requires i < |order| && 1 <= n < SwitchTime(c, order, |order|) && n < |run|
    ensures run[n].current == order[i] <==>
            SwitchTime(c, order, i) <= n <= SwitchTime(c, order, i) + RunTime(c, order[i])
  {
    var k, j := Locate(c, order, n);
    CycleCourse(c, order, s, run, k, j, n);
    if i < k {
      SwitchTimeGrows(c, order, i, k);
      DistinctAt(order, i, k);
    } else if k < i {
      SwitchTimeGrows(c, order, k, i);
      DistinctAt(order, i, k);
    }
  }

  /** Make before break: at every update of the cycle the current valve is open. */
  lemma CurrentIsOpen(c: Config, order: seq<nat>, s: State, run: seq<State>, n: nat)
    requires IsOrder(c, order) && IsRun(c, s, run)
    requires 1 <= n < SwitchTime(c, order, |order|) && n < |run|
    ensures run[n].running && run[n].current in order && run[n].output[run[n].current - 1]
  {
    var i, j := Locate(c, order, n);
    CycleCourse(c, order, s, run, i, j, n);
    assert IsOpen(c, order, i, j, i);
  }

  function Opened(w: Word16): set<nat> {
    set p: nat | 0 <= p < 16 && w[p] :: p + 1
  }

  /** The valves open during the course are those of IsOpen. */
  lemma OpenedIs(c: Config, order: seq<nat>, w: Word16, i: nat, j: nat)
    requires ValidOrder(c, order) && i < |order| && OutputIs(c, order, w, i, j)
    ensures Opened(w) == set k | 0 <= k < |order| && IsOpen(c, order, i, j, k) :: order[k]
  {
    var named := set k | 0 <= k < |order| && IsOpen(c, order, i, j, k) :: order[k];
    forall v: nat | v in Opened(w) ensures v in named {
      var k := OpenedIsNamed(c, order, w, i, j, v);
    }
    forall k | 0 <= k < |order| && IsOpen(c, order, i, j, k) ensures order[k] in Opened(w) {
      assert IsOn(order, w, k);
      PinIsOpened(w, order[k]);
    }
  }

  lemma PinIsOpened(w: Word16, v: nat)
    requires 1 <= v <= 16
    ensures v in Opened(w) <==> w[v - 1]
  {
    var p: nat := v - 1;
    assert w[p] ==> p + 1 in Opened(w);
  }

  lemma PinOf(w: Word16, v: nat)
    requires v in Opened(w)
    ensures 1 <= v <= 16 && w[v - 1]
  {
  }

  lemma PlaceOf(order: seq<nat>, v: nat) returns (k: nat)
    requires v in order
    ensures k < |order| && order[k] == v
  {
    k :| 0 <= k < |order| && order[k] == v;
  }

  lemma OpenedIsNamed(c: Config, order: seq<nat>, w: Word16, i: nat, j: nat, v: nat) returns (k: nat)
    requires ValidOrder(c, order) && i < |order| && OutputIs(c, order, w, i, j) && v in Opened(w)
    ensures k < |order| && order[k] == v && IsOpen(c, order, i, j, k)
  {
    PinOf(w, v);
    assert !Spare(order, v - 1);
    k := PlaceOf(order, v);
    assert IsOn(order, w, k);
  }

  /** Without the delayed close exactly the current valve is open. */
  lemma OneOpenWithoutDelay(c: Config, order: seq<nat>, s: State, run: seq<State>, n: nat)
    requires IsOrder(c, order) && IsRun(c, s, run) && !c.delaySwitch
    requires 1 <= n < SwitchTime(c, order, |order|) && n < |run|
    ensures Opened(run[n].output) == {run[n].current}
  {
    var i, j := Locate(c, order, n);
    CycleCourse(c, order, s, run, i, j, n);
    OpenedIs(c, order, run[n].output, i, j);
    assert IsOpen(c, order, i, j, i);
  }

  /** Every valve between the first and the last of the cycle runs at least as long as the delay. */
  ghost predicate DelayFits(c: Config, order: seq<nat>)
    requires ValidOrder(c, order)
  {
    forall k :: 0 < k < |order| - 1 ==> c.delayConfig <= RunTime(c, order[k])
  }

  /** When the delay fits, the valves open are the current one and, for the first `delayConfig`
      updates of its time, the one before it: that one closes exactly `delayConfig` updates after
      the switch. */
  lemma TwoOpenWithDelay(c: Config, order: seq<nat>, s: State, run: seq<State>, i: nat, j: nat, n: nat)
    requires IsOrder(c, order) && IsRun(c, s, run) && c.delaySwitch && DelayFits(c, order)
    requires i < |order| && j <= RunTime(c, order[i])
    requires n == SwitchTime(c, order, i) + j < |run|
    ensures Opened(run[n].output) ==
            if i > 0 && j < c.delayConfig then {order[i], order[i - 1]} else {order[i]}
  {
    CycleCourse(c, order, s, run, i, j, n);
    OpenedIs(c, order, run[n].output, i, j);
    var named := set k | 0 <= k < |order| && IsOpen(c, order, i, j, k) :: order[k];
    assert forall k :: 0 <= k < |order| && IsOpen(c, order, i, j, k) ==> k == i || (k == i - 1 && j < c.delayConfig);
    assert IsOpen(c, order, i, j, i) && order[i] in named;
    if i > 0 && j < c.delayConfig {
      assert IsOpen(c, order, i, j, i - 1) && order[i - 1] in named;
    }
  }

  lemma StillOpen(c: Config, order: seq<nat>, w: Word16, i: nat, j: nat, m: nat)
    requires ValidOrder(c, order) && i < |order| && m < |order|
    requires OutputIs(c, order, w, i, j) && IsOpen(c, order, i, j, m)
    ensures order[m] in Opened(w)
  {
    assert IsOn(order, w, m);
    PinIsOpened(w, order[m]);
  }

  lemma ThreeValves(a: nat, b: nat, d: nat, open: set<nat>)
    requires a != b && a != d && b != d && a in open && b in open && d in open
    ensures |open| > 2
  {
    SubsetSize({a, b, d}, open);
  }

  lemma ThreeStayOpen(c: Config, order: seq<nat>, w: Word16, k: nat)
    requires ValidOrder(c, order) && c.delaySwitch
    requires 0 < k < |order| - 1 && RunTime(c, order[k]) < c.delayConfig
    requires OutputIs(c, order, w, k + 1, 0)
    ensures order[k - 1] in Opened(w) && order[k] in Opened(w) && order[k + 1] in Opened(w)
  {
    StillOpen(c, order, w, k + 1, 0, k - 1);
    StillOpen(c, order, w, k + 1, 0, k);
    StillOpen(c, order, w, k + 1, 0, k + 1);
  }

  lemma ThreeOpen(order: seq<nat>, k: nat, open: set<nat>)
    requires NoRepeats(order) && 0 < k < |order| - 1
    requires order[k - 1] in open && order[k] in open && order[k + 1] in open
    ensures |open| > 2
  {
    DistinctAt(order, k - 1, k);
    DistinctAt(order, k - 1, k + 1);
    DistinctAt(order, k, k + 1);
    ThreeValves(order[k - 1], order[k], order[k + 1], open);
  }

  /** A valve that runs for less than the delay leaves three open when the next one follows. */
  lemma ShortValve(c: Config, order: seq<nat>, s: State, run: seq<State>, k: nat) returns (n: nat)
    requires IsOrder(c, order) && IsRun(c, s, run) && c.delaySwitch
    requires |run| == SwitchTime(c, order, |order|)
    requires 0 < k < |order| - 1 && RunTime(c, order[k]) < c.delayConfig
    ensures 1 <= n < |run| && |Opened(run[n].output)| > 2
  {
    n := SwitchTime(c, order, k + 1);
    SwitchTimeGrows(c, order, k + 1, |order|);
    SwitchTimePositive(c, order, k + 1);
    CycleCourse(c, order, s, run, k + 1, 0, n);
    ThreeStayOpen(c, order, run[n].output, k);
    ThreeOpen(order, k, Opened(run[n].output));
  }

  lemma {:induction false} SubsetSize(a: set<nat>, b: set<nat>)
    requires a <= b
    ensures |a| <= |b|
  {
    if a != {} {
      var x :| x in a;
      SubsetSize(a - {x}, b - {x});
    }
  }

  /** The bound on the delay is exact: in a run of a whole cycle never more than two valves are open
      if and only if every valve between the first and the last runs at least as long as the delay. */
  lemma AtMostTwoIffDelayFits(c: Config, order: seq<nat>, s: State, run: seq<State>)
    requires IsOrder(c, order) && IsRun(c, s, run) && c.delaySwitch
    requires |run| == SwitchTime(c, order, |order|)
    ensures DelayFits(c, order) <==> forall n :: 1 <= n < |run| ==> |Opened(run[n].output)| <= 2
  {
    if DelayFits(c, order) {
      forall n | 1 <= n < |run| ensures |Opened(run[n].output)| <= 2 {
        var i, j := Locate(c, order, n);
        TwoOpenWithDelay(c, order, s, run, i, j, n);
      }
    } else {
      var k :| 0 < k < |order| - 1 && RunTime(c, order[k]) < c.delayConfig;
      var n := ShortValve(c, order, s, run, k);
    }
  }

  // ----- sums over the programmed valves -----

  /** Updates the programmed valves among the first n take. */
  function UpdatesUpTo(c: Config, n: nat): nat
    requires ValidConfig(c) && n <= N_VALVES
    decreases n, c
  {
    if n == 0 then 0 else UpdatesUpTo(c, n - 1) + if c.programmed[n - 1] then RunTime(c, n) + 1 else 0
  }

  /** Configured seconds of the programmed valves among the first n. */
  function TimeUpTo(c: Config, n: nat): nat
    requires ValidConfig(c) && n <= N_VALVES
    decreases n, c
  {
    if n == 0 then 0 else TimeUpTo(c, n - 1) + if c.programmed[n - 1] then c.time[n - 1] else 0
  }

  function ProgrammedUpTo(c: Config, n: nat): nat
    requires ValidConfig(c) && n <= N_VALVES
    decreases n, c
  {
    if n == 0 then 0 else ProgrammedUpTo(c, n - 1) + if c.programmed[n - 1] then 1 else 0
  }

  /** Seconds beyond whole minutes of the programmed valves among the first n. */
  function OddSecondsUpTo(c: Config, n: nat): nat
    requires ValidConfig(c) && n <= N_VALVES
    decreases n, c
  {
    if n == 0 then 0 else OddSecondsUpTo(c, n - 1) + if c.programmed[n - 1] then c.time[n - 1] % 60 else 0
  }

  lemma {:induction false} UpdatesAndTime(c: Config, n: nat)
    requires ValidConfig(c) && n <= N_VALVES
    ensures UpdatesUpTo(c, n) + OddSecondsUpTo(c, n) == TimeUpTo(c, n) + ProgrammedUpTo(c, n)
  {
    if n > 0 {
      UpdatesAndTime(c, n - 1);
    }
  }

  /** Updates of the programmed valves that lie between position v and the next valve, w, and of w. */
  lemma {:induction false} ScanSkipsSum(c: Config, v: nat)
    requires ValidConfig(c) && Position(c, v)
    ensures var w := Scan(c, v);
            if c.inverted then
              UpdatesUpTo(c, v - 1) == if w == 0 then 0 else UpdatesUpTo(c, w - 1) + RunTime(c, w) + 1
            else
              UpdatesUpTo(c, if w == 0 then N_VALVES else w) ==
              UpdatesUpTo(c, v) + if w == 0 then 0 else RunTime(c, w) + 1
    decreases if c.inverted then v else N_VALVES - v
  {
    var w := if c.inverted then v - 1 else v + 1;
    if !(w == 0 || w > N_VALVES) && !c.programmed[w - 1] {
      ScanSkipsSum(c, w);
    }
  }

  /** Updates left after those of the first i valves of the order. */
  lemma {:induction false} SwitchTimeSum(c: Config, order: seq<nat>, i: nat)
    requires IsOrder(c, order) && i <= |order|
    ensures Link(c, order, i)
    ensures SwitchTime(c, order, i) ==
            1 + if c.inverted then UpdatesUpTo(c, N_VALVES) - UpdatesUpTo(c, Previous(c, order, i) - 1)
                else UpdatesUpTo(c, Previous(c, order, i))
  {
    if i > 0 {
      SwitchTimeSum(c, order, i - 1);
      ScanSkipsSum(c, Previous(c, order, i - 1));
    }
  }

  /** The length of a cycle: one update to find the first valve and run time + 1 for each valve. */
  lemma CycleLength(c: Config, order: seq<nat>)
    requires IsOrder(c, order)
    ensures SwitchTime(c, order, |order|) == 1 + UpdatesUpTo(c, N_VALVES)
  {
    SwitchTimeSum(c, order, |order|);
    ScanSkipsSum(c, Previous(c, order, |order|));
  }
}
