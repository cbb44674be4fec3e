/** The air-intake detector of a pipe (main/acionna/pipepvc.hpp:71-165). */
module AirIntake {

  datatype Phase = Idle | Increasing | Stable | Slope

  /** What the detector remembers; `count` is never reset, so it outlives a detection. */
  datatype State = State(phase: Phase, timer: nat, count: nat, previous: int, average: int)

  /** One call: is the motor in the reference state, and the pressure at that time. */
  datatype Call = Call(inReference: bool, pressure: int)

  const COUNT_REF := 10
  const LOW_REF := 10

  /** Running average: half the sum, rounded half up (an arithmetic shift right). */
  function Average(average: int, pressure: int): (r: int)
    ensures 0 <= 2 * r - (average + pressure) <= 1
  {
    (average + 1 + pressure) / 2
  }

  /** pressure < 0.70 * reference, in whole numbers. */
  predicate Dropped(pressure: int, reference: int) {
    10 * pressure < 7 * reference
  }

  function Follow(s: State, p: int): State {
    s.(previous := p, average := Average(s.average, p))
  }

  function Next(s: State, call: Call): State {
    var p := call.pressure;
    match s.phase
    case Idle =>
      if call.inReference then State(Increasing, 0, s.count, p, p) else s
    case Increasing =>
      if !call.inReference then s.(phase := Idle)
      else
        var t := s.(timer := s.timer + 1);
        if t.timer <= 5 then Follow(t, p)
        else if Dropped(p, t.previous) then t.(phase := Slope)
        else if p == t.average then
          t.(count := t.count + 1, phase := if t.count + 1 >= COUNT_REF then Stable else Increasing)
        else Follow(t, p)
    case Stable =>
      if !call.inReference then s.(phase := Idle)
      else if Dropped(p, s.average) || p < LOW_REF then s.(phase := Slope)
      else Follow(s, p)
    case Slope => s.(phase := Idle)
  }

  /** The phases: into Increasing and back by the motor; after five calls a pressure below 70 % of the last one
      is a slope, and in the stable phase one below 70 % of the average, or below 10; and the tenth equal
      reading makes it stable.  A slope is reported once. */
  lemma NextPhase(s: State, call: Call)
    ensures var (t, p) := (Next(s, call), call.pressure);
            match s.phase
            case Idle => t == if call.inReference then State(Increasing, 0, s.count, p, p) else s
            case Increasing =>
              && (t.phase == Idle <==> !call.inReference)
              && (t.phase == Slope <==> call.inReference && s.timer >= 5 && 10 * p < 7 * s.previous)
              && (t.phase == Stable <==> call.inReference && s.timer >= 5 && 10 * p >= 7 * s.previous
                                         && p == s.average && s.count >= 9)
              && (call.inReference ==> t.timer == s.timer + 1)
            case Stable =>
              && (t.phase == Idle <==> !call.inReference) && t.phase != Increasing
              && (t.phase == Slope <==> call.inReference && (10 * p < 7 * s.average || p < 10))
            case Slope => t == s.(phase := Idle)
  {
  }

  /** A call that leaves the phase and the count as they are takes the pressure into the running average. */
  lemma NextAverages(s: State, call: Call)
    requires (s.phase == Increasing || s.phase == Stable) && call.inReference
    ensures var t := Next(s, call);
            if t.phase == s.phase && t.count == s.count then
              t.previous == call.pressure && 0 <= 2 * t.average - (s.average + call.pressure) <= 1
            else t.previous == s.previous && t.average == s.average
  {
  }

  /** The call that finds a slope pending reports it. */
  predicate Detects(s: State) {
    s.phase == Slope
  }

  /** run[n] is the state before call n. */
  ghost predicate IsRun(calls: seq<Call>, run: seq<State>) {
    && |run| == |calls| + 1 && run[0].phase == Idle
    && forall n :: 0 <= n < |calls| ==> StepAt(calls, run, n)
  }

  ghost predicate StepAt(calls: seq<Call>, run: seq<State>, n: nat) {
    n < |calls| && n + 1 < |run| && run[n + 1] == Next(run[n], calls[n])
  }

  ghost predicate AllInReference(calls: seq<Call>, from: nat, to: nat) {
    from <= to <= |calls| && forall m :: from <= m < to ==> calls[m].inReference
  }

  ghost predicate Within(calls: seq<Call>, from: nat, to: nat, low: int, high: int) {
    from <= to <= |calls| && forall m :: from <= m < to ==> low <= calls[m].pressure <= high
  }

  /** An active detector left idle at some call, has seen the motor in the reference state at that
      call and at every one since, and has an average no pressure of that time lies all above or
      all below of. */
  lemma {:induction false} ActiveSince(calls: seq<Call>, run: seq<State>, n: nat) returns (start: nat)
    requires IsRun(calls, run) && n < |run| && run[n].phase != Idle
    ensures start < n && run[start].phase == Idle
    ensures AllInReference(calls, start, n)
    ensures forall m :: start < m <= n ==> run[m].phase != Idle
    ensures if run[n].phase == Increasing then run[n].timer == n - 1 - start else n - start >= 7
    ensures run[n].phase == Slope ==> run[n - 1].phase == Increasing || run[n - 1].phase == Stable
    ensures forall low, high :: Within(calls, start, n, low, high) ==> low <= run[n].average <= high
  {
    assert StepAt(calls, run, n - 1);
    if run[n - 1].phase == Idle {
      start := n - 1;
    } else {
      start := ActiveSince(calls, run, n - 1);
    }
    forall low, high | Within(calls, start, n, low, high) ensures low <= run[n].average <= high {
      assert Within(calls, start, n - 1, low, high);
      assert low <= calls[n - 1].pressure <= high;
    }
  }

  /** A detection comes only after seven calls that all saw the motor in the reference state. */
  lemma DetectionNeedsSeven(calls: seq<Call>, run: seq<State>, n: nat)
    requires IsRun(calls, run) && n < |calls| && Detects(run[n])
    ensures n >= 7 && AllInReference(calls, n - 7, n)
  {
    var start := ActiveSince(calls, run, n);
  }

  /** Two detections are at least eight calls apart. */
  lemma DetectionsApart(calls: seq<Call>, run: seq<State>, m: nat, n: nat)
    requires IsRun(calls, run) && m < n < |calls| && Detects(run[m]) && Detects(run[n])
    ensures n - m >= 8
  {
    var start := ActiveSince(calls, run, n);
    assert StepAt(calls, run, m);
    assert run[m + 1].phase == Idle;
  }

  /** While the detector is active the average lies between the smallest and the largest pressure
      seen since it left idle. */
  lemma AverageBounded(calls: seq<Call>, run: seq<State>, n: nat) returns (start: nat)
    requires IsRun(calls, run) && n < |run| && run[n].phase != Idle
    ensures start < n && run[start].phase == Idle && (forall m :: start < m <= n ==> run[m].phase != Idle)
    ensures exists i, j :: start <= i < n && start <= j < n &&
              calls[i].pressure <= run[n].average <= calls[j].pressure
  {
    start := ActiveSince(calls, run, n);
    var i, j := Extremes(calls, start, n);
    assert Within(calls, start, n, calls[i].pressure, calls[j].pressure);
  }

  lemma {:induction false} Extremes(calls: seq<Call>, from: nat, to: nat) returns (i: nat, j: nat)
    requires from < to <= |calls|
    ensures from <= i < to && from <= j < to
    ensures Within(calls, from, to, calls[i].pressure, calls[j].pressure)
  {
    if from + 1 == to {
      i, j := from, from;
    } else {
      i, j := Extremes(calls, from, to - 1);
      if calls[to - 1].pressure < calls[i].pressure {
        i := to - 1;
      }
      if calls[to - 1].pressure > calls[j].pressure {
        j := to - 1;
      }
    }
  }

  /** The pressure compared with last time also lies among those seen since the detector left idle. */
  lemma {:induction false} PreviousBounded(calls: seq<Call>, run: seq<State>, start: nat, n: nat, low: int, high: int)
    requires IsRun(calls, run) && start < n < |run| && run[start].phase == Idle
    requires forall m :: start < m <= n ==> run[m].phase != Idle
    requires Within(calls, start, n, low, high)
    ensures low <= run[n].previous <= high
  {
    assert StepAt(calls, run, n - 1);
    assert low <= calls[n - 1].pressure <= high;
    if start < n - 1 {
      PreviousBounded(calls, run, start, n - 1, low, high);
    }
  }

  /** No false alarm: while the pressure varies by less than 30 % and stays above the low mark, the
      detector does not see a slope. */
  lemma NoFalseAlarm(calls: seq<Call>, run: seq<State>, n: nat, low: int, high: int)
    requires IsRun(calls, run) && n < |calls|
    requires LOW_REF <= low && 7 * high <= 10 * low && Within(calls, 0, n, low, high)
    ensures !Detects(run[n])
  {
    if Detects(run[n]) {
      var start := ActiveSince(calls, run, n);
      assert StepAt(calls, run, n - 1) && low <= calls[n - 1].pressure <= high;
      var before := ActiveSince(calls, run, n - 1);
      assert Within(calls, before, n - 1, low, high);
      PreviousBounded(calls, run, before, n - 1, low, high);
    }
  }

  ghost predicate AtLeast(calls: seq<Call>, from: nat, to: nat, low: int) {
    from <= to <= |calls| && forall m :: from <= m < to ==> low <= calls[m].pressure
  }

  /** No missed drop: once the detector has been active for six calls, a pressure below 70 % of every
      one seen since it left idle is reported with the next call. */
  lemma DropDetected(calls: seq<Call>, run: seq<State>, n: nat, low: int) returns (start: nat)
    requires IsRun(calls, run) && n < |calls| && (run[n].phase == Increasing || run[n].phase == Stable)
    ensures start < n && run[start].phase == Idle && AllInReference(calls, start, n)
    ensures n - start >= 6 && AtLeast(calls, start, n, low) && calls[n].inReference
              && 10 * calls[n].pressure < 7 * low
            ==> Detects(run[n + 1])
  {
    start := ActiveSince(calls, run, n);
    var i, j := Extremes(calls, start, n);
    var least, most := calls[i].pressure, calls[j].pressure;
    assert least <= run[n].average;
    PreviousBounded(calls, run, start, n, least, most);
    assert StepAt(calls, run, n);
  }

  /** Seven calls can be enough: pressure 50 six times, then a drop. */
  lemma SevenCanBeEnough(s: State)
    requires s.phase == Idle && s.count == 0
    ensures var high, low := Call(true, 50), Call(true, 20);
            var six := Next(Next(Next(Next(Next(Next(s, high), high), high), high), high), high);
            Detects(Next(six, low))
  {
    var high := Call(true, 50);
    var a := Next(Next(s, high), high);
    assert a == State(Increasing, 1, 0, 50, 50);
    var b := Next(Next(a, high), high);
    assert b == State(Increasing, 3, 0, 50, 50);
  }

  // ----- when the pressure is taken for stable -----

  /** Call n is a reading equal to the average, late enough in the increasing phase to be counted. */
  ghost predicate EqualReading(calls: seq<Call>, run: seq<State>, n: nat) {
    && n < |calls| && n < |run|
    && run[n].phase == Increasing && calls[n].inReference && run[n].timer >= 5
    && !Dropped(calls[n].pressure, run[n].previous) && calls[n].pressure == run[n].average
  }

  /** Equal readings among the first n calls. */
  ghost function EqualReadings(calls: seq<Call>, run: seq<State>, n: nat): nat
    requires n <= |calls| && n <= |run|
  {
    if n == 0 then 0 else EqualReadings(calls, run, n - 1) + if EqualReading(calls, run, n - 1) then 1 else 0
  }

  /** The count is that of all equal readings ever, over all activations. */
  lemma {:induction false} CountsForEver(calls: seq<Call>, run: seq<State>, n: nat)
    requires IsRun(calls, run) && n < |run|
    ensures run[n].count == run[0].count + EqualReadings(calls, run, n)
  {
    if n > 0 {
      CountsForEver(calls, run, n - 1);
      assert StepAt(calls, run, n - 1);
    }
  }

  /** An increasing pressure is taken for stable exactly at an equal reading when, with those of all
      earlier activations, ten have been seen. */
  lemma StableIff(calls: seq<Call>, run: seq<State>, n: nat)
    requires IsRun(calls, run) && n < |calls| && run[n].phase == Increasing
    ensures run[n + 1].phase == Stable <==>
            EqualReading(calls, run, n) && run[0].count + EqualReadings(calls, run, n) >= COUNT_REF - 1
  {
    CountsForEver(calls, run, n);
    assert StepAt(calls, run, n);
  }

  /** Pressure 50 all the time, with the motor out of the reference state in call 15. */
  function TwoActivations(): seq<Call> {
    seq(23, k => Call(k != 15, 50))
  }

  /** The state after k more calls, once the detector has left idle at call `first`. */
  lemma {:induction false} Steady(run: seq<State>, first: nat, k: nat)
    requires IsRun(TwoActivations(), run) && first <= 16 && run[first].phase == Idle
    requires (first == 0 && run[0].count == 0 && k <= 14) || (first == 16 && run[16].count == 9 && k <= 5)
    ensures run[first + 1 + k] == State(Increasing, k, run[first].count + if k > 5 then k - 5 else 0, 50, 50)
  {
    assert StepAt(TwoActivations(), run, first + k);
    if k > 0 {
      Steady(run, first, k - 1);
    }
  }

  /** A detector that starts fresh: nine equal readings of a first activation are kept, and the first
      one of the next activation, its seventh call, already makes the pressure stable. */
  lemma OldReadingsCount(run: seq<State>)
    requires IsRun(TwoActivations(), run) && run[0].count == 0
    ensures run[16] == State(Idle, 14, 9, 50, 50)
    ensures run[22] == State(Increasing, 5, 9, 50, 50) && run[23].phase == Stable
  {
    Steady(run, 0, 14);
    assert StepAt(TwoActivations(), run, 15);
    Steady(run, 16, 5);
    assert StepAt(TwoActivations(), run, 22);
  }

  class Pipe {
    var pressureMax: int
    var pressureMca: int
    var airDetectState: Phase
    var airDetectTimerIncrease: nat
    var airDetectCountIncrease: nat
    var pressureMcaPrevious: int
    var pressureMcaAvg: int

    ghost function View(): State
      reads this
    {
      State(airDetectState, airDetectTimerIncrease, airDetectCountIncrease, pressureMcaPrevious, pressureMcaAvg)
    }

    constructor ()
      ensures View() == State(Idle, 0, 0, 0, 0) && pressureMca == 0 && pressureMax == 56
    {
      pressureMax := 56;
      pressureMca, airDetectState, airDetectTimerIncrease, airDetectCountIncrease := 0, Idle, 0, 0;
      pressureMcaPrevious, pressureMcaAvg := 0, 0;
    }

    method Update(pressure: int)
      modifies `pressureMca
      ensures pressureMca == pressure
    {
      pressureMca := pressure;
    }

    method RefreshAverage()
      modifies `pressureMcaPrevious, `pressureMcaAvg
      ensures View() == Follow(old(View()), pressureMca)
    {
      pressureMcaPrevious := pressureMca;
      pressureMcaAvg := pressureMcaAvg + 1;
      pressureMcaAvg := pressureMcaAvg + pressureMca;
      pressureMcaAvg := pressureMcaAvg / 2;
    }

    method AirIntakeDetect(inReference: bool) returns (detected: bool)
      modifies `airDetectState, `airDetectTimerIncrease, `airDetectCountIncrease, `pressureMcaPrevious, `pressureMcaAvg
      ensures View() == Next(old(View()), Call(inReference, pressureMca)) && detected == Detects(old(View()))
    {
      match airDetectState
      case Idle =>
        if inReference {
          airDetectState := Increasing;
          airDetectTimerIncrease := 0;
          pressureMcaPrevious := pressureMca;
          pressureMcaAvg := pressureMca;
        }
        return false;
      case Increasing =>
        if inReference {
          airDetectTimerIncrease := airDetectTimerIncrease + 1;
          if airDetectTimerIncrease > 5 {
            if Dropped(pressureMca, pressureMcaPrevious) {
              airDetectState := Slope;
              return false;
            }
            if pressureMca - pressureMcaAvg == 0 {
              airDetectCountIncrease := airDetectCountIncrease + 1;
              if airDetectCountIncrease >= COUNT_REF {
                airDetectState := Stable;
              }
              return false;
            }
          }
          RefreshAverage();
        } else {
          airDetectState := Idle;
        }
        return false;
      case Stable =>
        if inReference {
          if Dropped(pressureMca, pressureMcaAvg) || pressureMca < LOW_REF {
            airDetectState := Slope;
            return false;
          }
          RefreshAverage();
        } else {
          airDetectState := Idle;
        }
        return false;
      case Slope =>
        airDetectState := Idle;
        return true;
    }
  }
}
