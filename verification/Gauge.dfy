/** The in-flight gauge: one atomic up by `track_inflight`, down when a guard is dropped. */
module Gauge {
  const WRAP: nat := 0x1_0000_0000_0000_0000

  datatype State = State(gauge: nat, live: set<nat>)

  ghost predicate Tracks(s: State, s': State, guard: nat) {
    guard !in s.live && s' == State((s.gauge + 1) % WRAP, s.live + {guard})
  }

  ghost predicate Drops(s: State, s': State, guard: nat) {
    guard in s.live && s' == State((s.gauge + WRAP - 1) % WRAP, s.live - {guard})
  }

  ghost predicate Step(s: State, s': State) {
    exists guard :: Tracks(s, s', guard) || Drops(s, s', guard)
  }

  ghost predicate StepAt(run: seq<State>, i: nat)
    requires i + 1 < |run|
  {
    Step(run[i], run[i + 1])
  }

  ghost predicate Run(run: seq<State>) {
    run != [] && run[0] == State(0, {}) && forall i: nat | i + 1 < |run| :: StepAt(run, i)
  }

  /** The value an unbounded count shows in the atomic. */
  function Wrapped(n: nat): nat {
    n % WRAP
  }

  lemma WrapUp(n: nat)
    ensures (Wrapped(n) + 1) % WRAP == Wrapped(n + 1)
  {}

  lemma WrapDown(n: nat)
    ensures (Wrapped(n + 1) + WRAP - 1) % WRAP == Wrapped(n)
  {}

  lemma {:induction false} GaugeCounts(run: seq<State>, i: nat)
    requires Run(run) && i < |run|
    ensures run[i].gauge == Wrapped(|run[i].live|)
  {
    if i > 0 {
      GaugeCounts(run, i - 1);
      assert StepAt(run, i - 1);
      OneStep(run[i - 1], run[i]);
    }
  }

  lemma OneStep(s: State, s': State)
    requires Step(s, s') && s.gauge == Wrapped(|s.live|)
    ensures s'.gauge == Wrapped(|s'.live|)
  {
    if guard :| Tracks(s, s', guard) {
      assert |s'.live| == |s.live| + 1;
      WrapUp(|s.live|);
    } else {
      var guard :| Drops(s, s', guard);
      assert |s.live| == |s'.live| + 1;
      WrapDown(|s'.live|);
    }
  }

  /** The gauge is the number of live guards, and reads zero exactly when none is left (short of a wrap). */
  lemma GaugeIsLive(run: seq<State>, i: nat)
    requires Run(run) && i < |run| && |run[i].live| < WRAP
    ensures run[i].gauge == |run[i].live|
    ensures run[i].gauge == 0 <==> run[i].live == {}
  {
    GaugeCounts(run, i);
  }
}
