/**
 * `record_duration`, run by any number of callers at once. The sum is kept as the bits of a float and
 * updated by compare-and-swap; what adding does to the bits is a parameter.
 */
module Histograms {
  import opened Strings
  import opened Registries
  import opened Counters

  const BOUNDS: seq<real> := [0.005, 0.01, 0.05, 0.1, 0.5, 1.0, 5.0]
  const N: nat := 7

  datatype Arithmetic<!B> = Arithmetic(zero: B, add: (B, real) -> B)

  datatype Series<B> = Series(buckets: seq<nat>, count: nat, sum: B)

  /** Where a call is. */
  datatype Stage<B> =
    | Entering(phase: Phase)
    | Filling(cell: nat, next: nat)
    | Loading(cell: nat)
    | Swapping(cell: nat, seen: B)
    | Over(cell: nat)

  datatype Observation<B> = Observation(verb: string, seconds: real, stage: Stage<B>)

  datatype Entry = Entry(call: nat, seconds: real)

  /** `log` is not part of the program: for each series, the calls whose swap succeeded, in that order. */
  datatype History<B> = History(registry: Registry<string>, series: seq<Series<B>>, calls: map<nat, Observation<B>>,
                                log: seq<seq<Entry>>)

  function PhaseOf<B>(stage: Stage<B>): Phase {
    match stage
    case Entering(p) => p
    case Filling(c, _) => Holding(c, false)
    case Loading(c) => Holding(c, false)
    case Swapping(c, _) => Holding(c, false)
    case Over(c) => Holding(c, false)
  }

  function Seekers<B>(calls: map<nat, Observation<B>>): map<nat, Lookup<string>> {
    map t | t in calls :: Lookup(calls[t].verb, PhaseOf(calls[t].stage))
  }

  // ---- steps ----

  function NewSeries<B>(zero: B): Series<B> {
    Series(Zeros(N), 0, zero)
  }

  ghost predicate Begins<B>(s: History<B>) {
    Fresh(s.registry) && s.series == [] && s.calls == map[] && s.log == []
  }

  ghost predicate Enters<B>(s: History<B>, s': History<B>, t: nat, verb: string, seconds: real) {
    t !in s.calls && s' == s.(calls := s.calls[t := Observation(ToUpper(verb), seconds, Entering(Start))])
  }

  /** The series is cloned out of the table before anything is counted. */
  function Arrived<B>(p: Phase): Stage<B> {
    if p.Holding? && !p.reading then Filling(p.cell, 0) else Entering(p)
  }

  ghost predicate Seeks<B>(a: Arithmetic<B>, s: History<B>, s': History<B>, t: nat, p: Phase) {
    && t in s.calls
    && var c := s.calls[t];
    && c.stage.Entering?
    && Steps(s.registry, s'.registry, t, c.verb, c.stage.phase, p)
    && s'.calls == s.calls[t := c.(stage := Arrived(p))]
    && if s'.registry.size == s.registry.size then s'.series == s.series && s'.log == s.log
       else s'.series == s.series + [NewSeries(a.zero)] && s'.log == s.log + [[]]
  }

  /** One bucket: counted when the duration is within its bound. */
  ghost predicate Fills<B>(s: History<B>, s': History<B>, t: nat) {
    && t in s.calls
    && var c := s.calls[t];
    && c.stage.Filling? && c.stage.cell < |s.series| && c.stage.next < N
    && var h := s.series[c.stage.cell]; var i := c.stage.next;
    && |h.buckets| == N
    && s' == s.(calls := s.calls[t := c.(stage := Filling(c.stage.cell, i + 1))],
                series := s.series[c.stage.cell :=
                            if c.seconds <= BOUNDS[i] then h.(buckets := h.buckets[i := h.buckets[i] + 1]) else h])
  }

  ghost predicate Totals<B>(s: History<B>, s': History<B>, t: nat) {
    && t in s.calls
    && var c := s.calls[t];
    && c.stage.Filling? && c.stage.cell < |s.series| && c.stage.next == N
    && var h := s.series[c.stage.cell];
    && s' == s.(calls := s.calls[t := c.(stage := Loading(c.stage.cell))],
                series := s.series[c.stage.cell := h.(count := h.count + 1)])
  }

  /** The load, or a failed swap: the call takes note of the sum it sees. The weak swap may fail for no reason. */
  ghost predicate Sees<B>(s: History<B>, s': History<B>, t: nat) {
    && t in s.calls
    && var c := s.calls[t];
    && (c.stage.Loading? || c.stage.Swapping?) && c.stage.cell < |s.series|
    && s' == s.(calls := s.calls[t := c.(stage := Swapping(c.stage.cell, s.series[c.stage.cell].sum))])
  }

  ghost predicate Swaps<B>(a: Arithmetic<B>, s: History<B>, s': History<B>, t: nat) {
    && t in s.calls
    && var c := s.calls[t];
    && c.stage.Swapping? && c.stage.cell < |s.series| == |s.log|
    && var h := s.series[c.stage.cell];
    && h.sum == c.stage.seen
    && s' == s.(calls := s.calls[t := c.(stage := Over(c.stage.cell))],
                series := s.series[c.stage.cell := h.(sum := a.add(c.stage.seen, c.seconds))],
                log := s.log[c.stage.cell := s.log[c.stage.cell] + [Entry(t, c.seconds)]])
  }

  ghost predicate Step<B>(a: Arithmetic<B>, s: History<B>, s': History<B>) {
    || (exists t, verb, seconds :: Enters(s, s', t, verb, seconds))
    || (exists t, p :: Seeks(a, s, s', t, p))
    || (exists t :: Fills(s, s', t))
    || (exists t :: Totals(s, s', t))
    || (exists t :: Sees(s, s', t))
    || (exists t :: Swaps(a, s, s', t))
  }

  ghost predicate StepAt<B>(a: Arithmetic<B>, run: seq<History<B>>, i: nat)
    requires i + 1 < |run|
  {
    Step(a, run[i], run[i + 1])
  }

  ghost predicate Run<B>(a: Arithmetic<B>, run: seq<History<B>>) {
    run != [] && Begins(run[0]) && forall i: nat | i + 1 < |run| :: StepAt(a, run, i)
  }

  // ---- what every step keeps ----

  /** How many of its increments a call has made: the buckets in order, then the count. */
  function Past<B>(stage: Stage<B>): nat {
    match stage
    case Entering(_) => 0
    case Filling(_, i) => i
    case _ => N + 1
  }

  /** The observations of a method within bound `i` that have got past that bucket. */
  ghost function Within<B>(s: History<B>, verb: string, i: nat): set<nat>
    requires i < N
  {
    set t | t in s.calls && s.calls[t].verb == verb && i < Past(s.calls[t].stage) && s.calls[t].seconds <= BOUNDS[i]
  }

  ghost function Totalled<B>(s: History<B>, verb: string): set<nat> {
    set t | t in s.calls && s.calls[t].verb == verb && N < Past(s.calls[t].stage)
  }

  /** The sum of a list of durations, added in order. */
  function Sum<B>(a: Arithmetic<B>, log: seq<Entry>): B {
    if log == [] then a.zero else a.add(Sum(a, log[..|log| - 1]), log[|log| - 1].seconds)
  }

  ghost predicate BucketsSound<B>(s: History<B>, verb: string, h: Series<B>) {
    && |h.buckets| == N
    && (forall i | 0 <= i < N :: h.buckets[i] == |Within(s, verb, i)|)
    && h.count == |Totalled(s, verb)|
  }

  /** The log holds every call that is over, once, with its duration. */
  ghost predicate LogSound<B>(s: History<B>, verb: string, log: seq<Entry>) {
    && (forall i, j | 0 <= i < j < |log| :: log[i].call != log[j].call)
    && (forall e | e in log :: e.call in s.calls && s.calls[e.call].seconds == e.seconds &&
                               s.calls[e.call].verb == verb && s.calls[e.call].stage.Over?)
    && (forall t | t in s.calls && s.calls[t].verb == verb && s.calls[t].stage.Over? ::
          Entry(t, s.calls[t].seconds) in log)
  }

  ghost predicate Sound<B>(a: Arithmetic<B>, s: History<B>) {
    && Consistent(s.registry, Seekers(s.calls))
    && |s.series| == |s.log| == s.registry.size
    && (forall t | t in s.calls ::
          Past(s.calls[t].stage) <= N + 1 && (s.calls[t].stage.Filling? ==> s.calls[t].stage.next <= N))
    && (forall verb | verb in s.registry.table ::
          var c := s.registry.table[verb];
          BucketsSound(s, verb, s.series[c]) && LogSound(s, verb, s.log[c]) && s.series[c].sum == Sum(a, s.log[c]))
  }

  /** Whoever has reached a series holds the one of its method. */
  lemma CellOf<B>(a: Arithmetic<B>, s: History<B>, t: nat)
    requires Sound(a, s) && t in s.calls
    ensures !s.calls[t].stage.Entering? ==>
              s.calls[t].verb in s.registry.table && s.registry.table[s.calls[t].verb] == s.calls[t].stage.cell
    ensures 0 < Past(s.calls[t].stage) ==> s.calls[t].verb in s.registry.table
  {
    assert Seekers(s.calls)[t] == Lookup(s.calls[t].verb, PhaseOf(s.calls[t].stage));
  }

  ghost predicate OnlyStage<B>(s: History<B>, s': History<B>, t: nat, stage: Stage<B>) {
    t in s.calls && s'.calls == s.calls[t := s.calls[t].(stage := stage)]
  }

  /** A step of one call leaves the books of the other methods alone. */
  lemma OthersUntouched<B>(s: History<B>, s': History<B>, t: nat, stage: Stage<B>, verb: string, h: Series<B>,
                           log: seq<Entry>)
    requires OnlyStage(s, s', t, stage) && BucketsSound(s, verb, h) && LogSound(s, verb, log)
    requires verb != s.calls[t].verb
              || (Past(stage) == Past(s.calls[t].stage) && !s.calls[t].stage.Over? && !stage.Over?)
    ensures BucketsSound(s', verb, h) && LogSound(s', verb, log)
  {
    assert Totalled(s', verb) == Totalled(s, verb);
    forall i | 0 <= i < N
      ensures Within(s', verb, i) == Within(s, verb, i)
    {
    }
  }

  /** No call has got past anything for a method that is not registered. */
  lemma NewIsSound<B>(a: Arithmetic<B>, s: History<B>, verb: string)
    requires Sound(a, s) && verb !in s.registry.table
    ensures BucketsSound(s, verb, NewSeries(a.zero)) && LogSound(s, verb, [])
  {
    forall t | t in s.calls && s.calls[t].verb == verb
      ensures Past(s.calls[t].stage) == 0 && !s.calls[t].stage.Over?
    {
      CellOf(a, s, t);
    }
    assert Totalled(s, verb) == {};
    forall i | 0 <= i < N
      ensures Within(s, verb, i) == {}
    {
    }
  }

  lemma EntersIsSound<B>(a: Arithmetic<B>, s: History<B>, s': History<B>, t: nat, verb: string, seconds: real)
    requires Sound(a, s) && Enters(s, s', t, verb, seconds)
    ensures Sound(a, s')
  {
    ArrivalIsSafe(s.registry, Seekers(s.calls), t, ToUpper(verb));
    assert Seekers(s'.calls) == Seekers(s.calls)[t := Lookup(ToUpper(verb), Start)];
    forall m | m in s'.registry.table
      ensures BucketsSound(s', m, s'.series[s'.registry.table[m]]) && LogSound(s', m, s'.log[s'.registry.table[m]])
    {
      NewcomerCountsNothing(s, s', t, m);
    }
  }

  lemma NewcomerCountsNothing<B>(s: History<B>, s': History<B>, t: nat, m: string)
    requires t !in s.calls && t in s'.calls && s'.calls == s.calls[t := s'.calls[t]]
              && s'.calls[t].stage == Entering(Start)
    ensures Totalled(s', m) == Totalled(s, m)
    ensures forall i | 0 <= i < N :: Within(s', m, i) == Within(s, m, i)
  {}

  lemma SeeksIsSound<B>(a: Arithmetic<B>, s: History<B>, s': History<B>, t: nat, p: Phase)
    requires Sound(a, s) && Seeks(a, s, s', t, p)
    ensures Sound(a, s')
  {
    var c := s.calls[t];
    assert Seekers(s.calls)[t] == Lookup(c.verb, c.stage.phase);
    RegistrationIsSafe(s.registry, s'.registry, Seekers(s.calls), t, p);
    assert Seekers(s'.calls) == Seekers(s.calls)[t := Lookup(c.verb, p)];
    forall m | m in s'.registry.table
      ensures var x := s'.registry.table[m];
        BucketsSound(s', m, s'.series[x]) && LogSound(s', m, s'.log[x]) && s'.series[x].sum == Sum(a, s'.log[x])
    {
      var x := s'.registry.table[m];
      if m !in s.registry.table {
        NewIsSound(a, s, m);
      }
      OthersUntouched(s, s', t, Arrived(p), m, s'.series[x], s'.log[x]);
    }
  }

  /** A step within a series: the lock and the table stay as they are. */
  lemma SameLookups<B>(a: Arithmetic<B>, s: History<B>, s': History<B>, t: nat, stage: Stage<B>)
    requires Sound(a, s) && OnlyStage(s, s', t, stage) && PhaseOf(stage) == PhaseOf(s.calls[t].stage)
    ensures Seekers(s'.calls) == Seekers(s.calls)
  {}

  lemma FillsIsSound<B>(a: Arithmetic<B>, s: History<B>, s': History<B>, t: nat)
    requires Sound(a, s) && Fills(s, s', t)
    ensures Sound(a, s')
  {
    var c := s.calls[t];
    var i := c.stage.next;
    CellOf(a, s, t);
    SameLookups(a, s, s', t, Filling(c.stage.cell, i + 1));
    forall m | m in s'.registry.table
      ensures var x := s'.registry.table[m];
        BucketsSound(s', m, s'.series[x]) && LogSound(s', m, s'.log[x]) && s'.series[x].sum == Sum(a, s'.log[x])
    {
      var x := s'.registry.table[m];
      if m != c.verb {
        OthersUntouched(s, s', t, Filling(c.stage.cell, i + 1), m, s'.series[x], s'.log[x]);
      } else {
        FilledBuckets(s, s', t, s.series[x]);
      }
    }
  }

  lemma FilledBuckets<B>(s: History<B>, s': History<B>, t: nat, h: Series<B>)
    requires Fills(s, s', t) && BucketsSound(s, s.calls[t].verb, h) && h == s.series[s.calls[t].stage.cell]
    ensures BucketsSound(s', s.calls[t].verb, s'.series[s.calls[t].stage.cell])
  {
    var c := s.calls[t];
    var g := s'.series[c.stage.cell];
    assert Totalled(s', c.verb) == Totalled(s, c.verb);
    forall j | 0 <= j < N
      ensures g.buckets[j] == |Within(s', c.verb, j)|
    {
      FilledWithin(s, s', t, j);
    }
  }

  lemma FilledWithin<B>(s: History<B>, s': History<B>, t: nat, j: nat)
    requires Fills(s, s', t) && j < N
    ensures var c := s.calls[t];
      |Within(s', c.verb, j)| == |Within(s, c.verb, j)| + if j == c.stage.next && c.seconds <= BOUNDS[j] then 1 else 0
  {
    var c := s.calls[t];
    if j == c.stage.next && c.seconds <= BOUNDS[j] {
      assert Within(s', c.verb, j) == Within(s, c.verb, j) + {t};
    } else {
      assert Within(s', c.verb, j) == Within(s, c.verb, j);
    }
  }

  lemma TotalsIsSound<B>(a: Arithmetic<B>, s: History<B>, s': History<B>, t: nat)
    requires Sound(a, s) && Totals(s, s', t)
    ensures Sound(a, s')
  {
    var c := s.calls[t];
    CellOf(a, s, t);
    SameLookups(a, s, s', t, Loading(c.stage.cell));
    forall m | m in s'.registry.table
      ensures var x := s'.registry.table[m];
        BucketsSound(s', m, s'.series[x]) && LogSound(s', m, s'.log[x]) && s'.series[x].sum == Sum(a, s'.log[x])
    {
      var x := s'.registry.table[m];
      if m != c.verb {
        OthersUntouched(s, s', t, Loading(c.stage.cell), m, s'.series[x], s'.log[x]);
      } else {
        TotalledBuckets(s, s', t, s.series[x]);
      }
    }
  }

  lemma TotalledBuckets<B>(s: History<B>, s': History<B>, t: nat, h: Series<B>)
    requires Totals(s, s', t) && BucketsSound(s, s.calls[t].verb, h) && h == s.series[s.calls[t].stage.cell]
    ensures BucketsSound(s', s.calls[t].verb, s'.series[s.calls[t].stage.cell])
    ensures forall log | LogSound(s, s.calls[t].verb, log) :: LogSound(s', s.calls[t].verb, log)
  {
    var m := s.calls[t].verb;
    assert Totalled(s', m) == Totalled(s, m) + {t};
    forall i | 0 <= i < N
      ensures Within(s', m, i) == Within(s, m, i)
    {
    }
  }

  lemma SeesIsSound<B>(a: Arithmetic<B>, s: History<B>, s': History<B>, t: nat)
    requires Sound(a, s) && Sees(s, s', t)
    ensures Sound(a, s')
  {
    var c := s.calls[t];
    var stage := Swapping(c.stage.cell, s.series[c.stage.cell].sum);
    SameLookups(a, s, s', t, stage);
    forall m | m in s'.registry.table
      ensures var x := s'.registry.table[m];
        BucketsSound(s', m, s'.series[x]) && LogSound(s', m, s'.log[x]) && s'.series[x].sum == Sum(a, s'.log[x])
    {
      var x := s'.registry.table[m];
      OthersUntouched(s, s', t, stage, m, s'.series[x], s'.log[x]);
    }
  }

  /** A swap succeeds only on the sum the call has added to, so the sum stays that of the log. */
  lemma SwapsIsSound<B>(a: Arithmetic<B>, s: History<B>, s': History<B>, t: nat)
    requires Sound(a, s) && Swaps(a, s, s', t)
    ensures Sound(a, s')
  {
    var c := s.calls[t];
    CellOf(a, s, t);
    SameLookups(a, s, s', t, Over(c.stage.cell));
    forall m | m in s'.registry.table
      ensures var x := s'.registry.table[m];
        BucketsSound(s', m, s'.series[x]) && LogSound(s', m, s'.log[x]) && s'.series[x].sum == Sum(a, s'.log[x])
    {
      var x := s'.registry.table[m];
      if m != c.verb {
        OthersUntouched(s, s', t, Over(c.stage.cell), m, s'.series[x], s'.log[x]);
      } else {
        SwappedLog(s, s', t, m, s.log[x], a);
        SwappedBuckets(a, s, s', t, m, s.series[x], s'.series[x]);
      }
    }
  }

  lemma SwappedBuckets<B>(a: Arithmetic<B>, s: History<B>, s': History<B>, t: nat, m: string, h: Series<B>,
                          h': Series<B>)
    requires Swaps(a, s, s', t) && BucketsSound(s, m, h) && h'.buckets == h.buckets && h'.count == h.count
    ensures BucketsSound(s', m, h')
  {
    assert Totalled(s', m) == Totalled(s, m);
    forall i | 0 <= i < N
      ensures Within(s', m, i) == Within(s, m, i)
    {
    }
  }

  lemma SwappedLog<B>(s: History<B>, s': History<B>, t: nat, m: string, log: seq<Entry>, a: Arithmetic<B>)
    requires Swaps(a, s, s', t) && m == s.calls[t].verb && LogSound(s, m, log)
    ensures LogSound(s', m, log + [Entry(t, s.calls[t].seconds)])
    ensures Sum(a, log + [Entry(t, s.calls[t].seconds)]) == a.add(Sum(a, log), s.calls[t].seconds)
  {
    SumGrows(a, log, Entry(t, s.calls[t].seconds));
    assert OnlyStage(s, s', t, Over(s.calls[t].stage.cell));
    LogGrows(s, s', t, m, log);
  }

  lemma SumGrows<B>(a: Arithmetic<B>, log: seq<Entry>, e: Entry)
    ensures Sum(a, log + [e]) == a.add(Sum(a, log), e.seconds)
  {
    assert (log + [e])[..|log + [e]| - 1] == log;
  }

  lemma LogGrows<B>(s: History<B>, s': History<B>, t: nat, m: string, log: seq<Entry>)
    requires t in s.calls && !s.calls[t].stage.Over? && m == s.calls[t].verb && LogSound(s, m, log)
    requires exists stage: Stage<B> :: stage.Over? && OnlyStage(s, s', t, stage)
    ensures LogSound(s', m, log + [Entry(t, s.calls[t].seconds)])
  {
    var e := Entry(t, s.calls[t].seconds);
    forall i | 0 <= i < |log|
      ensures log[i].call != t
    {
      assert log[i] in log;
    }
    assert e in log + [e];
  }

  lemma BeginsIsSound<B>(a: Arithmetic<B>, s: History<B>)
    requires Begins(s)
    ensures Sound(a, s)
  {}

  // ---- over whole runs ----

  lemma {:induction false} RunIsSound<B>(a: Arithmetic<B>, run: seq<History<B>>, i: nat)
    requires Run(a, run) && i < |run|
    ensures Sound(a, run[i])
  {
    if i == 0 {
      BeginsIsSound(a, run[0]);
    } else {
      RunIsSound(a, run, i - 1);
      var s, s' := run[i - 1], run[i - 1 + 1];
      assert StepAt(a, run, i - 1);
      if t, verb, seconds :| Enters(s, s', t, verb, seconds) {
        EntersIsSound(a, s, s', t, verb, seconds);
      } else if t, p :| Seeks(a, s, s', t, p) {
        SeeksIsSound(a, s, s', t, p);
      } else if t :| Fills(s, s', t) {
        FillsIsSound(a, s, s', t);
      } else if t :| Totals(s, s', t) {
        TotalsIsSound(a, s, s', t);
      } else if t :| Sees(s, s', t) {
        SeesIsSound(a, s, s', t);
      } else {
        var t :| Swaps(a, s, s', t);
        SwapsIsSound(a, s, s', t);
      }
    }
  }

  predicate Quiescent<B>(s: History<B>) {
    forall t | t in s.calls :: s.calls[t].stage.Over?
  }

  function CallsOf<B>(s: History<B>, verb: string): set<nat> {
    set t | t in s.calls && s.calls[t].verb == verb
  }

  /** The observations of a method that lie within bound `i`. */
  ghost function WithinBound<B>(s: History<B>, verb: string, i: nat): set<nat>
    requires i < N
  {
    set t | t in s.calls && s.calls[t].verb == verb && s.calls[t].seconds <= BOUNDS[i]
  }

  lemma {:induction false} Smaller(x: set<nat>, y: set<nat>)
    requires x <= y
    ensures |x| <= |y|
  {
    if x != {} {
      var t :| t in x;
      Smaller(x - {t}, y - {t});
    }
  }

  /**
   * In every interleaving, once every call is over, a method that was observed has a series in which each
   * bucket counts exactly the observations within its bound, the buckets rise, none exceeds the count, and
   * the sum is that of all durations of the method, each added once, in the order the swaps succeeded.
   */
  lemma HistogramIsExact<B>(a: Arithmetic<B>, run: seq<History<B>>, i: nat, verb: string)
    requires Run(a, run) && i < |run| && Quiescent(run[i]) && CallsOf(run[i], verb) != {}
    ensures var s := run[i];
      && verb in s.registry.table && s.registry.table[verb] < |s.series| == |s.log|
      && var h := s.series[s.registry.table[verb]]; var log := s.log[s.registry.table[verb]];
      && |h.buckets| == N
      && (forall k | 0 <= k < N :: h.buckets[k] == |WithinBound(s, verb, k)| && h.buckets[k] <= h.count)
      && (forall j, k | 0 <= j <= k < N :: h.buckets[j] <= h.buckets[k])
      && h.count == |CallsOf(s, verb)|
      && h.sum == Sum(a, log)
      && LogSound(s, verb, log)
  {
    RunIsSound(a, run, i);
    var s := run[i];
    var t :| t in CallsOf(s, verb);
    CellOf(a, s, t);
    var h := s.series[s.registry.table[verb]];
    assert Totalled(s, verb) == CallsOf(s, verb);
    forall k | 0 <= k < N
      ensures Within(s, verb, k) == WithinBound(s, verb, k) && h.buckets[k] <= h.count
    {
      Smaller(WithinBound(s, verb, k), CallsOf(s, verb));
    }
    forall j, k | 0 <= j <= k < N
      ensures h.buckets[j] <= h.buckets[k]
    {
      assert BOUNDS[j] <= BOUNDS[k];
      Smaller(WithinBound(s, verb, j), WithinBound(s, verb, k));
    }
  }

  /** Before that, a bucket counts exactly the observations within its bound that have got past it. */
  lemma NothingIsLost<B>(a: Arithmetic<B>, run: seq<History<B>>, i: nat, verb: string, k: nat)
    requires Run(a, run) && i < |run| && k < N && verb in run[i].registry.table
    ensures var s := run[i];
      && s.registry.table[verb] < |s.series| == |s.log|
      && var h := s.series[s.registry.table[verb]];
      && |h.buckets| == N && h.buckets[k] == |Within(s, verb, k)| && h.count == |Totalled(s, verb)|
      && h.sum == Sum(a, s.log[s.registry.table[verb]])
  {
    RunIsSound(a, run, i);
  }
}
