/** What a histogram shows while calls are running. */
module Snapshots {
  import opened Strings
  import opened Registries
  import opened Histograms

  /** The observations a bucket already counts and the count does not yet. */
  ghost function Ahead<B>(s: History<B>, verb: string, k: nat): set<nat>
    requires k < N
  {
    Within(s, verb, k) - Totalled(s, verb)
  }

  /** The observations the count counts and the bucket never does, being above its bound. */
  ghost function Above<B>(s: History<B>, verb: string, k: nat): set<nat>
    requires k < N
  {
    set t | t in Totalled(s, verb) && s.calls[t].seconds > BOUNDS[k]
  }

  /**
   * In any state a bucket exceeds the count exactly when more observations are ahead in it than lie above its bound.
   */
  lemma BucketExceedsCount<B>(a: Arithmetic<B>, run: seq<History<B>>, i: nat, verb: string, k: nat)
    requires Run(a, run) && i < |run| && k < N && verb in run[i].registry.table
    ensures var s := run[i];
      && s.registry.table[verb] < |s.series|
      && var h := s.series[s.registry.table[verb]];
      && |h.buckets| == N
      && h.buckets[k] + |Above(s, verb, k)| == h.count + |Ahead(s, verb, k)|
      && (h.buckets[k] > h.count <==> |Ahead(s, verb, k)| > |Above(s, verb, k)|)
  {
    NothingIsLost(a, run, i, verb, k);
    var s := run[i];
    var w, t := Within(s, verb, k), Totalled(s, verb);
    assert Above(s, verb, k) == t - w;
    assert |w| == |w - t| + |w * t| && |t| == |t - w| + |w * t|;
  }

  lemma RunExtends<B>(a: Arithmetic<B>, run: seq<History<B>>, s: History<B>)
    requires Run(a, run) && Step(a, run[|run| - 1], s)
    ensures Run(a, run + [s])
  {
    var longer := run + [s];
    forall i: nat | i + 1 < |longer|
      ensures StepAt(a, longer, i)
    {
      if i + 1 < |run| {
        assert StepAt(a, run, i);
      }
    }
  }

  function Alone<B>(verb: string, seconds: real, table: map<string, nat>, readers: set<nat>, writer: Option<nat>,
                    p: Phase)
    : History<B>
  {
    History(Registry(table, 0, readers, writer), [], map[0 := Observation(verb, seconds, Arrived(p))], [])
  }

  /** A lone call on its way to the write lock. */
  lemma ReachesWriting<B>(a: Arithmetic<B>, name: string, seconds: real) returns (run: seq<History<B>>)
    ensures Run(a, run)
    ensures run[|run| - 1] == Alone(ToUpper(name), seconds, map[], {}, Some(0), Writing)
  {
    var verb := ToUpper(name);
    var s0: History<B> := History(Registry(map[], 0, {}, None), [], map[], []);
    run := [s0];
    var s1: History<B> := Alone(verb, seconds, map[], {}, None, Start);
    assert Enters(s0, s1, 0, name, seconds);
    RunExtends(a, run, s1);
    run := run + [s1];
    var s2: History<B> := Alone(verb, seconds, map[], {0}, None, Reading);
    assert Seeks(a, s1, s2, 0, Reading);
    RunExtends(a, run, s2);
    run := run + [s2];
    var s3: History<B> := Alone(verb, seconds, map[], {}, None, Missed);
    assert Seeks(a, s2, s3, 0, Missed);
    RunExtends(a, run, s3);
    run := run + [s3];
    var s4: History<B> := Alone(verb, seconds, map[], {}, Some(0), Writing);
    assert Seeks(a, s3, s4, 0, Writing);
    RunExtends(a, run, s4);
    run := run + [s4];
  }

  /** And there are such states: one call that has filled its first bucket and has not got to the count. */
  lemma BucketRunsAhead<B>(a: Arithmetic<B>, name: string, seconds: real)
    returns (run: seq<History<B>>, s: History<B>)
    requires seconds <= BOUNDS[0]
    ensures Run(a, run) && s == run[|run| - 1]
    ensures var verb := ToUpper(name);
      && verb in s.registry.table && s.registry.table[verb] < |s.series|
      && s.series[s.registry.table[verb]].buckets != [] && s.series[s.registry.table[verb]].buckets[0] == 1
      && s.series[s.registry.table[verb]].count == 0
  {
    var verb := ToUpper(name);
    run := ReachesWriting(a, name, seconds);
    var r := Registry(map[verb := 0], 1, {}, None);
    var call := Observation(verb, seconds, Filling(0, 0));
    var s5: History<B> := History(r, [NewSeries(a.zero)], map[0 := call], [[]]);
    assert Seeks(a, run[|run| - 1], s5, 0, Holding(0, false));
    RunExtends(a, run, s5);
    run := run + [s5];
    s := FirstFilled(a, s5, seconds, verb);
    RunExtends(a, run, s);
    run := run + [s];
  }

  lemma FirstFilled<B>(a: Arithmetic<B>, s: History<B>, seconds: real, verb: string) returns (s': History<B>)
    requires s.series == [NewSeries(a.zero)] && 0 in s.calls && seconds <= BOUNDS[0]
    requires s.calls[0] == Observation(verb, seconds, Filling(0, 0))
    ensures Step(a, s, s') && s'.registry == s.registry && |s'.series| == 1
    ensures s'.series[0].buckets != [] && s'.series[0].buckets[0] == 1 && s'.series[0].count == 0
  {
    var h := s.series[0];
    assert |h.buckets| == N && h.buckets[0] == 0;
    var filled := h.(buckets := h.buckets[0 := 1]);
    s' := s.(calls := s.calls[0 := Observation(verb, seconds, Filling(0, 1))], series := s.series[0 := filled]);
    assert Fills(s, s', 0);
  }

  /** The bounds of the buckets, in milliseconds. */
  function Milliseconds(k: nat): nat
    requires k < 7
  {
    if k == 0 then 5 else if k == 1 then 10 else if k == 2 then 50 else if k == 3 then 100
    else if k == 4 then 500 else if k == 5 then 1000 else 5000
  }

  /** At rest a bucket counts the calls that took no more than its milliseconds. */
  lemma BucketsByMilliseconds<B>(a: Arithmetic<B>, run: seq<History<B>>, i: nat, verb: string, k: nat)
    requires Run(a, run) && i < |run| && Quiescent(run[i]) && CallsOf(run[i], verb) != {} && k < 7
    ensures var s := run[i];
      && verb in s.registry.table && s.registry.table[verb] < |s.series|
      && var h := s.series[s.registry.table[verb]];
      && |h.buckets| == 7
      && h.buckets[k] ==
         |set t | t in s.calls && s.calls[t].verb == verb && 1000.0 * s.calls[t].seconds <= Milliseconds(k) as real|
  {
    HistogramIsExact(a, run, i, verb);
    var s := run[i];
    assert Milliseconds(k) as real == 1000.0 * BOUNDS[k];
    assert (set t | t in s.calls && s.calls[t].verb == verb &&
                    1000.0 * s.calls[t].seconds <= Milliseconds(k) as real) == WithinBound(s, verb, k);
  }
}
