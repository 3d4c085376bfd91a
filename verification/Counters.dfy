/** `record_request`, run by any number of callers at once: no increment is lost. */
module Counters {
  import opened Strings
  import opened Registries

  /** The labels of `chasm_requests_total`. */
  datatype Key = Key(verb: string, route: string, status: nat)

  datatype Call = Call(key: Key, phase: Phase, counted: bool)

  datatype State = State(registry: Registry<Key>, counters: seq<nat>, calls: map<nat, Call>)

  function Lookups(calls: map<nat, Call>): map<nat, Lookup<Key>> {
    map t | t in calls :: Lookup(calls[t].key, calls[t].phase)
  }

  // ---- steps ----

  ghost predicate Init(s: State) {
    Fresh(s.registry) && s.counters == [] && s.calls == map[]
  }

  /** A new call of `record_request`. */
  ghost predicate Arrives(s: State, s': State, t: nat, verb: string, route: string, status: nat) {
    t !in s.calls && s' == s.(calls := s.calls[t := Call(Key(ToUpper(verb), route, status), Start, false)])
  }

  function Zeros(n: nat): seq<nat> {
    seq(n, _ => 0)
  }

  /**
   * A call takes the next step to its counter; with the counter in hand it only lets the lock go, once it has counted.
   */
  ghost predicate Moves(s: State, s': State, t: nat, p: Phase) {
    && t in s.calls
    && var c := s.calls[t];
    && (c.phase.Holding? ==> c.counted)
    && Steps(s.registry, s'.registry, t, c.key, c.phase, p)
    && s.registry.size <= s'.registry.size
    && s'.counters == s.counters + Zeros(s'.registry.size - s.registry.size)
    && s'.calls == s.calls[t := c.(phase := p)]
  }

  /** `fetch_add`. */
  ghost predicate Counts(s: State, s': State, t: nat) {
    && t in s.calls
    && var c := s.calls[t];
    && c.phase.Holding? && !c.counted && c.phase.cell < |s.counters|
    && s' == s.(counters := s.counters[c.phase.cell := s.counters[c.phase.cell] + 1],
                calls := s.calls[t := c.(counted := true)])
  }

  ghost predicate Step(s: State, s': State) {
    || (exists t, verb, route, status :: Arrives(s, s', t, verb, route, status))
    || (exists t, p :: Moves(s, s', t, p))
    || (exists t :: Counts(s, s', t))
  }

  ghost predicate StepAt(run: seq<State>, i: nat)
    requires i + 1 < |run|
  {
    Step(run[i], run[i + 1])
  }

  ghost predicate Run(run: seq<State>) {
    run != [] && Init(run[0]) && forall i: nat | i + 1 < |run| :: StepAt(run, i)
  }

  // ---- what every step keeps ----

  function CallsOf(s: State, k: Key): set<nat> {
    set t | t in s.calls && s.calls[t].key == k
  }

  function CountedOf(s: State, k: Key): set<nat> {
    set t | t in s.calls && s.calls[t].key == k && s.calls[t].counted
  }

  /** What is reported for a label; an unregistered one is not reported at all. */
  function Reported(s: State, k: Key): nat {
    if k in s.registry.table && s.registry.table[k] < |s.counters| then s.counters[s.registry.table[k]] else 0
  }

  ghost predicate Sound(s: State) {
    && Consistent(s.registry, Lookups(s.calls))
    && |s.counters| == s.registry.size
    && (forall t | t in s.calls && s.calls[t].counted :: s.calls[t].phase.Holding?)
    && (forall k :: Reported(s, k) == |CountedOf(s, k)|)
  }

  /** Reported numbers never fall, and a label keeps its counter. */
  ghost predicate Grows(s: State, s': State) {
    Keeps(s.registry, s'.registry) && forall k :: Reported(s, k) <= Reported(s', k)
  }

  lemma GrowsOn(a: State, b: State, c: State)
    requires Grows(a, b) && Grows(b, c)
    ensures Grows(a, c)
  {
    forall k
      ensures Reported(a, k) <= Reported(c, k)
    {
      assert Reported(a, k) <= Reported(b, k) <= Reported(c, k);
    }
  }

  lemma ArrivesIsSound(s: State, s': State, t: nat, verb: string, route: string, status: nat)
    requires Sound(s) && Arrives(s, s', t, verb, route, status)
    ensures Sound(s') && Grows(s, s')
  {
    var key := Key(ToUpper(verb), route, status);
    ArrivalIsSafe(s.registry, Lookups(s.calls), t, key);
    assert Lookups(s'.calls) == Lookups(s.calls)[t := Lookup(key, Start)];
    forall k
      ensures Reported(s', k) == |CountedOf(s', k)| == Reported(s, k)
    {
      assert CountedOf(s', k) == CountedOf(s, k);
    }
  }

  lemma MovesIsSound(s: State, s': State, t: nat, p: Phase)
    requires Sound(s) && Moves(s, s', t, p)
    ensures Sound(s') && Grows(s, s')
  {
    var c := s.calls[t];
    assert Lookups(s.calls)[t] == Lookup(c.key, c.phase);
    RegistrationIsSafe(s.registry, s'.registry, Lookups(s.calls), t, p);
    assert Lookups(s'.calls) == Lookups(s.calls)[t := Lookup(c.key, p)];
    forall k
      ensures Reported(s', k) == |CountedOf(s', k)| == Reported(s, k)
    {
      SameBooks(s, s', t, p, k);
    }
  }

  lemma SameBooks(s: State, s': State, t: nat, p: Phase, k: Key)
    requires Sound(s) && Moves(s, s', t, p) && Keeps(s.registry, s'.registry) && OneCellEach(s'.registry)
    ensures Reported(s', k) == |CountedOf(s', k)| == Reported(s, k)
  {
    SameCount(s, s', t, p, k);
    SameCalls(s, s', t, p, k);
  }

  lemma SameCalls(s: State, s': State, t: nat, p: Phase, k: Key)
    requires t in s.calls && s'.calls == s.calls[t := s.calls[t].(phase := p)]
    ensures CountedOf(s', k) == CountedOf(s, k)
  {}

  lemma SameCount(s: State, s': State, t: nat, p: Phase, k: Key)
    requires Moves(s, s', t, p) && OneCellEach(s.registry) && |s.counters| == s.registry.size
              && Keeps(s.registry, s'.registry)
    ensures Reported(s', k) == Reported(s, k)
  {
    if k in s.registry.table {
      assert s'.registry.table[k] == s.registry.table[k] < |s.counters|;
    } else if k in s'.registry.table {
      assert s'.registry.table[k] == s.registry.size && s'.counters == s.counters + [0];
    }
  }

  lemma CountsIsSound(s: State, s': State, t: nat)
    requires Sound(s) && Counts(s, s', t)
    ensures Sound(s') && Grows(s, s')
  {
    var c := s.calls[t];
    assert Lookups(s.calls)[t] == Lookup(c.key, c.phase);
    assert Lookups(s'.calls) == Lookups(s.calls);
    forall k
      ensures Reported(s', k) == |CountedOf(s', k)| && Reported(s, k) <= Reported(s', k)
    {
      if k == c.key {
        assert CountedOf(s', k) == CountedOf(s, k) + {t};
      } else {
        assert CountedOf(s', k) == CountedOf(s, k);
      }
    }
  }

  lemma StepIsSound(s: State, s': State)
    requires Sound(s) && Step(s, s')
    ensures Sound(s') && Grows(s, s')
  {
    if t, verb, route, status :| Arrives(s, s', t, verb, route, status) {
      ArrivesIsSound(s, s', t, verb, route, status);
    } else if t, p :| Moves(s, s', t, p) {
      MovesIsSound(s, s', t, p);
    } else {
      var t :| Counts(s, s', t);
      CountsIsSound(s, s', t);
    }
  }

  lemma InitIsSound(s: State)
    requires Init(s)
    ensures Sound(s)
  {
    forall k
      ensures Reported(s, k) == |CountedOf(s, k)|
    {
      assert CountedOf(s, k) == {};
    }
  }

  // ---- over whole runs ----

  lemma {:induction false} RunIsSound(run: seq<State>, i: nat)
    requires Run(run) && i < |run|
    ensures Sound(run[i])
  {
    if i == 0 {
      InitIsSound(run[0]);
    } else {
      RunIsSound(run, i - 1);
      assert StepAt(run, i - 1);
      StepIsSound(run[i - 1], run[i]);
    }
  }

  lemma GrowsAt(run: seq<State>, i: nat)
    requires Run(run) && i + 1 < |run|
    ensures Grows(run[i], run[i + 1])
  {
    RunIsSound(run, i);
    assert StepAt(run, i);
    StepIsSound(run[i], run[i + 1]);
  }

  /** Once a label has a counter it keeps it, and what it reports never falls. */
  lemma {:induction false} RunGrows(run: seq<State>, i: nat, j: nat)
    requires Run(run) && i <= j < |run|
    ensures Grows(run[i], run[j])
  {
    if i < j {
      RunGrows(run, i, j - 1);
      GrowsAt(run, j - 1);
      GrowsOn(run[i], run[j - 1], run[j]);
    }
  }

  /** A call is over when it has counted and holds no lock. */
  predicate Quiescent(s: State) {
    forall t | t in s.calls :: s.calls[t].counted && s.calls[t].phase.Holding? && !s.calls[t].phase.reading
  }

  /**
   * In every interleaving, a label reports the increments committed so far; and once every call is over,
   * the number of calls made with it.
   */
  lemma NothingIsLost(run: seq<State>, i: nat, k: Key)
    requires Run(run) && i < |run|
    ensures Reported(run[i], k) == |CountedOf(run[i], k)|
    ensures Quiescent(run[i]) ==> Reported(run[i], k) == |CallsOf(run[i], k)|
    ensures Quiescent(run[i]) ==> (k in run[i].registry.table <==> CallsOf(run[i], k) != {})
  {
    RunIsSound(run, i);
    var s := run[i];
    if Quiescent(s) {
      assert CountedOf(s, k) == CallsOf(s, k);
      RegisteredByCall(run, i, k);
      forall t | t in CallsOf(s, k)
        ensures k in s.registry.table
      {
        assert Lookups(s.calls)[t].phase.Holding?;
      }
    }
  }

  /** Only a call with that label registers a label. */
  lemma {:induction false} RegisteredByCall(run: seq<State>, i: nat, k: Key)
    requires Run(run) && i < |run|
    ensures k in run[i].registry.table ==> CallsOf(run[i], k) != {}
  {
    if i > 0 && k in run[i].registry.table {
      RegisteredByCall(run, i - 1, k);
      var s, s' := run[i - 1], run[i - 1 + 1];
      assert StepAt(run, i - 1);
      if k in s.registry.table {
        var t :| t in CallsOf(s, k);
        assert t in CallsOf(s', k);
      } else {
        var t, p :| Moves(s, s', t, p);
        assert t in CallsOf(s', k);
      }
    }
  }

  /** As long as some call is not over, some call can take a step. */
  lemma SomeoneMoves(s: State)
    requires Sound(s) && !Quiescent(s)
    ensures exists s' :: Step(s, s')
  {
    if u :| u in s.calls && s.calls[u].phase.Holding? && !s.calls[u].counted {
      CanCount(s, u);
    } else {
      var t :| t in s.calls && !(s.calls[t].counted && s.calls[t].phase.Holding? && !s.calls[t].phase.reading);
      assert t in Lookups(s.calls) && Lookups(s.calls)[t].phase == s.calls[t].phase;
      CanMove(s, t);
    }
  }

  lemma CanCount(s: State, u: nat)
    requires Sound(s) && u in s.calls && s.calls[u].phase.Holding? && !s.calls[u].counted
    ensures exists s' :: Step(s, s')
  {
    var c := s.calls[u];
    assert Lookups(s.calls)[u] == Lookup(c.key, c.phase);
    assert c.key in s.registry.table && c.phase.cell < |s.counters|;
    var s' := s.(counters := s.counters[c.phase.cell := s.counters[c.phase.cell] + 1],
                 calls := s.calls[u := c.(counted := true)]);
    assert Counts(s, s', u);
    assert Step(s, s');
  }

  lemma CanMove(s: State, t: nat)
    requires Sound(s) && t in s.calls && forall u | u in s.calls && s.calls[u].phase.Holding? :: s.calls[u].counted
    requires !(s.calls[t].phase.Holding? && !s.calls[t].phase.reading)
    ensures exists s' :: Step(s, s')
  {
    var lookups := Lookups(s.calls);
    assert t in lookups && lookups[t].phase == s.calls[t].phase;
    NeverStuck(s.registry, lookups);
    var u, r', p :| u in lookups && Steps(s.registry, r', u, lookups[u].key, lookups[u].phase, p);
    var c := s.calls[u];
    RegistrationIsSafe(s.registry, r', lookups, u, p);
    var s' := State(r', s.counters + Zeros(r'.size - s.registry.size), s.calls[u := c.(phase := p)]);
    assert Moves(s, s', u, p);
    assert Step(s, s');
  }
}
