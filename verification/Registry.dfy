/**
 * The label table behind a read/write lock, and the double-checked registration every recorder goes
 * through, as interleaved steps of any number of calls.
 */
module Registries {
  import opened Strings

  /** `table` hands out one cell per label; `size` cells exist so far. */
  datatype Registry<K> = Registry(table: map<K, nat>, size: nat, readers: set<nat>, writer: Option<nat>)

  /** Where a call is: before the read lock, under it, before the write lock, under it, or holding its cell. */
  datatype Phase = Start | Reading | Missed | Writing | Holding(cell: nat, reading: bool)

  /** A call and what it does: it looks up `key`. */
  datatype Lookup<K> = Lookup(key: K, phase: Phase)

  ghost predicate Fresh<K>(r: Registry<K>) {
    r == Registry(map[], 0, {}, None)
  }

  /** One step of call `t` on the way to its cell. */
  ghost predicate Steps<K>(r: Registry<K>, r': Registry<K>, t: nat, k: K, p: Phase, p': Phase) {
    match p
    case Start => r.writer.None? && r' == r.(readers := r.readers + {t}) && p' == Reading
    case Reading =>
      if k in r.table then r' == r && p' == Holding(r.table[k], true)
      else r' == r.(readers := r.readers - {t}) && p' == Missed
    case Missed => r.writer.None? && r.readers == {} && r' == r.(writer := Some(t)) && p' == Writing
    case Writing =>
      if k in r.table then r' == r.(writer := None) && p' == Holding(r.table[k], false)
      else r' == r.(table := r.table[k := r.size], size := r.size + 1, writer := None) && p' == Holding(r.size, false)
    case Holding(cell, reading) => Releases(r, r', t, p) && p' == Holding(cell, false)
  }

  /** A call drops its read guard. */
  ghost predicate Releases<K>(r: Registry<K>, r': Registry<K>, t: nat, p: Phase) {
    p.Holding? && p.reading && r' == r.(readers := r.readers - {t})
  }

  predicate UnderRead(p: Phase) {
    p.Reading? || (p.Holding? && p.reading)
  }

  /** Every cell belongs to one label. */
  ghost predicate OneCellEach<K>(r: Registry<K>) {
    && (forall k | k in r.table :: r.table[k] < r.size)
    && (forall k, l | k in r.table && l in r.table && r.table[k] == r.table[l] :: k == l)
  }

  /** The lock is held as the phases say, and a held cell is that of its label. */
  ghost predicate Consistent<K>(r: Registry<K>, calls: map<nat, Lookup<K>>) {
    && OneCellEach(r)
    && (forall t | t in r.readers :: t in calls)
    && (forall t | t in calls :: t in r.readers <==> UnderRead(calls[t].phase))
    && (r.writer.Some? ==> r.readers == {} && r.writer.value in calls)
    && (forall t | t in calls :: r.writer == Some(t) <==> calls[t].phase == Writing)
    && (forall t | t in calls && calls[t].phase.Holding? ::
          calls[t].key in r.table && r.table[calls[t].key] == calls[t].phase.cell)
  }

  /** A label keeps the cell it was first given. */
  ghost predicate Keeps<K>(r: Registry<K>, r': Registry<K>) {
    r.size <= r'.size && forall k | k in r.table :: k in r'.table && r'.table[k] == r.table[k]
  }

  lemma RegistrationIsSafe<K>(r: Registry<K>, r': Registry<K>, calls: map<nat, Lookup<K>>, t: nat, p': Phase)
    requires Consistent(r, calls) && t in calls
    requires Steps(r, r', t, calls[t].key, calls[t].phase, p')
    ensures Consistent(r', calls[t := Lookup(calls[t].key, p')]) && Keeps(r, r')
  {
    if calls[t].phase.Writing? {
      WritingIsSafe(r, r', calls, t, p');
    }
  }

  lemma WritingIsSafe<K>(r: Registry<K>, r': Registry<K>, calls: map<nat, Lookup<K>>, t: nat, p': Phase)
    requires Consistent(r, calls) && t in calls && calls[t].phase.Writing?
    requires Steps(r, r', t, calls[t].key, Writing, p')
    ensures Consistent(r', calls[t := Lookup(calls[t].key, p')]) && Keeps(r, r')
  {
    var after := calls[t := Lookup(calls[t].key, p')];
    assert forall u | u in after && u != t :: after[u] == calls[u] && calls[u].phase != Writing;
    assert r'.readers == {} && r'.writer == None;
  }

  lemma ArrivalIsSafe<K>(r: Registry<K>, calls: map<nat, Lookup<K>>, t: nat, k: K)
    requires Consistent(r, calls) && t !in calls
    ensures Consistent(r, calls[t := Lookup(k, Start)])
  {
  }

  /** No two calls write at once, none writes while another reads, and nobody is shut out for good. */
  lemma NeverStuck<K>(r: Registry<K>, calls: map<nat, Lookup<K>>)
    requires Consistent(r, calls)
    requires exists t :: t in calls && !(calls[t].phase.Holding? && !calls[t].phase.reading)
    ensures exists t, r', p' :: t in calls && Steps(r, r', t, calls[t].key, calls[t].phase, p')
  {
    var t :| t in calls && !(calls[t].phase.Holding? && !calls[t].phase.reading);
    var who := if r.writer.Some? then r.writer.value else if r.readers != {} then Pick(r.readers) else t;
    var k, p := calls[who].key, calls[who].phase;
    var r', p' := Next(r, who, k, p);
    assert Steps(r, r', who, k, p, p');
  }

  ghost function Pick(s: set<nat>): (t: nat)
    requires s != {}
    ensures t in s
  {
    var t :| t in s;
    t
  }

  lemma Next<K>(r: Registry<K>, t: nat, k: K, p: Phase) returns (r': Registry<K>, p': Phase)
    requires p.Start? ==> r.writer.None?
    requires p.Missed? ==> r.writer.None? && r.readers == {}
    requires p.Holding? ==> p.reading
    ensures Steps(r, r', t, k, p, p')
  {
    match p
    case Start => r', p' := r.(readers := r.readers + {t}), Reading;
    case Reading =>
      if k in r.table {
        r', p' := r, Holding(r.table[k], true);
      } else {
        r', p' := r.(readers := r.readers - {t}), Missed;
      }
    case Missed => r', p' := r.(writer := Some(t)), Writing;
    case Writing =>
      if k in r.table {
        r', p' := r.(writer := None), Holding(r.table[k], false);
      } else {
        r', p' := r.(table := r.table[k := r.size], size := r.size + 1, writer := None), Holding(r.size, false);
      }
    case Holding(cell, reading) => r', p' := r.(readers := r.readers - {t}), Holding(cell, false);
  }
}
