/** Get and the writes share the handle's read lock, so a commit can fall between a Get's reading of
    the engine and its cache refill (db.go:164-309). The steps of both, interleaved freely, and
    exactly which commit makes the hot cache disagree with the engine. */
module CacheRace {
  import opened ByteStrings
  import opened Pebble

  /** A Get that has missed the cache, and one that has read the engine but not yet refilled. */
  datatype Reader = NotReading | Missed(key: Bytes) | HasRead(key: Bytes, value: Option<Bytes>)

  /** A write that has committed and has these keys still to invalidate. */
  datatype Writer = NotWriting | HasCommitted(keys: seq<Bytes>)

  datatype State = State(store: KV, cache: KV, readers: seq<Reader>, writers: seq<Writer>)

  datatype Step =
    | Miss(r: nat, key: Bytes)
    | Read(r: nat)
    | Refill(r: nat, admit: bool)
    | Commit(w: nat, ops: seq<Op>)
    | Invalidate(w: nat)
    | Return(w: nat)
    | Evict(key: Bytes)

  function Keys(ops: seq<Op>): (ks: seq<Bytes>)
    ensures |ks| == |ops|
  {
    seq(|ops|, i requires 0 <= i < |ops| => ops[i].key)
  }

  predicate Enabled(s: State, step: Step) {
    match step
    case Miss(r, key) => r < |s.readers| && s.readers[r].NotReading? && key !in s.cache
    case Read(r) => r < |s.readers| && s.readers[r].Missed?
    case Refill(r, _) => r < |s.readers| && s.readers[r].HasRead?
    case Commit(w, _) => w < |s.writers| && s.writers[w].NotWriting?
    case Invalidate(w) => w < |s.writers| && s.writers[w].HasCommitted? && s.writers[w].keys != []
    case Return(w) => w < |s.writers| && s.writers[w] == HasCommitted([])
    case Evict(_) => true
  }

  function Next(s: State, step: Step): State
    requires Enabled(s, step)
  {
    match step
    case Miss(r, key) => s.(readers := s.readers[r := Missed(key)])
    case Read(r) => s.(readers := s.readers[r := HasRead(s.readers[r].key, Lookup(s.store, s.readers[r].key))])
    case Refill(r, admit) =>
      var HasRead(key, value) := s.readers[r];
      s.(readers := s.readers[r := NotReading],
         cache := if value.None? then s.cache - {key} else if admit then s.cache[key := value.value] else s.cache)
    case Commit(w, ops) => s.(store := Apply(s.store, ops), writers := s.writers[w := HasCommitted(Keys(ops))])
    case Invalidate(w) =>
      var keys := s.writers[w].keys;
      s.(cache := s.cache - {keys[0]}, writers := s.writers[w := HasCommitted(keys[1..])])
    case Return(w) => s.(writers := s.writers[w := NotWriting])
    case Evict(key) => s.(cache := s.cache - {key})
  }

  /** Some write has committed this key and not invalidated it yet. */
  predicate InTransit(s: State, key: Bytes) {
    exists w :: 0 <= w < |s.writers| && s.writers[w].HasCommitted? && key in s.writers[w].keys
  }

  /** A reader holds a value of this key for its refill. */
  predicate Holds(s: State, r: nat, key: Bytes, value: Bytes) {
    r < |s.readers| && s.readers[r] == HasRead(key, Some(value))
  }

  /** A commit that changes a value some Get holds. */
  predicate Harmful(s: State, step: Step) {
    && step.Commit?
    && exists r :: 0 <= r < |s.readers| && s.readers[r].HasRead? && s.readers[r].value.Some?
         && Lookup(Apply(s.store, step.ops), s.readers[r].key) != s.readers[r].value
  }

  /** Cached values are stored values, apart from keys between commit and invalidation, and so are the
      values that Gets are about to cache. */
  ghost predicate Coherent(s: State) {
    && (forall k :: k in s.cache ==> InTransit(s, k) || Lookup(s.store, k) == Some(s.cache[k]))
    && (forall r, key, value :: Holds(s, r, key, value) ==> Lookup(s.store, key) == Some(value))
  }

  lemma {:induction false} UnlistedKey(ops: seq<Op>, k: Bytes)
    requires k !in Keys(ops)
    ensures EffectOf(ops, k) == Untouched
  {
    if |ops| > 0 {
      var n := |ops| - 1;
      assert Keys(ops)[n] == ops[n].key;
      assert forall i :: 0 <= i < n ==> Keys(ops[..n])[i] == Keys(ops)[i];
      UnlistedKey(ops[..n], k);
    }
  }

  /** A key leaves transit only by being invalidated. */
  lemma StaysInTransit(s: State, step: Step, k: Bytes)
    requires Enabled(s, step)
    ensures InTransit(s, k) && !InTransit(Next(s, step), k) ==> k !in Next(s, step).cache
    ensures step.Commit? && k in Keys(step.ops) ==> InTransit(Next(s, step), k)
  {
    hide Apply, Keys;
    var s' := Next(s, step);
    if InTransit(s, k) {
      var w :| 0 <= w < |s.writers| && s.writers[w].HasCommitted? && k in s.writers[w].keys;
      if step.Invalidate? && step.w == w {
        assert s.writers[w].keys == [s.writers[w].keys[0]] + s.writers[w].keys[1..];
        assert s'.writers[w] == HasCommitted(s.writers[w].keys[1..]);
      } else {
        assert s'.writers[w] == s.writers[w];
      }
    }
    if step.Commit? { assert s'.writers[step.w] == HasCommitted(Keys(step.ops)); }
  }

  lemma CacheStaysCoherent(s: State, step: Step, k: Bytes)
    requires Coherent(s) && Enabled(s, step)
    requires k in Next(s, step).cache && !InTransit(Next(s, step), k)
    ensures Lookup(Next(s, step).store, k) == Some(Next(s, step).cache[k])
  {
    hide Apply, Keys, InTransit;
    StaysInTransit(s, step, k);
    match step
    case Commit(_, ops) =>
      UnlistedKey(ops, k);
      ApplyLookup(s.store, ops, k);
    case Refill(r, _) =>
      if s.readers[r].value.Some? { assert Holds(s, r, s.readers[r].key, s.readers[r].value.value); }
    case _ =>
  }

  /** The exact condition: a step takes a coherent state to a coherent one unless, and only unless,
      it commits a change to a value that some Get holds. */
  lemma CoherentIff(s: State, step: Step)
    requires Coherent(s) && Enabled(s, step)
    ensures Coherent(Next(s, step)) <==> !Harmful(s, step)
  {
    hide Apply, Keys, InTransit;
    var s' := Next(s, step);
    if Harmful(s, step) {
      var r :| 0 <= r < |s.readers| && s.readers[r].HasRead? && s.readers[r].value.Some?
               && Lookup(s'.store, s.readers[r].key) != s.readers[r].value;
      assert Holds(s', r, s.readers[r].key, s.readers[r].value.value);
    } else {
      forall k | k in s'.cache && !InTransit(s', k) ensures Lookup(s'.store, k) == Some(s'.cache[k]) {
        CacheStaysCoherent(s, step, k);
      }
      forall r, key, value | Holds(s', r, key, value) ensures Lookup(s'.store, key) == Some(value) {
        if !(step.Read? && step.r == r) { assert Holds(s, r, key, value); }
      }
    }
  }

  predicate IsRun(s: State, steps: seq<Step>)
    decreases |steps|
  {
    |steps| > 0 ==> Enabled(s, steps[0]) && IsRun(Next(s, steps[0]), steps[1..])
  }

  function After(s: State, steps: seq<Step>): State
    requires IsRun(s, steps)
    decreases |steps|
  {
    if |steps| == 0 then s else After(Next(s, steps[0]), steps[1..])
  }

  predicate Harmless(s: State, steps: seq<Step>)
    requires IsRun(s, steps)
    decreases |steps|
  {
    |steps| > 0 ==> !Harmful(s, steps[0]) && Harmless(Next(s, steps[0]), steps[1..])
  }

  /** Every state of a run is coherent. */
  ghost predicate AlwaysCoherent(s: State, steps: seq<Step>)
    requires IsRun(s, steps)
    decreases |steps|
  {
    Coherent(s) && (|steps| > 0 ==> AlwaysCoherent(Next(s, steps[0]), steps[1..]))
  }

  /** A run stays coherent throughout exactly when it takes no harmful step. */
  lemma {:induction false} RunCoherentIff(s: State, steps: seq<Step>)
    requires IsRun(s, steps) && Coherent(s)
    ensures AlwaysCoherent(s, steps) <==> Harmless(s, steps)
    ensures Harmless(s, steps) ==> Coherent(After(s, steps))
    decreases |steps|
  {
    hide Coherent, Enabled, Next, Harmful;
    if |steps| > 0 {
      CoherentIff(s, steps[0]);
      if !Harmful(s, steps[0]) { RunCoherentIff(Next(s, steps[0]), steps[1..]); }
      assert AlwaysCoherent(Next(s, steps[0]), steps[1..]) ==> Coherent(Next(s, steps[0]));
    }
  }

  /** From a cold cache, in a run without harmful steps, a cache hit is what the engine holds once the
      key's writes have returned. */
  lemma HitIsCurrent(s0: State, steps: seq<Step>, key: Bytes)
    requires IsRun(s0, steps) && Harmless(s0, steps)
    requires s0.cache == map[] && forall r :: 0 <= r < |s0.readers| ==> s0.readers[r].NotReading?
    ensures var s := After(s0, steps);
      key in s.cache && !InTransit(s, key) ==> Lookup(s.store, key) == Some(s.cache[key])
  {
    hide IsRun, Harmless, After;
    RunCoherentIff(s0, steps);
  }

  /** A Get that misses, reads and refills with nothing in between: if the key is stored and admitted its
      value is cached, if it is not stored it is in the cache no longer, and all else is as before. */
  lemma GetAlone(s: State, r: nat, key: Bytes, admit: bool)
    requires r < |s.readers| && s.readers[r] == NotReading && key !in s.cache
    ensures var steps := [Miss(r, key), Read(r), Refill(r, admit)];
      && IsRun(s, steps)
      && After(s, steps)
         == s.(cache := if key in s.store && admit then s.cache[key := s.store[key]] else s.cache - {key})
  {
    var missed := s.(readers := s.readers[r := Missed(key)]);
    var holding := s.(readers := s.readers[r := HasRead(key, Lookup(s.store, key))]);
    var done := Next(holding, Refill(r, admit));
    assert holding.readers[r := NotReading] == s.readers;
    assert s.cache - {key} == s.cache;
    assert Leads(s, Miss(r, key), missed) && Leads(missed, Read(r), holding) && Leads(holding, Refill(r, admit), done);
    hide Leads, IsRun, After;
    PathIsRun([s, missed, holding, done], [Miss(r, key), Read(r), Refill(r, admit)]);
  }

  /** A write with nothing in between: the batch is in the engine and none of its keys in the cache. */
  lemma WriteAlone(s: State, w: nat, op: Op)
    requires w < |s.writers| && s.writers[w] == NotWriting
    ensures var steps := [Commit(w, [op]), Invalidate(w), Return(w)];
      && IsRun(s, steps)
      && After(s, steps) == s.(store := Apply(s.store, [op]), cache := s.cache - {op.key})
  {
    hide Apply;
    var committed := s.(store := Apply(s.store, [op]), writers := s.writers[w := HasCommitted([op.key])]);
    var invalidated := committed.(cache := s.cache - {op.key}, writers := s.writers[w := HasCommitted([])]);
    var done := s.(store := Apply(s.store, [op]), cache := s.cache - {op.key});
    assert Keys([op]) == [op.key] && [op.key][1..] == [];
    assert Leads(s, Commit(w, [op]), committed) && Leads(committed, Invalidate(w), invalidated);
    assert Leads(invalidated, Return(w), done) by { assert s.writers[w := NotWriting] == s.writers; }
    hide Leads, IsRun, After;
    PathIsRun([s, committed, invalidated, done], [Commit(w, [op]), Invalidate(w), Return(w)]);
  }

  // ---------------------------------------------------------------- what a harmful step leads to

  /** The invalidations of one committed write. */
  lemma {:induction false} DrainWriter(s: State, w: nat) returns (steps: seq<Step>)
    requires w < |s.writers| && s.writers[w].HasCommitted?
    ensures IsRun(s, steps) && After(s, steps).store == s.store && After(s, steps).readers == s.readers
    ensures After(s, steps).writers == s.writers[w := NotWriting]
    decreases |s.writers[w].keys|
  {
    if s.writers[w].keys == [] {
      steps := [Return(w)];
      assert steps[1..] == [];
    } else {
      var s1 := Next(s, Invalidate(w));
      var rest := DrainWriter(s1, w);
      steps := [Invalidate(w)] + rest;
      assert steps[1..] == rest;
      assert s1.writers[w := NotWriting] == s.writers[w := NotWriting];
    }
  }

  /** Every harmful step can leave a stale entry behind when both calls have returned. */
  lemma HarmLeavesStale(s: State, step: Step) returns (r: nat, steps: seq<Step>)
    requires Enabled(s, step) && Harmful(s, step)
    ensures r < |s.readers| && s.readers[r].HasRead?
    ensures IsRun(s, [step] + steps)
    ensures var s' := After(s, [step] + steps);
      var key := s.readers[r].key;
      && s'.readers == s.readers[r := NotReading] && s'.writers == s.writers
      && key in s'.cache && Lookup(s'.store, key) != Some(s'.cache[key])
  {
    hide Apply, Keys;
    r :| 0 <= r < |s.readers| && s.readers[r].HasRead? && s.readers[r].value.Some?
         && Lookup(Apply(s.store, step.ops), s.readers[r].key) != s.readers[r].value;
    var s1 := Next(s, step);
    var drain := DrainWriter(s1, step.w);
    RunAppend(s1, drain, Refill(r, true));
    steps := drain + [Refill(r, true)];
    assert ([step] + steps)[1..] == steps;
    assert s1.writers[step.w := NotWriting] == s.writers;
  }

  lemma {:induction false} RunAppend(s: State, steps: seq<Step>, last: Step)
    requires IsRun(s, steps) && Enabled(After(s, steps), last)
    ensures IsRun(s, steps + [last]) && After(s, steps + [last]) == Next(After(s, steps), last)
    decreases |steps|
  {
    hide Enabled, Next;
    if |steps| == 0 {
      assert steps + [last] == [last] && [last][1..] == [];
    } else {
      RunAppend(Next(s, steps[0]), steps[1..], last);
      assert (steps + [last])[1..] == steps[1..] + [last];
    }
  }

  predicate Leads(s: State, step: Step, s': State) {
    Enabled(s, step) && Next(s, step) == s'
  }

  lemma {:induction false} PathIsRun(states: seq<State>, steps: seq<Step>)
    requires |states| == |steps| + 1 && forall i :: 0 <= i < |steps| ==> Leads(states[i], steps[i], states[i + 1])
    ensures IsRun(states[0], steps) && After(states[0], steps) == states[|steps|]
    decreases |steps|
  {
    if |steps| > 0 {
      forall i | 0 <= i < |steps| - 1 ensures Leads(states[1..][i], steps[1..][i], states[1..][i + 1]) {
        assert Leads(states[i + 1], steps[i + 1], states[i + 2]);
      }
      PathIsRun(states[1..], steps[1..]);
    }
  }

  function OneKey(value: byte, cached: KV, reader: Reader, writer: Writer): State {
    State(map[[1] := [value]], cached, [reader], [writer])
  }

  lemma CommitLeads()
    ensures Leads(OneKey(10, map[], HasRead([1], Some([10])), NotWriting), Commit(0, [Put([1], [20])]),
      OneKey(20, map[], HasRead([1], Some([10])), HasCommitted([[1]])))
  {
    var kv: KV := map[[1] := [10]];
    assert [Put([1], [20])][1..] == [];
    assert Apply(kv, [Put([1], [20])]) == kv[[1] := [20]] == map[[1] := [20]];
    assert Keys([Put([1], [20])]) == [[1]];
  }

  lemma InvalidateLeads()
    ensures Leads(OneKey(20, map[], HasRead([1], Some([10])), HasCommitted([[1]])), Invalidate(0),
      OneKey(20, map[], HasRead([1], Some([10])), HasCommitted([])))
  {
    var cold: KV := map[];
    assert cold - {[1]} == cold && [[1]][1..] == [];
  }

  /** One such run from an empty cache: key 1 holds 10 and is rewritten to 20 while a Get of it is on
      its way; in the end the cache says 10 and nobody is left to correct it. */
  lemma StaleRun()
    ensures var s0 := OneKey(10, map[], NotReading, NotWriting);
      var steps := [Miss(0, [1]), Read(0), Commit(0, [Put([1], [20])]), Invalidate(0), Return(0), Refill(0, true)];
      IsRun(s0, steps) && After(s0, steps) == OneKey(20, map[[1] := [10]], NotReading, NotWriting)
  {
    var holding := HasRead([1], Some([10]));
    var states := [
      OneKey(10, map[], NotReading, NotWriting), OneKey(10, map[], Missed([1]), NotWriting), OneKey(10, map[], holding, NotWriting),
      OneKey(20, map[], holding, HasCommitted([[1]])), OneKey(20, map[], holding, HasCommitted([])),
      OneKey(20, map[], holding, NotWriting), OneKey(20, map[[1] := [10]], NotReading, NotWriting)];
    assert Leads(states[0], Miss(0, [1]), states[1]) && Leads(states[1], Read(0), states[2]);
    CommitLeads();
    InvalidateLeads();
    assert Leads(states[4], Return(0), states[5]) && Leads(states[5], Refill(0, true), states[6]);
    hide Leads, OneKey, IsRun, After;
    PathIsRun(states, [Miss(0, [1]), Read(0), Commit(0, [Put([1], [20])]), Invalidate(0), Return(0), Refill(0, true)]);
  }
}
