/** The DB handle (db.go): reads through the hot cache, writes that invalidate it, prefix iterators,
    and Close. Every call is one atomic step here. The parameter `engine` of a call says whether the
    engine carries out what the call asks of it; an engine call that fails changes nothing. */
module Database {
  import opened ByteStrings
  import opened Pebble
  import Sketch
  import TinyLFU

  datatype Error = ErrDBClosed | ErrInvalidKey | ErrWriteThrottled | ErrDuplicateKey | ErrEngine

  datatype Result<+T> = Ok(value: T) | Fail(error: Error)

  ghost predicate NonEmptyKeys(ops: seq<Op>) {
    forall i :: 0 <= i < |ops| ==> ops[i].key != []
  }

  lemma {:induction false} UnlistedKeyUntouched(ops: seq<Op>, k: Bytes)
    requires forall i :: 0 <= i < |ops| ==> ops[i].key != k
    ensures EffectOf(ops, k) == Untouched
  {
    if |ops| > 0 { UnlistedKeyUntouched(ops[..|ops| - 1], k); }
  }

  class DB {
    var store: KV
    const hot: TinyLFU.TinyLFU?
    var closed: bool
    ghost var Repr: set<object>

    /** A cached value is the stored value. */
    ghost predicate Coherent()
      reads this, hot
    {
      hot != null ==> forall k :: k in hot.cache ==> Lookup(store, k) == Some(hot.cache[k].value)
    }

    /** The cache lies inside Repr, apart from the handle itself. */
    ghost predicate Framed()
      reads this, Repr
    {
      && this in Repr
      && (hot != null ==> hot in Repr && hot.Repr() <= Repr && this !in hot.Repr() && hot.Valid())
    }

    ghost predicate Valid()
      reads this, Repr
      ensures Valid() ==> this in Repr
    {
      Framed() && Coherent()
    }

    constructor (hot: TinyLFU.TinyLFU?)
      requires hot != null ==> hot.Valid() && hot.cache == map[]
      ensures Valid() && store == map[] && !closed && this.hot == hot
      ensures fresh(Repr - if hot == null then {} else hot.Repr())
    {
      this.store := map[];
      this.hot := hot;
      this.closed := false;
      this.Repr := {this} + if hot == null then {} else hot.Repr();
    }

    /** Get: what is stored, whether or not it came from the cache; a hit does not need the engine. */
    method Get(key: Bytes, now: int, engine: bool := true) returns (r: Result<Option<Bytes>>)
      requires Valid()
      modifies Repr
      ensures Valid() && fresh(Repr - old(Repr))
      ensures store == old(store) && closed == old(closed)
      ensures closed ==> r == Fail(ErrDBClosed)
      ensures !closed && key == [] ==> r == Fail(ErrInvalidKey)
      ensures !closed && key != [] ==>
        if !engine && (hot == null || key !in old(hot.cache)) then r == Fail(ErrEngine)
        else r == Ok(Lookup(store, key)) || (!engine && r == Fail(ErrEngine))
      ensures !closed && key != [] && hot != null && key in old(hot.cache) && now <= old(hot.cache[key].expiresAt) ==>
        r == Ok(Lookup(store, key))
      ensures !closed && key in store && key != [] && engine && hot != null
        && !(key in old(hot.cache) && now <= old(hot.cache[key].expiresAt))
        && multiset(old(hot.sketch.recent))[key] + 1 >= hot.admThreshold && |key| + |store[key]| + 128 <= hot.maxItemBytes
        ==> hot.Holds(key, store[key], now + hot.ttl)
    {
      hide TinyLFU.TinyLFU.Valid;
      if closed { return Fail(ErrDBClosed); }
      if key == [] { return Fail(ErrInvalidKey); }
      if hot != null {
        var cached := hot.Get(key, now);
        if cached.Some? { return Ok(cached); }
      }
      if !engine { return Fail(ErrEngine); }
      if key !in store {
        if hot != null { hot.Delete(key); }
        return Ok(None);
      }
      var result := store[key];
      Refill(key, result, now);
      return Ok(Some(result));
    }

    /** The tail of Get: count the access and cache the value if the key is hot enough; it always is when
        it was seen often enough since the last halving of the counters, and before the first halving it
        is not when it was seen less often and has a counter to itself. */
    method Refill(key: Bytes, value: Bytes, now: int)
      requires Valid() && Lookup(store, key) == Some(value)
      modifies Repr
      ensures Valid() && fresh(Repr - old(Repr))
      ensures store == old(store) && closed == old(closed)
      ensures hot != null
          && multiset(old(hot.sketch.recent))[key] + 1 >= hot.admThreshold && |key| + |value| + 128 <= hot.maxItemBytes
        ==> hot.Holds(key, value, now + hot.ttl)
      ensures hot != null
          && |old(hot.sketch.seen)| < 1_000_000 && old(hot.sketch.Apart(key))
          && multiset(old(hot.sketch.seen))[key] + 1 < hot.admThreshold
        ==> hot.cache == old(hot.cache)
    {
      hide TinyLFU.TinyLFU.Valid, Sketch.CountMinSketch.Apart, Coherent;
      if hot != null {
        ghost var before := hot.cache;
        CoherentCache(before);
        var admit := hot.Record(key);
        if admit { hot.Set(key, value, now); }
        Repr := Repr + hot.Repr();
        CoherentStays(before, key, value);
      }
    }

    lemma CoherentCache(cache: map<Bytes, TinyLFU.Entry>)
      requires hot != null && Coherent() && cache == hot.cache
      ensures forall k :: k in cache ==> Lookup(store, k) == Some(cache[k].value)
    {
    }

    lemma CoherentStays(before: map<Bytes, TinyLFU.Entry>, key: Bytes, value: Bytes)
      requires hot != null && Lookup(store, key) == Some(value)
      requires forall k :: k in before ==> Lookup(store, k) == Some(before[k].value)
      requires forall k :: k in hot.cache ==>
        (k in before && hot.cache[k] == before[k]) || (k == key && hot.cache[k].value == value)
      ensures Coherent()
    {
    }

    method Invalidate(key: Bytes)
      requires Framed()
      modifies Repr
      ensures store == old(store) && closed == old(closed)
      ensures Repr == old(Repr)
      ensures Framed()
      ensures hot != null ==> hot.cache == old(hot.cache) - {key}
    {
      if hot != null { hot.Delete(key); }
    }

    /** PutSync: straight to the engine. */
    method PutSync(key: Bytes, value: Bytes, engine: bool := true) returns (r: Result<()>)
      requires Valid()
      modifies Repr
      ensures Valid() && Repr == old(Repr) && closed == old(closed)
      ensures r == if closed then Fail(ErrDBClosed) else if key == [] then Fail(ErrInvalidKey)
                   else if engine then Ok(()) else Fail(ErrEngine)
      ensures store == if r.Ok? then old(store)[key := value] else old(store)
    {
      if closed { return Fail(ErrDBClosed); }
      if key == [] { return Fail(ErrInvalidKey); }
      if !engine { return Fail(ErrEngine); }
      store := store[key := value];
      Invalidate(key);
      return Ok(());
    }

    /** Put and Delete: through the write queue, which may refuse the operation. */
    method Submit(op: Op, accepted: bool, engine: bool := true) returns (r: Result<()>)
      requires Valid()
      modifies Repr
      ensures Valid() && Repr == old(Repr) && closed == old(closed)
      ensures r == if closed then Fail(ErrDBClosed)
                   else if op.key == [] then Fail(ErrInvalidKey)
                   else if !accepted then Fail(ErrWriteThrottled)
                   else if engine then Ok(()) else Fail(ErrEngine)
      ensures store == if r.Ok? then ApplyOp(old(store), op) else old(store)
    {
      if closed { return Fail(ErrDBClosed); }
      if op.key == [] { return Fail(ErrInvalidKey); }
      if !accepted { return Fail(ErrWriteThrottled); }
      if !engine { return Fail(ErrEngine); }
      match op {
        case Put(key, value) => store := store[key := value];
        case Delete(key) => store := store - {key};
      }
      Invalidate(op.key);
      return Ok(());
    }

    /** WriteBatch: all operations in order, or none when the handle is closed or a key is empty. */
    method WriteBatch(ops: seq<Op>, engine: bool := true) returns (r: Result<()>)
      requires Valid()
      modifies Repr
      ensures Valid() && Repr == old(Repr) && closed == old(closed)
      ensures closed ==> r == Fail(ErrDBClosed)
      ensures !closed ==>
        r == if !NonEmptyKeys(ops) then Fail(ErrInvalidKey) else if engine then Ok(()) else Fail(ErrEngine)
      ensures store == if r.Ok? then Apply(old(store), ops) else old(store)
    {
      if closed { return Fail(ErrDBClosed); }
      var batch: seq<Op> := [];
      for i := 0 to |ops|
        invariant batch == ops[..i]
        invariant forall j :: 0 <= j < i ==> ops[j].key != []
      {
        if ops[i].key == [] { return Fail(ErrInvalidKey); }
        batch := batch + [ops[i]];
      }
      assert batch == ops;
      if !engine { return Fail(ErrEngine); }
      store := Apply(store, batch);
      InvalidateAll(ops);
      forall k | k !in (set i | 0 <= i < |ops| :: ops[i].key)
        ensures Lookup(store, k) == Lookup(old(store), k)
      {
        assert forall i :: 0 <= i < |ops| ==> ops[i].key in (set j | 0 <= j < |ops| :: ops[j].key);
        UnlistedKeyUntouched(ops, k);
        ApplyLookup(old(store), ops, k);
      }
      return Ok(());
    }

    method InvalidateAll(ops: seq<Op>)
      requires Framed()
      modifies Repr
      ensures store == old(store) && closed == old(closed)
      ensures Repr == old(Repr)
      ensures Framed()
      ensures hot != null ==> hot.cache == old(hot.cache) - (set i | 0 <= i < |ops| :: ops[i].key)
    {
      hide TinyLFU.TinyLFU.Valid;
      if hot == null { return; }
      for i := 0 to |ops|
        invariant store == old(store) && closed == old(closed)
        invariant Repr == old(Repr)
        invariant Framed()
        invariant hot.cache == old(hot.cache) - (set j | 0 <= j < i :: ops[j].key)
      {
        Invalidate(ops[i].key);
      }
    }

    /** The cache's background sweep. */
    method Sweep(now: int)
      requires Valid()
      modifies Repr
      ensures Valid() && Repr == old(Repr) && store == old(store) && closed == old(closed)
      ensures hot != null && |hot.lru| > 0 ==> now <= hot.lru[|hot.lru| - 1].expiresAt
      ensures hot != null ==> hot.lru <= old(hot.lru)
      ensures hot != null ==> forall i :: |hot.lru| <= i < |old(hot.lru)| ==> now > old(hot.lru)[i].expiresAt
    {
      if hot != null { hot.SweepExpired(now); }
    }

    /** Iterate: a snapshot scan of one prefix; none on a closed handle, for an empty prefix, or when
        the engine gives no iterator. */
    method Iterate(prefix: Bytes, engine: bool := true) returns (it: PrefixIterator?)
      requires Valid()
      ensures it == null <==> closed || prefix == [] || !engine
      ensures it != null ==> fresh(it) && fresh(it.iter) && it.Inv()
      ensures it != null ==> it.iter.snapshot == store && it.prefix == prefix
      ensures it != null ==> it.Remaining() == ScanKeys(store, prefix)
    {
      if closed || prefix == [] || !engine { return null; }
      it := new PrefixIterator(store, prefix);
    }

    /** Close: the handle is closed from then on, whatever the engine reports. */
    method Close(engine: bool := true) returns (r: Result<()>)
      requires Valid()
      modifies this
      ensures Valid() && Repr == old(Repr) && closed && store == old(store)
      ensures r == if old(closed) then Fail(ErrDBClosed) else if engine then Ok(()) else Fail(ErrEngine)
    {
      if closed { return Fail(ErrDBClosed); }
      closed := true;
      return if engine then Ok(()) else Fail(ErrEngine);
    }
  }

  // ---------------------------------------------------------------- whole runs

  /** `engine`: whether the engine carries out its part of the call. */
  datatype Call =
    | CallGet(key: Bytes, now: int, engine: bool)
    | CallSubmit(op: Op, accepted: bool, engine: bool)
    | CallPutSync(key: Bytes, value: Bytes, engine: bool)
    | CallWriteBatch(ops: seq<Op>, engine: bool)
    | CallSweep(now: int)
    | CallClose(engine: bool)

  datatype Reply = Got(r: Result<Option<Bytes>>) | Wrote(w: Result<()>) | Silent

  datatype Engine = Engine(store: KV, closed: bool)

  /** The handle without any cache: one call. */
  ghost function PlainStep(e: Engine, c: Call): (Engine, Reply) {
    match c
    case CallGet(key, _, engine) =>
      var r := if e.closed then Fail(ErrDBClosed) else if key == [] then Fail(ErrInvalidKey)
               else if engine then Ok(Lookup(e.store, key)) else Fail(ErrEngine);
      (e, Got(r))
    case CallSubmit(op, accepted, engine) =>
      var r := if e.closed then Fail(ErrDBClosed) else if op.key == [] then Fail(ErrInvalidKey)
               else if !accepted then Fail(ErrWriteThrottled) else if engine then Ok(()) else Fail(ErrEngine);
      (if r.Ok? then e.(store := ApplyOp(e.store, op)) else e, Wrote(r))
    case CallPutSync(key, value, engine) =>
      var r := if e.closed then Fail(ErrDBClosed) else if key == [] then Fail(ErrInvalidKey)
               else if engine then Ok(()) else Fail(ErrEngine);
      (if r.Ok? then e.(store := e.store[key := value]) else e, Wrote(r))
    case CallWriteBatch(ops, engine) =>
      var r := if e.closed then Fail(ErrDBClosed) else if !NonEmptyKeys(ops) then Fail(ErrInvalidKey)
               else if engine then Ok(()) else Fail(ErrEngine);
      (if r.Ok? then e.(store := Apply(e.store, ops)) else e, Wrote(r))
    case CallSweep(_) => (e, Silent)
    case CallClose(engine) =>
      (e.(closed := true), Wrote(if e.closed then Fail(ErrDBClosed) else if engine then Ok(()) else Fail(ErrEngine)))
  }

  ghost function PlainRun(e: Engine, calls: seq<Call>): (r: (Engine, seq<Reply>))
    ensures |r.1| == |calls|
  {
    if |calls| == 0 then (e, [])
    else
      var n := |calls| - 1;
      var (e1, replies) := PlainRun(e, calls[..n]);
      var (e2, reply) := PlainStep(e1, calls[n]);
      (e2, replies + [reply])
  }

  /** A reply is the plain one, or a Get that the engine would have failed was answered from the
      cache, with what is stored. */
  ghost predicate Answers(e: Engine, c: Call, reply: Reply) {
    || reply == PlainStep(e, c).1
    || (c.CallGet? && !c.engine && !e.closed && c.key in e.store && reply == Got(Ok(Some(e.store[c.key]))))
  }

  method Perform(db: DB, c: Call) returns (reply: Reply)
    requires db.Valid()
    modifies db.Repr
    ensures db.Valid() && fresh(db.Repr - old(db.Repr))
    ensures Engine(db.store, db.closed) == PlainStep(Engine(old(db.store), old(db.closed)), c).0
    ensures Answers(Engine(old(db.store), old(db.closed)), c, reply)
    ensures db.hot == null ==> reply == PlainStep(Engine(old(db.store), old(db.closed)), c).1
  {
    match c
    case CallGet(key, now, engine) => var r := db.Get(key, now, engine); reply := Got(r);
    case CallSubmit(op, accepted, engine) => var w := db.Submit(op, accepted, engine); reply := Wrote(w);
    case CallPutSync(key, value, engine) => var w := db.PutSync(key, value, engine); reply := Wrote(w);
    case CallWriteBatch(ops, engine) => var w := db.WriteBatch(ops, engine); reply := Wrote(w);
    case CallSweep(now) => db.Sweep(now); reply := Silent;
    case CallClose(engine) => var w := db.Close(engine); reply := Wrote(w);
  }

  lemma EmptyRun(e: Engine)
    ensures PlainRun(e, []) == (e, [])
  {
  }

  lemma PlainRunStep(e: Engine, calls: seq<Call>, i: nat)
    requires i < |calls|
    ensures var (e1, replies) := PlainRun(e, calls[..i]);
      PlainRun(e, calls[..i + 1]) == (PlainStep(e1, calls[i]).0, replies + [PlainStep(e1, calls[i]).1])
  {
    hide PlainStep;
    assert calls[..i + 1][..i] == calls[..i];
  }

  /** Transparency: any sequence of calls, sweeps and admissions included, leaves the plain engine's
      state and is answered as if there were no cache, except that a hit may spare a Get an engine
      error. */
  method Replay(db: DB, calls: seq<Call>) returns (replies: seq<Reply>)
    requires db.Valid()
    modifies db.Repr
    ensures db.Valid() && fresh(db.Repr - old(db.Repr)) && |replies| == |calls|
    ensures Engine(db.store, db.closed) == PlainRun(Engine(old(db.store), old(db.closed)), calls).0
    ensures forall i :: 0 <= i < |calls| ==>
      Answers(PlainRun(Engine(old(db.store), old(db.closed)), calls[..i]).0, calls[i], replies[i])
    ensures db.hot == null || (forall i :: 0 <= i < |calls| && calls[i].CallGet? ==> calls[i].engine) ==>
      replies == PlainRun(Engine(old(db.store), old(db.closed)), calls).1
  {
    hide PlainStep, PlainRun, Answers, DB.Valid;
    ghost var e := Engine(db.store, db.closed);
    ghost var exact := db.hot == null || (forall i :: 0 <= i < |calls| && calls[i].CallGet? ==> calls[i].engine);
    replies := [];
    EmptyRun(e);
    assert calls[..0] == [];
    for i := 0 to |calls|
      invariant db.Valid() && fresh(db.Repr - old(db.Repr)) && |replies| == i
      invariant Engine(db.store, db.closed) == PlainRun(e, calls[..i]).0
      invariant forall j :: 0 <= j < i ==> Answers(PlainRun(e, calls[..j]).0, calls[j], replies[j])
      invariant exact ==> replies == PlainRun(e, calls[..i]).1
    {
      PlainRunStep(e, calls, i);
      var reply := Perform(db, calls[i]);
      replies := replies + [reply];
    }
    assert calls[..|calls|] == calls;
  }

  /** The same run on a handle with a cache and on one without: equal stores, and equal answers
      unless the engine fails a Get. */
  method ReplayBoth(cached: DB, plain: DB, calls: seq<Call>) returns (a: seq<Reply>, b: seq<Reply>)
    requires cached.Valid() && plain.Valid() && plain.hot == null && cached.Repr !! plain.Repr
    requires cached.store == plain.store && cached.closed == plain.closed
    modifies cached.Repr, plain.Repr
    ensures cached.store == plain.store && cached.closed == plain.closed && |a| == |b| == |calls|
    ensures forall i :: 0 <= i < |calls| && (calls[i].CallGet? ==> calls[i].engine) ==> a[i] == b[i]
  {
    hide DB.Valid;
    ghost var e := Engine(cached.store, cached.closed);
    a := Replay(cached, calls);
    b := Replay(plain, calls);
    forall i | 0 <= i < |calls| && (calls[i].CallGet? ==> calls[i].engine) ensures a[i] == b[i] {
      PlainReplyAt(e, calls, i);
    }
  }

  lemma {:induction false} PlainReplyAt(e: Engine, calls: seq<Call>, i: nat)
    requires i < |calls|
    ensures PlainRun(e, calls).1[i] == PlainStep(PlainRun(e, calls[..i]).0, calls[i]).1
    decreases |calls|
  {
    var n := |calls| - 1;
    if i < n {
      PlainReplyAt(e, calls[..n], i);
      assert calls[..n][..i] == calls[..i];
    }
  }
}
