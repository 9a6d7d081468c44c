/** The hot-read cache (internal/cache/tinylfu.go): a byte-accounted map over a recency list, entry
    expiry, and admission by estimated frequency. */
module TinyLFU {
  import opened ByteStrings
  import opened Pebble
  import Sketch

  const ENTRY_OVERHEAD: int := 128

  class Entry {
    const key: Bytes
    const value: Bytes
    const size: int
    var expiresAt: int

    constructor (key: Bytes, value: Bytes, size: int, expiresAt: int)
      ensures this.key == key && this.value == value && this.size == size && this.expiresAt == expiresAt
    {
      this.key, this.value, this.size, this.expiresAt := key, value, size, expiresAt;
    }
  }

  function ItemSize(key: Bytes, value: Bytes): int {
    |key| + |value| + ENTRY_OVERHEAD
  }

  /** Bytes held by a stretch of the recency list. */
  function Total(es: seq<Entry>): int {
    if |es| == 0 then 0 else Total(es[..|es| - 1]) + es[|es| - 1].size
  }

  /** The list without the element of one key. */
  function Without(es: seq<Entry>, key: Bytes): (r: seq<Entry>)
    ensures forall e :: e in r ==> e in es && e.key != key
    ensures forall e :: e in es && e.key != key ==> e in r
  {
    if |es| == 0 then []
    else
      var n := |es| - 1;
      if es[n].key == key then Without(es[..n], key) else Without(es[..n], key) + [es[n]]
  }

  ghost predicate DistinctKeys(es: seq<Entry>) {
    forall i, j :: 0 <= i < j < |es| ==> es[i].key != es[j].key
  }

  lemma {:induction false} WithoutAbsent(es: seq<Entry>, key: Bytes)
    requires forall e :: e in es ==> e.key != key
    ensures Without(es, key) == es
  {
    if |es| > 0 { WithoutAbsent(es[..|es| - 1], key); }
  }

  lemma WithoutSnoc(es: seq<Entry>, x: Entry, key: Bytes)
    ensures Without(es + [x], key) == Without(es, key) + if x.key == key then [] else [x]
  {
    assert (es + [x])[..|es|] == es;
  }

  /** What is left keeps its order. */
  lemma {:induction false} WithoutMiddle(a: seq<Entry>, e: Entry, b: seq<Entry>)
    requires (forall x :: x in a ==> x.key != e.key) && forall x :: x in b ==> x.key != e.key
    ensures Without(a + [e] + b, e.key) == a + b
  {
    hide Without;
    if |b| == 0 {
      WithoutAbsent(a, e.key);
      WithoutSnoc(a, e, e.key);
      assert a + [e] + b == a + [e] && a + b == a;
    } else {
      var n := |b| - 1;
      WithoutMiddle(a, e, b[..n]);
      WithoutSnoc(a + [e] + b[..n], b[n], e.key);
      assert a + [e] + b == (a + [e] + b[..n]) + [b[n]];
      assert a + b == (a + b[..n]) + [b[n]];
    }
  }

  /** An entry is accounted with the lengths of its key and value and an overhead of 128 bytes. */
  lemma BytesOf(es: seq<Entry>, e: Entry)
    requires e.size == ItemSize(e.key, e.value)
    ensures Total([]) == 0 && Total(es + [e]) == Total(es) + |e.key| + |e.value| + 128
  {
    assert (es + [e])[..|es|] == es;
  }

  lemma {:induction false} WithoutDistinct(es: seq<Entry>, key: Bytes)
    requires DistinctKeys(es)
    ensures DistinctKeys(Without(es, key))
  {
    if |es| > 0 {
      var n := |es| - 1;
      WithoutDistinct(es[..n], key);
      var r := Without(es[..n], key);
      assert forall i :: 0 <= i < |r| ==> r[i] in es[..n];
    }
  }

  /** list.Remove takes out exactly one element. */
  lemma {:induction false} WithoutTotal(es: seq<Entry>, e: Entry)
    requires DistinctKeys(es) && e in es
    ensures Total(Without(es, e.key)) == Total(es) - e.size
    ensures |Without(es, e.key)| == |es| - 1
  {
    var n := |es| - 1;
    LastDistinct(es);
    hide DistinctKeys;
    if es[n].key == e.key {
      WithoutAbsent(es[..n], e.key);
      assert Without(es, e.key) == es[..n];
    } else {
      WithoutTotal(es[..n], e);
      TotalSnoc(Without(es[..n], e.key), es[n]);
    }
  }

  lemma LastDistinct(es: seq<Entry>)
    requires DistinctKeys(es) && |es| > 0
    ensures var n := |es| - 1;
      && DistinctKeys(es[..n]) && (forall x :: x in es[..n] ==> x.key != es[n].key)
      && (forall x :: x in es <==> x in es[..n] || x == es[n])
  {
    var n := |es| - 1;
    assert es == es[..n] + [es[n]];
  }

  lemma TotalSnoc(es: seq<Entry>, e: Entry)
    ensures Total(es + [e]) == Total(es) + e.size
  {
    assert (es + [e])[..|es|] == es;
  }

  /** How many of the youngest entries survive when the oldest are evicted one by one until the
      rest fits the budget. */
  function Survivors(es: seq<Entry>, budget: int): (n: nat)
    ensures n <= |es|
  {
    if |es| == 0 || Total(es) <= budget then |es| else Survivors(es[..|es| - 1], budget)
  }

  /** What is evicted is the shortest oldest tail that makes room. */
  lemma {:induction false} SurvivorsMaximal(es: seq<Entry>, budget: int)
    ensures var n := Survivors(es, budget);
      && (n > 0 ==> Total(es[..n]) <= budget)
      && (forall m :: n < m <= |es| ==> Total(es[..m]) > budget)
  {
    if |es| == 0 || Total(es) <= budget {
      assert es[..|es|] == es;
    } else {
      var n := |es| - 1;
      SurvivorsMaximal(es[..n], budget);
      forall m | Survivors(es, budget) < m <= |es| ensures Total(es[..m]) > budget {
        if m == |es| { assert es[..m] == es; } else { assert es[..n][..m] == es[..m]; }
      }
      assert es[..n][..Survivors(es, budget)] == es[..Survivors(es, budget)];
    }
  }

  class TinyLFU {
    const sketch: Sketch.CountMinSketch
    var cache: map<Bytes, Entry>
    var lru: seq<Entry>
    const maxBytes: int
    const maxItemBytes: int
    var curBytes: int
    const admThreshold: nat
    const ttl: int

    /** The map and the list hold the same entries, once each, and the byte count is theirs. */
    ghost predicate Accounted()
      reads this
    {
      && DistinctKeys(lru)
      && (forall e :: e in lru ==> e.key in cache && cache[e.key] == e)
      && (forall k :: k in cache ==> cache[k] in lru && cache[k].key == k)
      && (forall e :: e in lru ==> e.size == ItemSize(e.key, e.value))
      && curBytes == Total(lru)
    }

    ghost predicate Valid()
      reads this, sketch, sketch.rows
    {
      && Accounted()
      && (maxItemBytes <= maxBytes ==> curBytes <= maxBytes)
      && sketch.Valid()
    }

    ghost function Repr(): set<object>
      reads this
    {
      {this, sketch, sketch.rows} + set e: Entry | e in lru
    }

    /** A Get of the key would find this value, up to this time. */
    ghost predicate Holds(key: Bytes, value: Bytes, until: int)
      reads this, if key in cache then {cache[key]} else {}
    {
      key in cache && cache[key].value == value && cache[key].expiresAt == until
    }

    constructor (maxBytes: int, maxItemBytes: int, threshold: int, ttl: int, hash: Sketch.HashFn)
      ensures Valid() && fresh(Repr()) && lru == [] && cache == map[] && curBytes == 0
      ensures this.maxBytes == (if maxBytes <= 0 then 10 * 1024 * 1024 else maxBytes)
      ensures this.maxItemBytes == (if maxItemBytes <= 0 then 1024 * 1024 else maxItemBytes)
      ensures this.admThreshold == (if threshold <= 1 then 2 else threshold)
      ensures this.ttl == (if ttl <= 0 then 60_000_000_000 else ttl)
      ensures sketch.hash == hash && sketch.recent == [] && sketch.seen == []
    {
      this.sketch := new Sketch.CountMinSketch(hash);
      this.cache := map[];
      this.lru := [];
      this.maxBytes := if maxBytes <= 0 then 10 * 1024 * 1024 else maxBytes;
      this.maxItemBytes := if maxItemBytes <= 0 then 1024 * 1024 else maxItemBytes;
      this.curBytes := 0;
      this.admThreshold := if threshold <= 1 then 2 else threshold;
      this.ttl := if ttl <= 0 then 60_000_000_000 else ttl;
    }

    method RemoveEntry(e: Entry)
      requires Accounted() && e in lru
      modifies this
      ensures Accounted()
      ensures lru == Without(old(lru), e.key) && cache == old(cache) - {e.key}
      ensures curBytes == old(curBytes) - e.size <= old(curBytes)
    {
      WithoutDistinct(lru, e.key);
      WithoutTotal(lru, e);
      curBytes := curBytes - e.size;
      lru := Without(lru, e.key);
      cache := cache - {e.key};
    }

    method RemoveKey(key: Bytes)
      requires Accounted()
      modifies this
      ensures Accounted()
      ensures lru == Without(old(lru), key) && cache == old(cache) - {key}
      ensures curBytes <= old(curBytes)
    {
      if key in cache {
        RemoveEntry(cache[key]);
      } else {
        WithoutAbsent(lru, key);
      }
    }

    /** Get: a hit renews the expiry and nothing else, the list order included; an expired entry is
        taken out and reported as a miss. */
    method Get(key: Bytes, now: int) returns (r: Option<Bytes>)
      requires Valid()
      modifies this, set e | e in lru
      ensures Valid() && Repr() <= old(Repr())
      ensures r == if key in old(cache) && now <= old(cache[key].expiresAt) then Some(old(cache)[key].value) else None
      ensures key !in old(cache) ==> lru == old(lru) && cache == old(cache) && curBytes == old(curBytes)
      ensures r.Some? ==> lru == old(lru) && cache == old(cache) && cache[key].expiresAt == now + ttl
      ensures key in old(cache) && r.None? ==> lru == Without(old(lru), key) && cache == old(cache) - {key}
      ensures forall e :: e in old(lru) && e.key != key ==> e.expiresAt == old(e.expiresAt)
    {
      if key in cache {
        var ent := cache[key];
        if now > ent.expiresAt {
          RemoveEntry(ent);
          return None;
        }
        ent.expiresAt := now + ttl;
        return Some(ent.value);
      }
      return None;
    }

    /** Record: admitted when the least of the key's cells, this access included, reaches the threshold.
        So a key seen that often since the last halving always is; and before the first halving a key
        that has a cell to itself is admitted exactly when its own accesses reach the threshold. */
    method Record(key: Bytes) returns (admit: bool)
      requires Valid()
      modifies sketch, sketch.rows
      ensures Valid()
      ensures admit <==> forall i :: 0 <= i < 4 ==> old(sketch.Cells(key))[i] + 1 >= admThreshold
      ensures multiset(old(sketch.recent))[key] + 1 >= admThreshold ==> admit
      ensures sketch.seen == old(sketch.seen) + [key]
      ensures sketch.recent
           == if |old(sketch.recent)| == 999_999 || (|old(sketch.seen)| + 1) % 0x1_0000_0000_0000_0000 == 0
              then [] else old(sketch.recent) + [key]
      ensures |old(sketch.seen)| < 1_000_000 && old(sketch.Apart(key)) ==>
        (admit <==> multiset(old(sketch.seen))[key] + 1 >= admThreshold)
    {
      RecentAtMostExact(key);
      hide Accounted, Sketch.Index, Sketch.NeverAbove, Sketch.Phase, Sketch.Bumped, Sketch.Halved, Sketch.CountMinSketch.Valid, Sketch.CountMinSketch.Apart,
        Sketch.CountMinSketch.Cells;
      var freq := sketch.Increment(key);
      admit := freq >= admThreshold;
    }

    lemma RecentAtMostExact(key: Bytes)
      requires sketch.Valid()
      ensures multiset(sketch.recent)[key] + 1 <= Sketch.CountOf(Sketch.Bumped(sketch.exact, key), key)
    {
    }

    method EvictOldest()
      requires Accounted() && |lru| > 0
      modifies this
      ensures Accounted()
      ensures lru == old(lru)[..|old(lru)| - 1]
      ensures cache == old(cache) - {old(lru)[|old(lru)| - 1].key}
      ensures curBytes <= old(curBytes)
    {
      var n := |lru| - 1;
      var tail := lru[n];
      WithoutAbsent(lru[..n], tail.key);
      RemoveEntry(tail);
    }

    /** Set: too large an item is refused; otherwise the key's old entry goes, the shortest oldest
        tail that makes room is evicted, and the new entry becomes the youngest. */
    method Set(key: Bytes, value: Bytes, now: int)
      requires Valid()
      modifies this
      ensures Valid() && fresh(Repr() - old(Repr()))
      ensures ItemSize(key, value) > maxItemBytes ==>
        lru == old(lru) && cache == old(cache) && curBytes == old(curBytes)
      ensures ItemSize(key, value) <= maxItemBytes ==>
        var rest := Without(old(lru), key);
        && |lru| > 0 && lru[0].key == key && lru[0].value == value && lru[0].expiresAt == now + ttl
        && lru[1..] == rest[..Survivors(rest, maxBytes - ItemSize(key, value))]
      ensures |key| + |value| + 128 <= maxItemBytes ==> Holds(key, value, now + ttl)
      ensures forall k :: k in cache ==>
        (k in old(cache) && cache[k] == old(cache)[k]) || (k == key && cache[k].value == value)
    {
      hide Accounted, Total, Survivors, Without;
      var itemSize := ItemSize(key, value);
      if itemSize > maxItemBytes { return; }
      Insert(key, value, itemSize, now);
      FrontIsCached();
      ReprGrows();
      hide Repr;
    }

    twostate lemma ReprGrows()
      requires |lru| > 0 && fresh(lru[0]) && forall e :: e in lru && e != lru[0] ==> e in old(lru)
      ensures fresh(Repr() - old(Repr()))
    {
    }

    lemma FrontIsCached()
      requires Accounted() && |lru| > 0
      ensures lru[0].key in cache && cache[lru[0].key] == lru[0]
    {
    }

    method Insert(key: Bytes, value: Bytes, itemSize: int, now: int)
      requires Accounted() && itemSize == ItemSize(key, value)
      modifies this
      ensures Accounted()
      ensures curBytes <= maxBytes || curBytes == itemSize
      ensures var rest := Without(old(lru), key);
        && |lru| > 0 && fresh(lru[0])
        && lru[0].key == key && lru[0].value == value && lru[0].expiresAt == now + ttl
        && lru[1..] == rest[..Survivors(rest, maxBytes - itemSize)]
      ensures forall e :: e in lru && e != lru[0] ==> e in old(lru)
      ensures forall k :: k in cache ==>
        (k in old(cache) && cache[k] == old(cache)[k]) || (k == key && cache[k].value == value)
    {
      hide Accounted, Total, Survivors, DistinctKeys;
      RemoveKey(key);
      MakeRoom(itemSize);
      var ent := new Entry(key, value, itemSize, now + ttl);
      PushFront(ent);
    }

    /** The eviction loop: oldest first, until the item fits or nothing is left. */
    method MakeRoom(itemSize: int)
      requires Accounted()
      modifies this
      ensures Accounted()
      ensures lru == old(lru)[..Survivors(old(lru), maxBytes - itemSize)]
      ensures curBytes + itemSize <= maxBytes || (lru == [] && curBytes == 0)
      ensures forall k :: k in cache ==> k in old(cache) && cache[k] == old(cache)[k]
    {
      hide DistinctKeys;
      ghost var rest := lru;
      ghost var n := Survivors(rest, maxBytes - itemSize);
      while curBytes + itemSize > maxBytes && |lru| > 0
        invariant Accounted()
        invariant n <= |lru| <= |rest| && lru == rest[..|lru|]
        invariant n == Survivors(lru, maxBytes - itemSize)
        invariant forall k :: k in cache ==> k in old(cache) && cache[k] == old(cache)[k]
        decreases |lru|
      {
        EvictOldest();
      }
    }

    method PushFront(ent: Entry)
      requires Accounted() && ent.key !in cache && ent.size == ItemSize(ent.key, ent.value)
      modifies this
      ensures Accounted()
      ensures lru == [ent] + old(lru) && cache == old(cache)[ent.key := ent]
      ensures curBytes == old(curBytes) + ent.size
    {
      hide Total, ItemSize;
      PushFrontTotal(ent, lru);
      assert forall e :: e in [ent] + lru <==> e == ent || e in lru;
      lru := [ent] + lru;
      cache := cache[ent.key := ent];
      curBytes := curBytes + ent.size;
    }

    method Delete(key: Bytes)
      requires Valid()
      modifies this
      ensures Valid() && Repr() <= old(Repr())
      ensures lru == Without(old(lru), key) && cache == old(cache) - {key}
    {
      RemoveKey(key);
    }

    /** sweepExpired: exactly the maximal expired tail goes. An expired entry behind a live older
        neighbour stays until that neighbour expires. */
    method SweepExpired(now: int)
      requires Valid()
      modifies this
      ensures Valid() && Repr() <= old(Repr())
      ensures lru <= old(lru)
      ensures forall i :: |lru| <= i < |old(lru)| ==> now > old(lru)[i].expiresAt
      ensures |lru| > 0 ==> now <= lru[|lru| - 1].expiresAt
      ensures forall k :: k in cache ==> k in old(cache) && cache[k] == old(cache)[k]
    {
      SweepTail(now);
    }

    method SweepTail(now: int)
      requires Accounted()
      modifies this
      ensures Accounted() && curBytes <= old(curBytes)
      ensures lru <= old(lru)
      ensures forall i :: |lru| <= i < |old(lru)| ==> now > old(lru)[i].expiresAt
      ensures |lru| > 0 ==> now <= lru[|lru| - 1].expiresAt
      ensures forall k :: k in cache ==> k in old(cache) && cache[k] == old(cache)[k]
    {
      hide Accounted;
      while |lru| > 0
        invariant Accounted() && curBytes <= old(curBytes)
        invariant lru <= old(lru)
        invariant forall i :: |lru| <= i < |old(lru)| ==> now > old(lru)[i].expiresAt
        invariant forall k :: k in cache ==> k in old(cache) && cache[k] == old(cache)[k]
        decreases |lru|
      {
        var ent := lru[|lru| - 1];
        if now <= ent.expiresAt { break; }
        EvictOldest();
      }
    }
  }

  lemma {:induction false} PushFrontTotal(e: Entry, es: seq<Entry>)
    ensures Total([e] + es) == e.size + Total(es)
  {
    if |es| == 0 {
      assert ([e] + es)[..0] == [];
    } else {
      var n := |es| - 1;
      PushFrontTotal(e, es[..n]);
      assert ([e] + es)[..n + 1] == [e] + es[..n];
    }
  }
}
