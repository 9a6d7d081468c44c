/** The storage engine as SQLiteX uses it: an ordered map from byte strings to byte strings, atomic
    write batches, and iterators over a snapshot (db.go). */
module Pebble {
  import opened ByteStrings

  type KV = map<Bytes, Bytes>

  datatype Option<+T> = None | Some(value: T)

  function Lookup(kv: KV, k: Bytes): Option<Bytes> {
    if k in kv then Some(kv[k]) else None
  }

  // ---------------------------------------------------------------- batches

  datatype Op = Put(key: Bytes, value: Bytes) | Delete(key: Bytes)

  function ApplyOp(kv: KV, op: Op): KV {
    match op
    case Put(k, v) => kv[k := v]
    case Delete(k) => kv - {k}
  }

  /** A batch takes effect in order: later operations on a key win. */
  function Apply(kv: KV, ops: seq<Op>): KV
    decreases |ops|
  {
    if |ops| == 0 then kv else Apply(ApplyOp(kv, ops[0]), ops[1..])
  }

  lemma {:induction false} ApplyAppend(kv: KV, a: seq<Op>, b: seq<Op>)
    ensures Apply(kv, a + b) == Apply(Apply(kv, a), b)
    decreases |a|
  {
    if |a| == 0 {
      assert a + b == b;
    } else {
      ApplyAppend(ApplyOp(kv, a[0]), a[1..], b);
      assert (a + b)[1..] == a[1..] + b;
    }
  }

  /** What a batch leaves behind for one key: the last operation on it, if any. */
  datatype Effect = Untouched | Written(value: Bytes) | Removed

  function EffectOf(ops: seq<Op>, k: Bytes): Effect {
    if |ops| == 0 then Untouched
    else
      var op := ops[|ops| - 1];
      if op.key != k then EffectOf(ops[..|ops| - 1], k)
      else if op.Put? then Written(op.value)
      else Removed
  }

  function Outcome(before: Option<Bytes>, e: Effect): Option<Bytes> {
    match e
    case Untouched => before
    case Written(v) => Some(v)
    case Removed => None
  }

  lemma {:induction false} ApplyLookup(kv: KV, ops: seq<Op>, k: Bytes)
    ensures Lookup(Apply(kv, ops), k) == Outcome(Lookup(kv, k), EffectOf(ops, k))
    decreases |ops|
  {
    if |ops| > 0 {
      var n := |ops| - 1;
      ApplyLookup(kv, ops[..n], k);
      ApplyAppend(kv, ops[..n], [ops[n]]);
      assert ops == ops[..n] + [ops[n]];
      assert Apply(Apply(kv, ops[..n]), [ops[n]]) == ApplyOp(Apply(kv, ops[..n]), ops[n]);
    }
  }

  lemma {:induction false} EffectAppend(a: seq<Op>, b: seq<Op>, k: Bytes)
    ensures EffectOf(a + b, k) == if EffectOf(b, k).Untouched? then EffectOf(a, k) else EffectOf(b, k)
    decreases |b|
  {
    if |b| == 0 {
      assert a + b == a;
    } else {
      var n := |b| - 1;
      EffectAppend(a, b[..n], k);
      assert (a + b)[..|a + b| - 1] == a + b[..n];
    }
  }

  /** In terms of the operations alone: the last one on a key decides what the batch leaves there. */
  lemma {:induction false} LastOpWins(kv: KV, ops: seq<Op>, k: Bytes, i: nat)
    requires i < |ops| && ops[i].key == k && forall j :: i < j < |ops| ==> ops[j].key != k
    ensures ops[i].Put? ==> k in Apply(kv, ops) && Apply(kv, ops)[k] == ops[i].value
    ensures ops[i].Delete? ==> k !in Apply(kv, ops)
  {
    ApplyLookup(kv, ops, k);
    LastEffect(ops, k, i);
  }

  lemma {:induction false} LastEffect(ops: seq<Op>, k: Bytes, i: nat)
    requires i < |ops| && ops[i].key == k && forall j :: i < j < |ops| ==> ops[j].key != k
    ensures EffectOf(ops, k) == if ops[i].Put? then Written(ops[i].value) else Removed
  {
    if i < |ops| - 1 { LastEffect(ops[..|ops| - 1], k, i); }
  }

  /** A key no operation is on is left as it was. */
  lemma {:induction false} OtherKeysStay(kv: KV, ops: seq<Op>, k: Bytes)
    requires forall i :: 0 <= i < |ops| ==> ops[i].key != k
    ensures k in Apply(kv, ops) <==> k in kv
    ensures k in kv ==> Apply(kv, ops)[k] == kv[k]
    decreases |ops|
  {
    if |ops| > 0 { OtherKeysStay(ApplyOp(kv, ops[0]), ops[1..], k); }
  }

  // ---------------------------------------------------------------- ordered scans

  /** The keys of a snapshot that carry a prefix, ascending. */
  function ScanKeys(snapshot: KV, prefix: Bytes): seq<Bytes> {
    SortedSeq(set k | k in snapshot && prefix <= k)
  }

  /** The same, restricted to keys strictly behind a cursor. */
  function ScanKeysAfter(snapshot: KV, prefix: Bytes, cursor: Bytes): seq<Bytes> {
    SortedSeq(set k | k in snapshot && prefix <= k && Lt(cursor, k))
  }

  /** The keys at or above a lower bound, ascending: what an iterator ranges over. */
  function KeysFrom(snapshot: KV, lower: Bytes): (keys: seq<Bytes>)
    ensures Sorted(keys)
    ensures forall k :: k in keys <==> k in snapshot && !Lt(k, lower)
  {
    SortedSeq(set k | k in snapshot && !Lt(k, lower))
  }

  /** Number of leading keys below a target: where SeekGE lands. */
  function SeekIndex(keys: seq<Bytes>, target: Bytes): (i: nat)
    ensures i <= |keys|
    ensures forall j :: 0 <= j < i ==> Lt(keys[j], target)
    ensures i < |keys| ==> !Lt(keys[i], target)
  {
    if |keys| > 0 && Lt(keys[0], target) then 1 + SeekIndex(keys[1..], target) else 0
  }

  /** The maximal run of prefixed keys from position i on. */
  function RunFrom(keys: seq<Bytes>, i: nat, prefix: Bytes): (r: seq<Bytes>)
    requires i <= |keys|
    ensures i + |r| <= |keys| && r == keys[i..i + |r|]
    ensures forall j :: 0 <= j < |r| ==> prefix <= r[j]
    ensures i + |r| < |keys| ==> !(prefix <= keys[i + |r|])
    decreases |keys| - i
  {
    if i < |keys| && prefix <= keys[i] then [keys[i]] + RunFrom(keys, i + 1, prefix) else []
  }

  /** Once a scan has left its prefix, the prefix does not come back. */
  lemma RunEnds(keys: seq<Bytes>, prefix: Bytes, i: nat, j: nat)
    requires Sorted(keys) && forall k :: k in keys ==> !Lt(k, prefix)
    requires i <= j < |keys| && !(prefix <= keys[i])
    ensures !(prefix <= keys[j])
  {
    if i < j && prefix <= keys[j] { PrefixContiguous(prefix, keys[i], keys[j]); }
  }

  lemma RunStep(keys: seq<Bytes>, i: nat, prefix: Bytes)
    requires Sorted(keys) && forall k :: k in keys ==> !Lt(k, prefix)
    requires i <= |keys|
    ensures var next := RunFrom(keys, if i < |keys| then i + 1 else i, prefix);
      if i < |keys| && prefix <= keys[i]
      then RunFrom(keys, i, prefix) == [keys[i]] + next
      else RunFrom(keys, i, prefix) == [] && next == []
  {
    if i + 1 < |keys| && !(prefix <= keys[i]) { RunEnds(keys, prefix, i, i + 1); }
  }

  /** A run lists exactly the prefixed keys at or behind its start. */
  lemma RunIsScan(keys: seq<Bytes>, i: nat, prefix: Bytes, s: set<Bytes>)
    requires Sorted(keys) && forall k :: k in keys ==> !Lt(k, prefix)
    requires i <= |keys|
    requires forall k :: k in s <==> prefix <= k && k in keys[i..]
    ensures RunFrom(keys, i, prefix) == SortedSeq(s)
  {
    var r := RunFrom(keys, i, prefix);
    forall k ensures k in Elements(r) <==> k in s {
      if k in s {
        var j :| i <= j < |keys| && keys[j] == k;
        if j >= i + |r| { RunEnds(keys, prefix, i + |r|, j); }
        assert r[j - i] == k;
      }
    }
    SortedUnique(r, SortedSeq(s));
  }

  /** The prefixed keys from the start of the range on are all of them. */
  lemma WholeRun(snapshot: KV, prefix: Bytes)
    ensures RunFrom(KeysFrom(snapshot, prefix), 0, prefix) == ScanKeys(snapshot, prefix)
  {
    hide KeysFrom, RunFrom;
    var keys := KeysFrom(snapshot, prefix);
    assert keys[0..] == keys;
    forall k | k in snapshot && prefix <= k ensures k in keys { PrefixNotAbove(prefix, k); }
    RunIsScan(keys, 0, prefix, set k | k in snapshot && prefix <= k);
  }

  /** pebble.Iterator with a lower bound: a position in the ordered keys of a snapshot. Position -1
      is "before the first key", |keys| is "exhausted". */
  class Cursor {
    const snapshot: KV
    const lower: Bytes
    const keys: seq<Bytes>
    var pos: int

    ghost predicate Inv()
      reads this
    {
      && keys == KeysFrom(snapshot, lower)
      && -1 <= pos <= |keys|
    }

    constructor (snapshot: KV, lower: Bytes)
      ensures Inv() && pos == -1 && this.snapshot == snapshot && this.lower == lower
    {
      this.snapshot := snapshot;
      this.lower := lower;
      this.keys := KeysFrom(snapshot, lower);
      this.pos := -1;
    }

    predicate OnKey()
      reads this
    {
      0 <= pos < |keys|
    }

    method First()
      requires Inv()
      modifies this
      ensures Inv() && pos == 0
    {
      pos := 0;
    }

    method Next()
      requires Inv()
      modifies this
      ensures Inv() && pos == if old(pos) < |keys| then old(pos) + 1 else |keys|
    {
      if pos < |keys| { pos := pos + 1; }
    }

    method SeekGE(target: Bytes)
      requires Inv()
      modifies this
      ensures Inv() && pos == SeekIndex(keys, target)
    {
      pos := SeekIndex(keys, target);
    }
  }

  /** PrefixIterator: a cursor confined to one prefix, with the flags of its Next/SeekAfter protocol. */
  class PrefixIterator {
    const iter: Cursor
    const prefix: Bytes
    var started: bool
    var resumed: bool

    ghost predicate Inv()
      reads this, iter
    {
      && iter.Inv() && iter.lower == prefix
      && (resumed ==> iter.pos >= 0)
    }

    constructor (snapshot: KV, prefix: Bytes)
      ensures Inv() && fresh(iter)
      ensures iter.snapshot == snapshot && this.prefix == prefix
      ensures Remaining() == ScanKeys(snapshot, prefix)
    {
      this.prefix := prefix;
      iter := new Cursor(snapshot, prefix);
      started := false;
      resumed := false;
      new;
      WholeRun(snapshot, prefix);
    }

    /** The keys that the calls of Next still to come will deliver. */
    ghost function Remaining(): seq<Bytes>
      requires Inv()
      reads this, iter
    {
      RunFrom(iter.keys, Upcoming(), prefix)
    }

    /** Where the next call of Next puts the cursor. */
    ghost function Upcoming(): (i: nat)
      requires Inv()
      reads this, iter
      ensures i <= |iter.keys|
    {
      if resumed then iter.pos
      else if !started then 0
      else if iter.pos < |iter.keys| then iter.pos + 1 else |iter.keys|
    }

    /** The Go method Valid: on a key, and that key carries the prefix. */
    predicate InPrefix()
      reads this, iter
    {
      iter.OnKey() && prefix <= iter.keys[iter.pos]
    }

    method Valid() returns (ok: bool)
      requires Inv()
      ensures ok <==> InPrefix()
    {
      if !iter.OnKey() { return false; }
      var k := iter.keys[iter.pos];
      if |k| < |prefix| { return false; }
      for i := 0 to |prefix|
        invariant k[..i] == prefix[..i]
      {
        if k[i] != prefix[i] { return false; }
      }
      return true;
    }

    /** What is ahead, taken apart at the cursor's next place. */
    lemma AheadStep()
      requires Inv()
      ensures var i, keys := Upcoming(), iter.keys;
        var next := RunFrom(keys, if i < |keys| then i + 1 else i, prefix);
        if i < |keys| && prefix <= keys[i] then Remaining() == [keys[i]] + next else Remaining() == [] && next == []
    {
      hide RunFrom;
      RunStep(iter.keys, Upcoming(), prefix);
    }

    method Next() returns (ok: bool)
      requires Inv()
      modifies this, iter
      ensures Inv()
      ensures ok <==> old(Remaining()) != []
      ensures ok ==> iter.OnKey() && iter.keys[iter.pos] == old(Remaining())[0]
      ensures Remaining() == if ok then old(Remaining())[1..] else []
    {
      hide RunFrom, KeysFrom, Cursor.Inv;
      ghost var start := Upcoming();
      AheadStep();
      if resumed {
        resumed := false;
        started := true;
      } else if !started {
        started := true;
        iter.First();
      } else {
        iter.Next();
      }
      ok := Valid();
      assert iter.pos == start;
    }

    function Key(): Bytes
      requires iter.OnKey()
      reads this, iter
    {
      iter.keys[iter.pos]
    }

    function Value(): Bytes
      requires Inv() && iter.OnKey()
      reads this, iter
    {
      iter.snapshot[iter.keys[iter.pos]]
    }

    /** Whatever the target, present in the snapshot or not: exactly the prefixed keys strictly
        behind it remain. */
    method SeekAfter(target: Bytes)
      requires Inv()
      modifies this, iter
      ensures Inv()
      ensures Remaining() == ScanKeysAfter(iter.snapshot, prefix, target)
    {
      iter.SeekGE(target);
      if iter.OnKey() && iter.keys[iter.pos] == target {
        iter.Next();
      }
      started := true;
      resumed := true;
      SeekAfterKeys(iter.keys, target, iter.pos);
      forall k ensures k in iter.snapshot && prefix <= k && Lt(target, k) <==> prefix <= k && k in iter.keys[iter.pos..] {
        if prefix <= k { PrefixNotAbove(prefix, k); }
      }
      RunIsScan(iter.keys, iter.pos, prefix, set k | k in iter.snapshot && prefix <= k && Lt(target, k));
    }
  }

  lemma SeekAfterKeys(keys: seq<Bytes>, target: Bytes, pos: nat)
    requires Sorted(keys)
    requires var i := SeekIndex(keys, target);
      pos == if i < |keys| && keys[i] == target then i + 1 else i
    ensures pos <= |keys|
    ensures forall k :: k in keys[pos..] <==> k in keys && Lt(target, k)
  {
    var i := SeekIndex(keys, target);
    forall j | 0 <= j < |keys| ensures Lt(target, keys[j]) <==> j >= pos {
      if j < i {
        LtAsymmetric(keys[j], target);
      } else if keys[j] == target {
        LtIrreflexive(target);
        if j > i { LtTotal(keys[i], target); }
      } else {
        LtTotal(keys[j], target);
        if Lt(keys[j], target) && j > i {
          LtTransitive(keys[i], keys[j], target);
        }
      }
    }
    assert forall j :: pos <= j < |keys| ==> keys[j] == keys[pos..][j - pos];
  }
}
