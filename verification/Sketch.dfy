/** The count-min sketch behind cache admission (internal/cache/tinylfu.go): four rows of counters,
    halved after every million increments. */
module Sketch {
  import opened ByteStrings

  const SATURATION: nat := 0xFFFF_FFFF
  const DECAY_PERIOD: nat := 1_000_000
  const COUNTER_WRAP: nat := 0x1_0000_0000_0000_0000
  const WIDTH: nat := 2048
  const DEPTH: nat := 4

  type HashFn = Bytes -> (nat, nat)

  /** index: h1 + row * h2 in 64-bit arithmetic, reduced to a column. */
  function Index(hash: HashFn, row: nat, key: Bytes): (i: nat)
    ensures i < WIDTH
  {
    var (h1, h2) := hash(key);
    ((h1 + row * h2) % COUNTER_WRAP) % WIDTH
  }

  // ---------------------------------------------------------------- exact counts

  type Counts = map<Bytes, nat>

  function CountOf(c: Counts, key: Bytes): nat {
    if key in c then c[key] else 0
  }

  function Halved(c: Counts): Counts {
    map k | k in c :: c[k] / 2
  }

  ghost predicate Lists(keys: seq<Bytes>, c: Counts) {
    && (forall i, j :: 0 <= i < j < |keys| ==> keys[i] != keys[j])
    && (forall k :: k in keys <==> k in c)
  }

  /** The exact counts of the listed keys that fall into one cell. */
  ghost function Mass(hash: HashFn, row: nat, keys: seq<Bytes>, c: Counts, col: nat): nat
    requires forall k :: k in keys ==> k in c
  {
    if |keys| == 0 then 0
    else
      var n := |keys| - 1;
      Mass(hash, row, keys[..n], c, col) + if Index(hash, row, keys[n]) == col then c[keys[n]] else 0
  }

  lemma {:induction false} MassElsewhere(hash: HashFn, row: nat, keys: seq<Bytes>, c: Counts, col: nat, key: Bytes, x: nat)
    requires (forall k :: k in keys ==> k in c) && key !in keys
    ensures Mass(hash, row, keys, c[key := x], col) == Mass(hash, row, keys, c, col)
  {
    if |keys| > 0 { MassElsewhere(hash, row, keys[..|keys| - 1], c, col, key, x); }
  }

  lemma {:induction false} MassBump(hash: HashFn, row: nat, keys: seq<Bytes>, c: Counts, col: nat, key: Bytes)
    requires (forall k :: k in keys ==> k in c) && key in keys
    requires forall i, j :: 0 <= i < j < |keys| ==> keys[i] != keys[j]
    ensures Mass(hash, row, keys, c[key := c[key] + 1], col)
         == Mass(hash, row, keys, c, col) + if Index(hash, row, key) == col then 1 else 0
  {
    var n := |keys| - 1;
    if keys[n] == key {
      MassElsewhere(hash, row, keys[..n], c, col, key, c[key] + 1);
    } else {
      MassBump(hash, row, keys[..n], c, col, key);
    }
  }

  lemma {:induction false} MassHalved(hash: HashFn, row: nat, keys: seq<Bytes>, c: Counts, col: nat)
    requires forall k :: k in keys ==> k in c
    ensures Mass(hash, row, keys, Halved(c), col) <= Mass(hash, row, keys, c, col) / 2
  {
    if |keys| > 0 { MassHalved(hash, row, keys[..|keys| - 1], c, col); }
  }

  lemma {:induction false} MassCovers(hash: HashFn, row: nat, keys: seq<Bytes>, c: Counts, key: Bytes)
    requires (forall k :: k in keys ==> k in c) && key in keys
    ensures Mass(hash, row, keys, c, Index(hash, row, key)) >= c[key]
  {
    var n := |keys| - 1;
    if keys[n] != key { MassCovers(hash, row, keys[..n], c, key); }
  }

  /** Counting one more occurrence of a key, listing it first if it is new. */
  function Bumped(c: Counts, key: Bytes): Counts {
    c[key := CountOf(c, key) + 1]
  }

  /** No key occurs in a history more often than it is counted. */
  ghost predicate NeverAbove(history: seq<Bytes>, b: Counts) {
    forall k :: multiset(history)[k] <= CountOf(b, k)
  }

  lemma BumpedNeverAbove(history: seq<Bytes>, b: Counts, key: Bytes)
    requires NeverAbove(history, b)
    ensures NeverAbove(history + [key], Bumped(b, key))
  {
    forall k ensures multiset(history + [key])[k] <= CountOf(Bumped(b, key), k) {
      assert multiset(history)[k] <= CountOf(b, k);
    }
  }

  lemma MassOfBumped(hash: HashFn, row: nat, keys: seq<Bytes>, c: Counts, col: nat, key: Bytes)
    requires Lists(keys, c)
    ensures var keys' := if key in keys then keys else keys + [key];
      && Lists(keys', Bumped(c, key))
      && Mass(hash, row, keys', Bumped(c, key), col)
         == Mass(hash, row, keys, c, col) + if Index(hash, row, key) == col then 1 else 0
  {
    hide Index, Mass;
    if key in keys {
      MassBump(hash, row, keys, c, col, key);
    } else {
      MassElsewhere(hash, row, keys, c, col, key, 1);
      MassSnoc(hash, row, keys, Bumped(c, key), col, key);
    }
  }

  lemma MassSnoc(hash: HashFn, row: nat, keys: seq<Bytes>, c: Counts, col: nat, key: Bytes)
    requires (forall k :: k in keys ==> k in c) && key in c
    ensures Mass(hash, row, keys + [key], c, col)
         == Mass(hash, row, keys, c, col) + if Index(hash, row, key) == col then c[key] else 0
  {
    hide Index;
    assert (keys + [key])[..|keys|] == keys;
  }

  // ---------------------------------------------------------------- row sums

  ghost function Sum(cells: seq<nat>): nat {
    if |cells| == 0 then 0 else Sum(cells[..|cells| - 1]) + cells[|cells| - 1]
  }

  lemma {:induction false} SumBump(cells: seq<nat>, i: nat)
    requires i < |cells|
    ensures Sum(cells[i := cells[i] + 1]) == Sum(cells) + 1
  {
    var n := |cells| - 1;
    var after := cells[i := cells[i] + 1];
    if i == n {
      assert after[..n] == cells[..n];
    } else {
      SumBump(cells[..n], i);
      assert after[..n] == cells[..n][i := cells[i] + 1];
    }
  }

  lemma {:induction false} SumHalved(cells: seq<nat>, half: seq<nat>)
    requires |half| == |cells| && forall i :: 0 <= i < |cells| ==> half[i] == cells[i] / 2
    ensures Sum(half) <= Sum(cells) / 2
  {
    if |cells| > 0 { SumHalved(cells[..|cells| - 1], half[..|cells| - 1]); }
  }

  lemma {:induction false} SumBounds(cells: seq<nat>, i: nat)
    requires i < |cells|
    ensures cells[i] <= Sum(cells)
  {
    if i < |cells| - 1 { SumBounds(cells[..|cells| - 1], i); }
  }

  lemma {:induction false} SumOfZeros(cells: seq<nat>)
    requires forall i :: 0 <= i < |cells| ==> cells[i] == 0
    ensures Sum(cells) == 0
  {
    if |cells| > 0 { SumOfZeros(cells[..|cells| - 1]); }
  }

  // ---------------------------------------------------------------- the sketch

  /** Increments since the last halving. */
  function Phase(counter: nat): (r: nat)
    ensures r < DECAY_PERIOD
  {
    counter % DECAY_PERIOD
  }

  lemma NextPhase(counter: nat)
    requires counter < COUNTER_WRAP
    ensures var next := (counter + 1) % COUNTER_WRAP;
      next < COUNTER_WRAP && (Phase(next) == 0 || Phase(next) == Phase(counter) + 1)
  {
    if counter + 1 < COUNTER_WRAP { assert (counter + 1) % COUNTER_WRAP == counter + 1; }
  }

  // ---------------------------------------------------------------- what lands in a cell

  /** How often the keys of a history fall into one cell. */
  ghost function Landed(hash: HashFn, row: nat, seen: seq<Bytes>, col: nat): nat {
    if |seen| == 0 then 0
    else
      var n := |seen| - 1;
      Landed(hash, row, seen[..n], col) + if Index(hash, row, seen[n]) == col then 1 else 0
  }

  lemma LandedSnoc(hash: HashFn, row: nat, seen: seq<Bytes>, key: Bytes, col: nat)
    ensures Landed(hash, row, seen + [key], col)
         == Landed(hash, row, seen, col) + if Index(hash, row, key) == col then 1 else 0
  {
    hide Index;
    assert (seen + [key])[..|seen|] == seen;
  }

  /** In its own cell a key lands as often as it was seen, when no other key of the history shares that
      cell; and at least as often in any case. */
  lemma {:induction false} LandedAlone(hash: HashFn, row: nat, seen: seq<Bytes>, key: Bytes)
    ensures Landed(hash, row, seen, Index(hash, row, key)) >= multiset(seen)[key]
    ensures (forall k :: k in seen && k != key ==> Index(hash, row, k) != Index(hash, row, key)) ==>
      Landed(hash, row, seen, Index(hash, row, key)) == multiset(seen)[key]
  {
    hide Index;
    if |seen| > 0 {
      var n := |seen| - 1;
      LandedAlone(hash, row, seen[..n], key);
      assert seen == seen[..n] + [seen[n]];
      assert seen[n] in seen;
    }
  }

  lemma {:induction false} LandedPositions(hash: HashFn, row: nat, seen: seq<Bytes>, col: nat)
    ensures Landed(hash, row, seen, col) == |set p | 0 <= p < |seen| && Index(hash, row, seen[p]) == col|
  {
    hide Index;
    if |seen| > 0 {
      var n := |seen| - 1;
      LandedPositions(hash, row, seen[..n], col);
      var front := set p | 0 <= p < n && Index(hash, row, seen[..n][p]) == col;
      var whole := set p | 0 <= p < |seen| && Index(hash, row, seen[p]) == col;
      assert whole == front + if Index(hash, row, seen[n]) == col then {n} else {};
    }
  }

  /** The column of a key, written out. */
  lemma ColumnOf(hash: HashFn, row: nat, key: Bytes)
    ensures Index(hash, row, key) == ((hash(key).0 + row * hash(key).1) % 0x1_0000_0000_0000_0000) % 2048
  {
  }

  /** Landing counted over the positions of the history, the column written out. */
  lemma LandedIsCount(hash: HashFn, row: nat, seen: seq<Bytes>, col: nat)
    ensures Landed(hash, row, seen, col)
         == |set p | 0 <= p < |seen| &&
              ((hash(seen[p]).0 + row * hash(seen[p]).1) % 0x1_0000_0000_0000_0000) % 2048 == col|
  {
    hide Index, Landed;
    LandedPositions(hash, row, seen, col);
    forall p | 0 <= p < |seen| { ColumnOf(hash, row, seen[p]); }
    assert (set p | 0 <= p < |seen| && Index(hash, row, seen[p]) == col)
        == (set p | 0 <= p < |seen| &&
              ((hash(seen[p]).0 + row * hash(seen[p]).1) % 0x1_0000_0000_0000_0000) % 2048 == col);
  }

  /** The counter follows the length of the history, and the first multiple of a million it meets is a
      million. */
  lemma NextTrace(n: nat)
    ensures (n % COUNTER_WRAP + 1) % COUNTER_WRAP == (n + 1) % COUNTER_WRAP
    ensures Phase((n + 1) % COUNTER_WRAP) == 0 ==> n + 1 >= DECAY_PERIOD
  {
    if n + 1 < DECAY_PERIOD {
      assert (n + 1) % COUNTER_WRAP == n + 1;
    }
  }

  lemma NextMultiple(n: nat)
    ensures (n + 1) % DECAY_PERIOD == 0 <==> n % DECAY_PERIOD == 999_999
  {
  }

  /** When an increment halves: after a million since the last halving, or when the counter wraps. */
  lemma HalvingIsDue(counter: nat, recent: nat, seen: nat)
    requires counter < COUNTER_WRAP && recent == Phase(counter) + 1 && (counter + 1) % COUNTER_WRAP == seen % COUNTER_WRAP
    ensures Phase((counter + 1) % COUNTER_WRAP) == 0 <==> recent == 1_000_000 || seen % 0x1_0000_0000_0000_0000 == 0
  {
    if counter + 1 < COUNTER_WRAP {
      assert (counter + 1) % COUNTER_WRAP == counter + 1;
      NextMultiple(counter);
    }
  }

  /** An estimate: the least of four cells, each one higher than before. */
  predicate LeastOf(cells: seq<nat>, freq: nat) {
    && (forall i :: 0 <= i < |cells| ==> freq <= cells[i] + 1)
    && (exists i :: 0 <= i < |cells| && freq == cells[i] + 1)
  }

  lemma LeastAtLeast(cells: seq<nat>, freq: nat, m: nat)
    requires LeastOf(cells, freq)
    ensures (forall i :: 0 <= i < |cells| ==> cells[i] >= m) ==> freq >= m + 1
    ensures (forall i :: 0 <= i < |cells| ==> cells[i] >= m) && (exists i :: 0 <= i < |cells| && cells[i] == m) ==> freq == m + 1
  {
  }

  class CountMinSketch {
    const hash: HashFn
    const rows: array2<nat>
    var counter: nat

    /** What an exact counter would hold after the same increments and halvings; the keys it has
        seen; and the keys counted since the last halving. */
    ghost var exact: Counts
    ghost var keys: seq<Bytes>
    ghost var recent: seq<Bytes>

    /** Every key counted so far, in order. */
    ghost var seen: seq<Bytes>

    ghost function Row(i: nat): (r: seq<nat>)
      requires i < rows.Length0
      reads rows
      ensures |r| == rows.Length1 && forall j :: 0 <= j < rows.Length1 ==> r[j] == rows[i, j]
    {
      seq(rows.Length1, j requires 0 <= j < rows.Length1 reads rows => rows[i, j])
    }

    ghost predicate Shape() {
      rows.Length0 == DEPTH && rows.Length1 == WIDTH
    }

    /** The key's four cells. */
    ghost function Cells(key: Bytes): (r: seq<nat>)
      requires Shape()
      reads rows
      ensures |r| == DEPTH && forall i :: 0 <= i < DEPTH ==> r[i] == rows[i, Index(hash, i, key)]
    {
      seq(DEPTH, i requires 0 <= i < DEPTH reads rows => rows[i, Index(hash, i, key)])
    }

    /** No row holds more than a million plus the increments since the last halving. */
    ghost predicate Bounded()
      requires Shape()
      reads this, rows
    {
      forall i :: 0 <= i < DEPTH ==> Sum(Row(i)) <= DECAY_PERIOD + Phase(counter)
    }

    /** No cell is below the exact counts that fall into it. */
    ghost predicate Dominates()
      requires Shape()
      reads this`exact, this`keys, rows
    {
      && Lists(keys, exact)
      && forall i, j :: 0 <= i < DEPTH && 0 <= j < WIDTH ==> rows[i, j] >= Mass(hash, i, keys, exact, j)
    }

    /** No cell is above what has landed in it; before the first halving it is exactly that. */
    ghost predicate NotOver()
      requires Shape()
      reads this`seen, rows
    {
      forall i, j :: 0 <= i < DEPTH && 0 <= j < WIDTH ==>
        && rows[i, j] <= Landed(hash, i, seen, j)
        && (|seen| < DECAY_PERIOD ==> rows[i, j] == Landed(hash, i, seen, j))
    }

    ghost predicate Valid()
      reads this, rows
      ensures Valid() ==> Shape() && NotOver()
    {
      && Shape()
      && NotOver()
      && counter == |seen| % COUNTER_WRAP
      && counter < COUNTER_WRAP
      && Bounded()
      && Dominates()
      && NeverAbove(recent, exact) && |recent| == Phase(counter)
    }

    constructor (hash: HashFn)
      ensures Valid() && fresh(rows) && exact == map[] && recent == [] && seen == [] && this.hash == hash
    {
      this.hash := hash;
      this.rows := new nat[DEPTH, WIDTH]((_, _) => 0);
      this.counter := 0;
      this.exact := map[];
      this.keys := [];
      this.recent := [];
      this.seen := [];
      new;
      forall i | 0 <= i < DEPTH ensures Sum(Row(i)) == 0 { SumOfZeros(Row(i)); }
    }

    /** No cell ever exceeds two million, so the 32-bit saturation guard never fires. */
    lemma CellsStaySmall(i: nat, j: nat)
      requires Valid() && i < DEPTH && j < WIDTH
      ensures rows[i, j] < 2 * DECAY_PERIOD < SATURATION
      ensures rows[i, j] < 2_000_000
    {
      SumBounds(Row(i), j);
    }

    /** In every reachable state a cell holds at most the number of increments whose key has this column
        in this row. */
    lemma CellAtMost(i: nat, j: nat)
      requires Valid() && i < 4 && j < 2048
      ensures rows[i, j]
           <= |set p | 0 <= p < |seen| &&
                ((hash(seen[p]).0 + i * hash(seen[p]).1) % 0x1_0000_0000_0000_0000) % 2048 == j|
    {
      LandedIsCount(hash, i, seen, j);
    }

    method BumpCells(key: Bytes) returns (min: nat)
      requires Shape()
      requires forall i, j :: 0 <= i < DEPTH && 0 <= j < WIDTH ==> rows[i, j] < 2 * DECAY_PERIOD
      modifies rows
      ensures forall i, j :: 0 <= i < DEPTH && 0 <= j < WIDTH ==>
        rows[i, j] == old(rows[i, j]) + if j == Index(hash, i, key) then 1 else 0
      ensures LeastOf(old(Cells(key)), min) && min in Cells(key)
    {
      hide Index;
      min := SATURATION;
      for r := 0 to DEPTH
        invariant forall i, j :: 0 <= i < DEPTH && 0 <= j < WIDTH ==>
          rows[i, j] == old(rows[i, j]) + if i < r && j == Index(hash, i, key) then 1 else 0
        invariant forall i :: 0 <= i < r ==> min <= rows[i, Index(hash, i, key)]
        invariant if r == 0 then min == SATURATION
                  else exists i :: 0 <= i < r && min == rows[i, Index(hash, i, key)]
      {
        var idx := Index(hash, r, key);
        if rows[r, idx] < SATURATION {
          rows[r, idx] := rows[r, idx] + 1;
        }
        if rows[r, idx] < min { min := rows[r, idx]; }
      }
      var i :| 0 <= i < DEPTH && min == rows[i, Index(hash, i, key)];
      assert min == Cells(key)[i] == old(Cells(key))[i] + 1;
    }

    /** decay: every counter shifted right by one. */
    method Decay()
      requires Shape()
      modifies rows
      ensures forall i, j :: 0 <= i < DEPTH && 0 <= j < WIDTH ==> rows[i, j] == old(rows[i, j]) / 2
    {
      for r := 0 to DEPTH
        invariant forall i, j :: 0 <= i < DEPTH && 0 <= j < WIDTH ==>
          rows[i, j] == if i < r then old(rows[i, j]) / 2 else old(rows[i, j])
      {
        for c := 0 to WIDTH
          invariant forall i, j :: 0 <= i < DEPTH && 0 <= j < WIDTH ==>
            rows[i, j] == if i < r || (i == r && j < c) then old(rows[i, j]) / 2 else old(rows[i, j])
        {
          rows[r, c] := rows[r, c] / 2;
        }
      }
    }

    /** An increment is counted, and the halving that may follow it is still due. */
    ghost predicate Counted()
      reads this, rows
      ensures Counted() ==> Shape()
    {
      && Shape()
      && NotOver()
      && counter < COUNTER_WRAP && (counter + 1) % COUNTER_WRAP == |seen| % COUNTER_WRAP
      && (Phase((counter + 1) % COUNTER_WRAP) == 0 ==> |seen| >= DECAY_PERIOD)
      && (forall i :: 0 <= i < DEPTH ==> Sum(Row(i)) <= DECAY_PERIOD + Phase(counter) + 1)
      && Dominates()
      && NeverAbove(recent, exact) && |recent| == Phase(counter) + 1
    }

    /** The counting half of an increment, before any halving. */
    method Count(key: Bytes) returns (freq: nat)
      requires Valid()
      modifies this, rows
      ensures Counted()
      ensures counter == old(counter) && seen == old(seen) + [key]
      ensures exact == Bumped(old(exact), key) && recent == old(recent) + [key]
      ensures freq >= CountOf(exact, key)
      ensures forall i, j :: 0 <= i < DEPTH && 0 <= j < WIDTH ==>
        rows[i, j] == old(rows[i, j]) + if j == Index(hash, i, key) then 1 else 0
      ensures LeastOf(old(Cells(key)), freq)
    {
      hide Valid, Counted, Sum, Landed, Index, LeastOf, Cells, CountOf, Bumped;
      forall i, j | 0 <= i < DEPTH && 0 <= j < WIDTH ensures rows[i, j] < 2 * DECAY_PERIOD { CellsStaySmall(i, j); }
      freq := BumpCells(key);
      exact, keys := Bumped(exact, key), if key in keys then keys else keys + [key];
      recent := recent + [key];
      seen := seen + [key];
      NowCounted(key);
      CoversExact(key);
      assert freq in Cells(key);
    }

    twostate lemma NowCounted(key: Bytes)
      requires old(Valid()) && counter == old(counter) && Shape()
      requires exact == Bumped(old(exact), key) && keys == (if key in old(keys) then old(keys) else old(keys) + [key])
      requires recent == old(recent) + [key] && seen == old(seen) + [key]
      requires forall i, j :: 0 <= i < DEPTH && 0 <= j < WIDTH ==>
        rows[i, j] == old(rows[i, j]) + if j == Index(hash, i, key) then 1 else 0
      ensures Counted()
    {
      AfterBump(key);
      AfterBumpLands(key);
      hide NeverAbove, Sum, Row, Landed, Index, Mass, Lists, Bumped;
      NextTrace(|old(seen)|);
      BumpedNeverAbove(old(recent), old(exact), key);
    }

    lemma CoversExact(key: Bytes)
      requires Counted()
      ensures forall x :: x in Cells(key) ==> x >= CountOf(exact, key)
    {
      if key in exact { CoversListed(key); }
    }

    lemma CoversListed(key: Bytes)
      requires Shape() && Dominates() && key in exact
      ensures forall x :: x in Cells(key) ==> x >= exact[key]
    {
      hide Index;
      forall i | 0 <= i < DEPTH { MassCovers(hash, i, keys, exact, key); }
    }

    /** Increment: the estimate returned is the least of the key's four cells, this occurrence
        included and before any halving; it is never below the exact count. Every millionth increment
        halves all cells. */
    method Increment(key: Bytes) returns (freq: nat)
      requires Valid()
      modifies this, rows
      ensures Valid()
      ensures counter == (old(counter) + 1) % COUNTER_WRAP && seen == old(seen) + [key]
      ensures |old(seen)| < 1_000_000 ==> freq >= multiset(old(seen))[key] + 1
      ensures |old(seen)| < 1_000_000 && old(Apart(key)) ==> freq == multiset(old(seen))[key] + 1
      ensures freq >= CountOf(Bumped(old(exact), key), key)
      ensures exact == if Phase(counter) == 0 then Halved(Bumped(old(exact), key)) else Bumped(old(exact), key)
      ensures recent == if Phase(counter) == 0 then [] else old(recent) + [key]
      ensures Phase(counter) == 0 <==> |old(recent)| == 999_999 || (|old(seen)| + 1) % 0x1_0000_0000_0000_0000 == 0
      ensures LeastOf(old(Cells(key)), freq)
      ensures forall i, j :: 0 <= i < DEPTH && 0 <= j < WIDTH ==>
        var cell := old(rows[i, j]) + if j == Index(hash, i, key) then 1 else 0;
        rows[i, j] == if Phase(counter) == 0 then cell / 2 else cell
    {
      hide Index, Valid, Counted, Phase, Apart, NotOver, Bumped, Halved, CountOf, Cells, LeastOf;
      EstimateBeforeHalving(key);
      freq := Count(key);
      Settle();
    }

    /** What follows the counting: the counter advances, and every millionth time all cells are halved. */
    method Settle()
      requires Counted()
      modifies this`counter, this`exact, this`recent, rows
      ensures Valid() && counter == (old(counter) + 1) % COUNTER_WRAP
      ensures exact == if Phase(counter) == 0 then Halved(old(exact)) else old(exact)
      ensures recent == if Phase(counter) == 0 then [] else old(recent)
      ensures Phase(counter) == 0 <==> |old(recent)| == 1_000_000 || |seen| % 0x1_0000_0000_0000_0000 == 0
      ensures forall i, j :: 0 <= i < DEPTH && 0 <= j < WIDTH ==>
        rows[i, j] == if Phase(counter) == 0 then old(rows[i, j]) / 2 else old(rows[i, j])
    {
      hide Sum, Row, Dominates, NeverAbove, NotOver, Phase;
      NextPhase(counter);
      HalvingIsDue(counter, |recent|, |seen|);
      counter := (counter + 1) % COUNTER_WRAP;
      if Phase(counter) == 0 { Halve(); }
    }

    /** In some row the key's column is that of no other key counted so far. */
    ghost predicate Apart(key: Bytes)
      reads this`seen
    {
      exists i: nat :: i < 4 && forall k :: k in seen && k != key ==>
        ((hash(k).0 + i * hash(k).1) % 0x1_0000_0000_0000_0000) % 2048
        != ((hash(key).0 + i * hash(key).1) % 0x1_0000_0000_0000_0000) % 2048
    }

    /** Before the first halving the least of a key's cells, this occurrence included, is at least the
        key's exact count, and is that count as soon as one of its cells is its own. */
    lemma EstimateBeforeHalving(key: Bytes)
      requires Shape() && NotOver()
      ensures |seen| < 1_000_000 ==> forall freq :: LeastOf(Cells(key), freq) ==>
        freq >= multiset(seen)[key] + 1 && (Apart(key) ==> freq == multiset(seen)[key] + 1)
    {
      hide Index, Landed, Apart, LeastOf;
      forall i | 0 <= i < DEPTH { LandedAlone(hash, i, seen, key); }
      if |seen| < 1_000_000 && Apart(key) {
        ApartColumn(key);
        var i :| 0 <= i < DEPTH && forall k :: k in seen && k != key ==> Index(hash, i, k) != Index(hash, i, key);
        LandedAlone(hash, i, seen, key);
        assert Cells(key)[i] == Landed(hash, i, seen, Index(hash, i, key));
      }
      forall freq | LeastOf(Cells(key), freq) { LeastAtLeast(Cells(key), freq, multiset(seen)[key]); }
    }

    lemma ApartColumn(key: Bytes)
      requires Apart(key)
      ensures exists i :: 0 <= i < DEPTH && forall k :: k in seen && k != key ==> Index(hash, i, k) != Index(hash, i, key)
    {
      var i: nat :| i < 4 && forall k :: k in seen && k != key ==>
        ((hash(k).0 + i * hash(k).1) % 0x1_0000_0000_0000_0000) % 2048
        != ((hash(key).0 + i * hash(key).1) % 0x1_0000_0000_0000_0000) % 2048;
      ColumnOf(hash, i, key);
      forall k | k in seen && k != key ensures Index(hash, i, k) != Index(hash, i, key) { ColumnOf(hash, i, k); }
    }

    /** The halving half: after it the rows are within their bound again. */
    method Halve()
      requires Shape() && Dominates() && NotOver() && counter < COUNTER_WRAP && Phase(counter) == 0
      requires counter == |seen| % COUNTER_WRAP && |seen| >= DECAY_PERIOD
      requires forall i :: 0 <= i < DEPTH ==> Sum(Row(i)) <= 2 * DECAY_PERIOD
      modifies this`exact, this`recent, rows
      ensures Valid() && exact == Halved(old(exact)) && recent == []
      ensures forall i, j :: 0 <= i < DEPTH && 0 <= j < WIDTH ==> rows[i, j] == old(rows[i, j]) / 2
    {
      hide Mass, Sum, Lists, Row, Index, Phase, Landed;
      Decay();
      AfterDecay();
      exact := Halved(exact);
      recent := [];
    }

    twostate lemma AfterBump(key: Bytes)
      requires old(Valid()) && Shape()
      requires exact == Bumped(old(exact), key) && keys == (if key in old(keys) then old(keys) else old(keys) + [key])
      requires forall i, j :: 0 <= i < DEPTH && 0 <= j < WIDTH ==>
        rows[i, j] == old(rows[i, j]) + if j == Index(hash, i, key) then 1 else 0
      ensures forall i :: 0 <= i < DEPTH ==> Sum(Row(i)) == old(Sum(Row(i))) + 1
      ensures Dominates()
    {
      hide Index, Mass, Bumped, Sum;
      forall i | 0 <= i < DEPTH ensures Sum(Row(i)) == old(Sum(Row(i))) + 1 {
        var c := Index(hash, i, key);
        assert Row(i) == old(Row(i))[c := old(Row(i))[c] + 1];
        SumBump(old(Row(i)), c);
      }
      MassOfBumped(hash, 0, old(keys), old(exact), 0, key);
      forall i, j | 0 <= i < DEPTH && 0 <= j < WIDTH ensures rows[i, j] >= Mass(hash, i, keys, exact, j) {
        MassOfBumped(hash, i, old(keys), old(exact), j, key);
      }
    }

    twostate lemma AfterBumpLands(key: Bytes)
      requires Shape() && old(NotOver()) && seen == old(seen) + [key]
      requires forall i, j :: 0 <= i < DEPTH && 0 <= j < WIDTH ==>
        rows[i, j] == old(rows[i, j]) + if j == Index(hash, i, key) then 1 else 0
      ensures NotOver()
    {
      hide Index, Landed;
      forall i, j | 0 <= i < DEPTH && 0 <= j < WIDTH
        ensures Landed(hash, i, seen, j) == Landed(hash, i, old(seen), j) + if Index(hash, i, key) == j then 1 else 0
      {
        LandedSnoc(hash, i, old(seen), key, j);
      }
    }

    twostate lemma AfterDecay()
      requires Shape() && old(Dominates()) && exact == old(exact) && keys == old(keys)
      requires forall i, j :: 0 <= i < DEPTH && 0 <= j < WIDTH ==> rows[i, j] == old(rows[i, j]) / 2
      ensures forall i :: 0 <= i < DEPTH ==> Sum(Row(i)) <= old(Sum(Row(i))) / 2
      ensures Lists(keys, Halved(exact))
      ensures forall i, j :: 0 <= i < DEPTH && 0 <= j < WIDTH ==> rows[i, j] >= Mass(hash, i, keys, Halved(exact), j)
    {
      forall i | 0 <= i < DEPTH ensures Sum(Row(i)) <= old(Sum(Row(i))) / 2 { SumHalved(old(Row(i)), Row(i)); }
      forall i, j | 0 <= i < DEPTH && 0 <= j < WIDTH ensures rows[i, j] >= Mass(hash, i, keys, Halved(exact), j) {
        MassHalved(hash, i, keys, exact, j);
      }
    }
  }
}
