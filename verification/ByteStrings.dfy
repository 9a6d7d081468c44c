/** Byte strings under the order Pebble sorts its keys by (bytes.Compare), and the ordered
    listing of a finite set of keys that every scan of the database walks. */
module ByteStrings {

  type byte = x: int | 0 <= x < 256

  type Bytes = seq<byte>

  /** bytes.Compare(a, b) < 0. */
  predicate Lt(a: Bytes, b: Bytes) {
    if |b| == 0 then false
    else if |a| == 0 then true
    else a[0] < b[0] || (a[0] == b[0] && Lt(a[1..], b[1..]))
  }

  lemma {:induction false} LtIrreflexive(a: Bytes)
    ensures !Lt(a, a)
  {
    if |a| > 0 { LtIrreflexive(a[1..]); }
  }

  lemma {:induction false} LtTransitive(a: Bytes, b: Bytes, c: Bytes)
    requires Lt(a, b) && Lt(b, c)
    ensures Lt(a, c)
  {
    if |a| > 0 && a[0] == b[0] == c[0] { LtTransitive(a[1..], b[1..], c[1..]); }
  }

  lemma {:induction false} LtTotal(a: Bytes, b: Bytes)
    ensures Lt(a, b) || a == b || Lt(b, a)
  {
    if |a| > 0 && |b| > 0 && a[0] == b[0] {
      LtTotal(a[1..], b[1..]);
      assert a == [a[0]] + a[1..] && b == [b[0]] + b[1..];
    }
  }

  lemma LtAsymmetric(a: Bytes, b: Bytes)
    requires Lt(a, b)
    ensures !Lt(b, a) && a != b
  {
    LtIrreflexive(a);
    if Lt(b, a) { LtTransitive(a, b, a); }
  }

  /** A common prefix does not take part in the comparison. */
  lemma {:induction false} LtCancel(p: Bytes, a: Bytes, b: Bytes)
    ensures Lt(p + a, p + b) <==> Lt(a, b)
  {
    if |p| == 0 {
      assert p + a == a && p + b == b;
    } else {
      LtCancel(p[1..], a, b);
      assert (p + a)[1..] == p[1..] + a && (p + b)[1..] == p[1..] + b;
    }
  }

  /** Strings of one length compare by their leading parts first, by their last byte after that. */
  lemma {:induction false} LtSnoc(x: Bytes, y: Bytes, c: byte, d: byte)
    requires |x| == |y|
    ensures Lt(x + [c], y + [d]) <==> Lt(x, y) || (x == y && c < d)
  {
    if |x| == 0 {
      assert x + [c] == [c] && y + [d] == [d];
    } else {
      LtSnoc(x[1..], y[1..], c, d);
      assert (x + [c])[1..] == x[1..] + [c] && (y + [d])[1..] == y[1..] + [d];
      assert x == [x[0]] + x[1..] && y == [y[0]] + y[1..];
    }
  }

  lemma PrefixNotAbove(p: Bytes, k: Bytes)
    requires p <= k
    ensures !Lt(k, p)
  {
    assert k == p + k[|p|..];
    LtCancel(p, k[|p|..], []);
    assert p + [] == p;
  }

  /** The keys that carry a prefix form one contiguous run: nothing foreign sorts between the
      prefix itself and a key carrying it. */
  lemma {:induction false} PrefixContiguous(p: Bytes, x: Bytes, y: Bytes)
    requires p <= y && Lt(x, y) && !Lt(x, p)
    ensures p <= x
  {
    if |p| > 0 {
      PrefixContiguous(p[1..], x[1..], y[1..]);
    }
  }

  // ---------------------------------------------------------------- sorted listings

  predicate Sorted(ks: seq<Bytes>) {
    forall i, j :: 0 <= i < j < |ks| ==> Lt(ks[i], ks[j])
  }

  function Elements(ks: seq<Bytes>): set<Bytes> {
    set k | k in ks
  }

  predicate IsLeast(k: Bytes, s: set<Bytes>) {
    k in s && forall x :: x in s && x != k ==> Lt(k, x)
  }

  lemma {:induction false} LeastExists(s: set<Bytes>)
    requires s != {}
    ensures exists k :: IsLeast(k, s)
  {
    var x :| x in s;
    if s == {x} {
      assert IsLeast(x, s);
    } else {
      LeastExists(s - {x});
      var k :| IsLeast(k, s - {x});
      LtTotal(x, k);
      if Lt(x, k) {
        forall y | y in s && y != x ensures Lt(x, y) {
          if y != k { LtTransitive(x, k, y); }
        }
        assert IsLeast(x, s);
      } else {
        assert IsLeast(k, s);
      }
    }
  }

  lemma LeastUnique(s: set<Bytes>, a: Bytes, b: Bytes)
    requires IsLeast(a, s) && IsLeast(b, s)
    ensures a == b
  {
    if a != b { LtAsymmetric(a, b); }
  }

  function Least(s: set<Bytes>): (k: Bytes)
    requires s != {}
    ensures IsLeast(k, s)
  {
    LeastExists(s);
    assert forall a, b | IsLeast(a, s) && IsLeast(b, s) :: a == b by {
      forall a, b | IsLeast(a, s) && IsLeast(b, s) ensures a == b { LeastUnique(s, a, b); }
    }
    var k :| IsLeast(k, s);
    k
  }

  /** The members of a set in ascending order. */
  function SortedSeq(s: set<Bytes>): (ks: seq<Bytes>)
    ensures Elements(ks) == s
    ensures forall k :: k in ks <==> k in s
    ensures Sorted(ks)
    decreases |s|
  {
    if s == {} then []
    else
      var k := Least(s);
      var rest := SortedSeq(s - {k});
      assert forall x :: x in [k] + rest <==> x == k || x in Elements(rest);
      assert forall i :: 0 <= i < |rest| ==> rest[i] in Elements(rest);
      [k] + rest
  }

  /** A sorted listing is determined by the set it lists. */
  lemma {:induction false} SortedUnique(a: seq<Bytes>, b: seq<Bytes>)
    requires Sorted(a) && Sorted(b) && Elements(a) == Elements(b)
    ensures a == b
  {
    if |a| == 0 {
      ElementsEmpty(b);
    } else {
      ElementsEmpty(b);
      assert a[0] in Elements(b);
      assert b[0] in Elements(a);
      LtIrreflexive(a[0]);
      if a[0] != b[0] {
        LtAsymmetric(a[0], b[0]);
        assert false;
      }
      TailElements(a);
      TailElements(b);
      SortedUnique(a[1..], b[1..]);
      assert a == [a[0]] + a[1..] && b == [b[0]] + b[1..];
    }
  }

  lemma ElementsEmpty(a: seq<Bytes>)
    ensures Elements(a) == {} <==> a == []
  {
    if |a| > 0 { assert a[0] in Elements(a); }
  }

  lemma TailElements(a: seq<Bytes>)
    requires Sorted(a) && |a| > 0
    ensures Sorted(a[1..]) && Elements(a[1..]) == Elements(a) - {a[0]}
  {
    LtIrreflexive(a[0]);
    assert a == [a[0]] + a[1..];
  }

  /** The members of a listing that pass a test, in the same order. */
  function Filter(p: Bytes -> bool, ks: seq<Bytes>): (r: seq<Bytes>)
    ensures forall k :: k in r <==> k in ks && p(k)
  {
    if |ks| == 0 then []
    else if p(ks[0]) then [ks[0]] + Filter(p, ks[1..])
    else Filter(p, ks[1..])
  }

  lemma {:induction false} FilterSorted(p: Bytes -> bool, ks: seq<Bytes>)
    requires Sorted(ks)
    ensures Sorted(Filter(p, ks))
  {
    if |ks| > 0 {
      var rest := Filter(p, ks[1..]);
      FilterSorted(p, ks[1..]);
      assert forall i :: 0 <= i < |rest| ==> rest[i] in ks[1..];
    }
  }

  /** Filtering the ordered listing of a set lists the filtered set. */
  lemma FilterSortedSeq(p: Bytes -> bool, s: set<Bytes>)
    ensures Filter(p, SortedSeq(s)) == SortedSeq(set k | k in s && p(k))
  {
    FilterSorted(p, SortedSeq(s));
    assert forall k :: k in s <==> k in Elements(SortedSeq(s));
    SortedUnique(Filter(p, SortedSeq(s)), SortedSeq(set k | k in s && p(k)));
  }

  lemma {:induction false} FilterAppend(p: Bytes -> bool, a: seq<Bytes>, b: seq<Bytes>)
    ensures Filter(p, a + b) == Filter(p, a) + Filter(p, b)
  {
    if |a| == 0 {
      assert a + b == b;
    } else {
      FilterAppend(p, a[1..], b);
      assert (a + b)[1..] == a[1..] + b;
    }
  }

  /** Putting one prefix in front of every key keeps the listing sorted. */
  function Prepend(p: Bytes, ks: seq<Bytes>): (r: seq<Bytes>)
    ensures |r| == |ks| && forall i :: 0 <= i < |ks| ==> r[i] == p + ks[i]
  {
    seq(|ks|, i requires 0 <= i < |ks| => p + ks[i])
  }

  lemma PrependSorted(p: Bytes, s: set<Bytes>)
    ensures Prepend(p, SortedSeq(s)) == SortedSeq(set k | k in s :: p + k)
  {
    var ks := SortedSeq(s);
    var r := Prepend(p, ks);
    forall i, j | 0 <= i < j < |r| ensures Lt(r[i], r[j]) { LtCancel(p, ks[i], ks[j]); }
    var t := set k | k in s :: p + k;
    forall x ensures x in r <==> x in t {
      if x in r {
        var i :| 0 <= i < |r| && r[i] == x;
        assert ks[i] in Elements(ks);
      }
      if x in t {
        var k :| k in s && x == p + k;
        assert k in Elements(ks);
        var i :| 0 <= i < |ks| && ks[i] == k;
        assert r[i] == x;
      }
    }
    SortedUnique(r, SortedSeq(t));
  }
}
