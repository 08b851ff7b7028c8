/** Python's `list.sort(key=...)` on `list(enumerate(xs))`: a stable sort, so
    the result is the list of indices ordered by key and, among equal keys,
    by index. The sort is modelled by insertion of the indices in turn. */
module StableSort {
  /** Index `a` comes before index `b` in the stable order. */
  predicate Before(keys: seq<int>, a: nat, b: nat)
    requires a < |keys| && b < |keys|
  {
    keys[a] < keys[b] || (keys[a] == keys[b] && a < b)
  }

  predicate InRange(keys: seq<int>, order: seq<nat>) {
    forall i :: 0 <= i < |order| ==> order[i] < |keys|
  }

  /** `order` is strictly increasing in the stable order (so it repeats no index). */
  predicate Ordered(keys: seq<int>, order: seq<nat>)
    requires InRange(keys, order)
  {
    forall i, j :: 0 <= i < j < |order| ==> Before(keys, order[i], order[j])
  }

  /** The indices `0 .. n-1`. */
  function Range(n: nat): (r: seq<nat>)
    ensures |r| == n && forall i :: 0 <= i < n ==> r[i] == i
  {
    seq(n, i => i)
  }

  /** Inserts `k` after every index that comes before it. */
  function Insert(keys: seq<int>, order: seq<nat>, k: nat): (r: seq<nat>)
    requires InRange(keys, order) && k < |keys|
    ensures |r| == |order| + 1 && InRange(keys, r)
    ensures multiset(r) == multiset(order) + multiset{k}
  {
    if order == [] then [k]
    else if Before(keys, k, order[0]) then [k] + order
    else
      assert order == [order[0]] + order[1..];
      [order[0]] + Insert(keys, order[1..], k)
  }

  /** The indices `0 .. n-1` sorted. */
  function SortPrefix(keys: seq<int>, n: nat): (r: seq<nat>)
    requires n <= |keys|
    ensures InRange(keys, r)
    ensures multiset(r) == multiset(Range(n))
  {
    if n == 0 then []
    else
      assert Range(n) == Range(n - 1) + [n - 1];
      Insert(keys, SortPrefix(keys, n - 1), n - 1)
  }

  /** `sorted(range(len(keys)), key=lambda i: keys[i])`. */
  function SortByKey(keys: seq<int>): (r: seq<nat>)
    ensures InRange(keys, r)
    ensures multiset(r) == multiset(Range(|keys|))
  {
    SortPrefix(keys, |keys|)
  }

  lemma {:induction false} InsertOrdered(keys: seq<int>, order: seq<nat>, k: nat)
    requires InRange(keys, order) && k < |keys| && k !in order
    requires Ordered(keys, order)
    ensures Ordered(keys, Insert(keys, order, k))
    decreases |order|
  {
    if order != [] && !Before(keys, k, order[0]) {
      var tail := Insert(keys, order[1..], k);
      assert order[0] != k;
      InsertOrdered(keys, order[1..], k);
      forall j | 0 <= j < |tail| ensures Before(keys, order[0], tail[j]) {
        assert tail[j] in multiset(order[1..]) + multiset{k};
        if tail[j] != k {
          var m :| 0 <= m < |order[1..]| && order[1..][m] == tail[j];
          assert order[1 + m] == tail[j];
        }
      }
    }
  }

  /** The sort is a stable order of all the indices. */
  lemma {:induction false} SortOrdered(keys: seq<int>, n: nat)
    requires n <= |keys|
    ensures Ordered(keys, SortPrefix(keys, n))
  {
    if n > 0 {
      var prev := SortPrefix(keys, n - 1);
      SortOrdered(keys, n - 1);
      assert n - 1 !in multiset(Range(n - 1));
      InsertOrdered(keys, prev, n - 1);
    }
  }

  /** Every index occurs in the sorted list, exactly once. */
  lemma SortPermutation(keys: seq<int>)
    ensures |SortByKey(keys)| == |keys|
    ensures Ordered(keys, SortByKey(keys))
    ensures forall i :: 0 <= i < |keys| ==> i in SortByKey(keys)
    ensures forall s, t :: 0 <= s < t < |keys| ==> SortByKey(keys)[s] != SortByKey(keys)[t]
  {
    var r := SortByKey(keys);
    SortOrdered(keys, |keys|);
    assert |r| == |multiset(r)| == |multiset(Range(|keys|))| == |keys|;
    forall i | 0 <= i < |keys| ensures i in r {
      assert Range(|keys|)[i] == i;
      assert i in multiset(Range(|keys|));
    }
  }

  lemma OrderedTail(keys: seq<int>, a: seq<nat>)
    requires a != [] && InRange(keys, a) && Ordered(keys, a)
    ensures InRange(keys, a[1..]) && Ordered(keys, a[1..])
  {
    forall i, j | 0 <= i < j < |a| - 1 ensures Before(keys, a[1..][i], a[1..][j]) {
      assert a[1..][i] == a[i + 1] && a[1..][j] == a[j + 1];
    }
  }

  /** Two stable orders of the same indices start with the same index. */
  lemma FirstEqual(keys: seq<int>, a: seq<nat>, b: seq<nat>)
    requires InRange(keys, a) && InRange(keys, b) && a != [] && b != []
    requires Ordered(keys, a) && Ordered(keys, b) && multiset(a) == multiset(b)
    ensures a[0] == b[0]
  {
    assert a[0] in multiset(b) && b[0] in multiset(a);
    var i :| 0 <= i < |b| && b[i] == a[0];
    var j :| 0 <= j < |a| && a[j] == b[0];
    if a[0] != b[0] {
      assert false;
    }
  }

  lemma TailMultiset(a: seq<nat>, b: seq<nat>)
    requires a != [] && b != [] && a[0] == b[0] && multiset(a) == multiset(b)
    ensures multiset(a[1..]) == multiset(b[1..])
  {
    assert a == [a[0]] + a[1..] && b == [b[0]] + b[1..];
    assert multiset(a) == multiset{a[0]} + multiset(a[1..]);
    assert multiset(b) == multiset{b[0]} + multiset(b[1..]);
    forall y ensures multiset(a[1..])[y] == multiset(b[1..])[y] {
      assert multiset(a)[y] == multiset(b)[y];
    }
  }

  /** The stable order is unique: Python's sort and this one agree. */
  lemma {:induction false} OrderedUnique(keys: seq<int>, a: seq<nat>, b: seq<nat>)
    requires InRange(keys, a) && InRange(keys, b)
    requires Ordered(keys, a) && Ordered(keys, b) && multiset(a) == multiset(b)
    ensures a == b
    decreases |a|
  {
    assert |b| == |multiset(b)| == |multiset(a)| == |a|;
    if a != [] {
      FirstEqual(keys, a, b);
      TailMultiset(a, b);
      OrderedTail(keys, a);
      OrderedTail(keys, b);
      OrderedUnique(keys, a[1..], b[1..]);
      assert a == [a[0]] + a[1..] && b == [b[0]] + b[1..];
    }
  }
}
