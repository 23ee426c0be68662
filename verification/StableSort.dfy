/** A stable insertion sort, for lists that the host sorts by a comparison after reading them in some order. */
module StableSort {

  ghost predicate Ordered<T(!new)>(s: seq<T>, before: (T, T) -> bool) {
    forall i, j :: 0 <= i < j < |s| ==> before(s[i], s[j])
  }

  ghost predicate Refines<T(!new)>(less: (T, T) -> bool, before: (T, T) -> bool) {
    && (forall a, b :: less(a, b) ==> before(a, b))
    && (forall a, b, c :: before(a, b) && before(b, c) ==> before(a, c))
  }

  /** Elements that compare equal stand in the order in which `before` wants them. */
  ghost predicate TiesOrdered<T(!new)>(s: seq<T>, less: (T, T) -> bool, before: (T, T) -> bool) {
    forall i, j :: 0 <= i < j < |s| ==> less(s[j], s[i]) || before(s[i], s[j])
  }

  lemma InsertionKeepsElements<T>(s: seq<T>, p: nat, x: T)
    requires p <= |s|
    ensures multiset(s[..p] + [x] + s[p..]) == multiset(s) + multiset{x}
  {
    assert s == s[..p] + s[p..];
  }

  lemma InsertionOrdered<T(!new)>(s: seq<T>, p: nat, x: T, before: (T, T) -> bool)
    requires p <= |s| && Ordered(s, before)
    requires forall i :: 0 <= i < p ==> before(s[i], x)
    requires forall i :: p <= i < |s| ==> before(x, s[i])
    ensures Ordered(s[..p] + [x] + s[p..], before)
  {
    var now := s[..p] + [x] + s[p..];
    forall i | 0 <= i < |now| ensures now[i] == if i < p then s[i] else if i == p then x else s[i - 1] {
    }
    forall i, j | 0 <= i < j < |now| ensures before(now[i], now[j]) {
    }
  }

  method InsertionPoint<T(!new)>(s: seq<T>, x: T, less: (T, T) -> bool, ghost before: (T, T) -> bool) returns (p: nat)
    requires Ordered(s, before) && Refines(less, before)
    requires forall y :: y in s ==> less(x, y) || before(y, x)
    ensures p <= |s|
    ensures forall i :: 0 <= i < p ==> before(s[i], x)
    ensures forall i :: p <= i < |s| ==> before(x, s[i])
  {
    p := |s|;
    while p > 0 && less(x, s[p - 1])
      invariant p <= |s|
      invariant forall i :: p <= i < |s| ==> before(x, s[i])
    {
      p := p - 1;
    }
    forall i | 0 <= i < p ensures before(s[i], x) {
      assert before(s[p - 1], x);
      assert i < p - 1 ==> before(s[i], s[p - 1]);
    }
  }

  lemma ComesAfterTies<T(!new)>(items: seq<T>, n: nat, r: seq<T>, less: (T, T) -> bool, before: (T, T) -> bool)
    requires n < |items| && multiset(r) == multiset(items[..n]) && TiesOrdered(items, less, before)
    ensures forall y :: y in r ==> less(items[n], y) || before(y, items[n])
  {
    forall y | y in r ensures less(items[n], y) || before(y, items[n]) {
      assert y in multiset(items[..n]);
      var i :| 0 <= i < n && items[..n][i] == y;
    }
  }

  /** Sorts by `less`; as the sort is stable, the result is in the finer order `before`. */
  method Sort<T(!new)>(items: seq<T>, less: (T, T) -> bool, ghost before: (T, T) -> bool) returns (r: seq<T>)
    requires Refines(less, before) && TiesOrdered(items, less, before)
    ensures Ordered(r, before) && multiset(r) == multiset(items)
  {
    r := [];
    for n := 0 to |items|
      invariant Ordered(r, before) && multiset(r) == multiset(items[..n])
    {
      ComesAfterTies(items, n, r, less, before);
      var p := InsertionPoint(r, items[n], less, before);
      InsertionOrdered(r, p, items[n], before);
      InsertionKeepsElements(r, p, items[n]);
      assert items[..n + 1] == items[..n] + [items[n]];
      r := r[..p] + [items[n]] + r[p..];
    }
    assert items[..|items|] == items;
  }

  /** The elements of a set, in some order. */
  method Listing<T(==)>(s: set<T>) returns (r: seq<T>)
    ensures multiset(r) == multiset(s)
    ensures forall x :: x in r <==> x in s
    ensures forall i, j :: 0 <= i < j < |r| ==> r[i] != r[j]
  {
    r := [];
    var left := s;
    while left != {}
      invariant left <= s && multiset(r) == multiset(s - left)
      invariant forall x :: x in r <==> x in s - left
      invariant forall i, j :: 0 <= i < j < |r| ==> r[i] != r[j]
      decreases left
    {
      var x :| x in left;
      assert s - (left - {x}) == (s - left) + {x};
      r, left := r + [x], left - {x};
    }
    assert s - left == s;
  }

  lemma {:induction false} DistinctCount<K>(s: seq<K>)
    requires forall i, j :: 0 <= i < j < |s| ==> s[i] != s[j]
    ensures |set x | x in s| == |s|
  {
    if s == [] {
      assert (set x | x in s) == {};
    } else {
      var rest, last := s[..|s| - 1], s[|s| - 1];
      assert s == rest + [last];
      DistinctCount(rest);
      assert (set x | x in s) == (set x | x in rest) + {last};
    }
  }
}
