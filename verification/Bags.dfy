/** Filtering sequences, and what filtering keeps when the order changes. */
module Bags {
  import opened Text

  /** `s.filter(p)`. */
  function Filter<T>(p: T -> bool, s: seq<T>): (r: seq<T>) {
    if s == [] then []
    else
      var n := |s| - 1;
      Filter(p, s[..n]) + (if p(s[n]) then [s[n]] else [])
  }

  lemma {:induction false} FilterMember<T>(p: T -> bool, s: seq<T>, x: T)
    ensures x in Filter(p, s) <==> x in s && p(x)
  {
    if s != [] {
      var n := |s| - 1;
      FilterMember(p, s[..n], x);
      assert s == s[..n] + [s[n]];
    }
  }

  /** Predicates that agree on a sequence filter it alike. */
  lemma {:induction false} SameFilter<T>(p: T -> bool, q: T -> bool, s: seq<T>)
    requires forall x :: x in s ==> p(x) == q(x)
    ensures Filter(p, s) == Filter(q, s)
  {
    if s != [] {
      assert forall x :: x in s[..|s| - 1] ==> x in s;
      SameFilter(p, q, s[..|s| - 1]);
      assert s[|s| - 1] in s;
    }
  }

  function Kept<T>(p: T -> bool, x: T): seq<T> {
    if p(x) then [x] else []
  }

  lemma FilterSnoc<T>(p: T -> bool, s: seq<T>, x: T)
    ensures Filter(p, s + [x]) == Filter(p, s) + Kept(p, x)
  {
    assert (s + [x])[..|s|] == s;
  }

  lemma {:induction false} FilterConcat<T>(p: T -> bool, a: seq<T>, b: seq<T>)
    ensures Filter(p, a + b) == Filter(p, a) + Filter(p, b)
    decreases |b|
  {
    if b == [] {
      assert a + b == a;
    } else {
      var front, x := b[..|b| - 1], b[|b| - 1];
      assert b == front + [x];
      calc {
        Filter(p, a + b);
        { Assoc(a, front, [x]); }
        Filter(p, (a + front) + [x]);
        { FilterSnoc(p, a + front, x); }
        Filter(p, a + front) + Kept(p, x);
        { FilterConcat(p, a, front); }
        (Filter(p, a) + Filter(p, front)) + Kept(p, x);
        { Assoc(Filter(p, a), Filter(p, front), Kept(p, x)); }
        Filter(p, a) + (Filter(p, front) + Kept(p, x));
        { FilterSnoc(p, front, x); }
        Filter(p, a) + Filter(p, b);
      }
    }
  }

  /** Taking one element out takes it out of the filtered sequence. */
  lemma FilterWithout<T>(p: T -> bool, a: seq<T>, x: T, b: seq<T>)
    ensures multiset(Filter(p, a + [x] + b)) == multiset(Filter(p, a + b)) + multiset(Kept(p, x))
    ensures multiset(a + [x] + b) == multiset(a + b) + multiset{x}
  {
    FilterConcat(p, a + [x], b);
    FilterSnoc(p, a, x);
    FilterConcat(p, a, b);
  }

  lemma CancelOne<T>(m: multiset<T>, n: multiset<T>, x: T)
    requires m + multiset{x} == n + multiset{x}
    ensures m == n
  {
    assert m == (m + multiset{x}) - multiset{x};
    assert n == (n + multiset{x}) - multiset{x};
  }

  /** Filtering commutes with reordering. */
  lemma {:induction false} FilterPermuted<T>(p: T -> bool, a: seq<T>, b: seq<T>)
    requires multiset(a) == multiset(b)
    ensures multiset(Filter(p, a)) == multiset(Filter(p, b))
    ensures |Filter(p, a)| == |Filter(p, b)|
    decreases |a|
  {
    SameElements(a, b);
    if a != [] {
      var front, x := a[..|a| - 1], a[|a| - 1];
      assert x in b;
      var k :| 0 <= k < |b| && b[k] == x;
      var u, v := b[..k], b[k + 1..];
      assert a == front + [x] + [] && front + [] == front;
      assert b == u + [x] + v;
      FilterWithout(p, front, x, []);
      FilterWithout(p, u, x, v);
      CancelOne(multiset(front), multiset(u + v), x);
      FilterPermuted(p, front, u + v);
    }
    SameElements(Filter(p, a), Filter(p, b));
  }

  lemma SameElements<T>(a: seq<T>, b: seq<T>)
    requires multiset(a) == multiset(b)
    ensures |a| == |b|
    ensures forall x :: x in a <==> x in b
  {
    assert |multiset(a)| == |multiset(b)|;
    forall x ensures x in a <==> x in b {
      assert x in a <==> x in multiset(a);
      assert x in b <==> x in multiset(b);
    }
  }

  // ----- sorting -----

  function Insert<T(!new)>(before: (T, T) -> bool, x: T, s: seq<T>): (r: seq<T>)
    ensures multiset(r) == multiset(s) + multiset{x}
    decreases |s|
  {
    if s == [] then [x]
    else
      assert s == [s[0]] + s[1..];
      if before(x, s[0]) then [x] + s else [s[0]] + Insert(before, x, s[1..])
  }

  /** `s.sort(...)`: a reordering. */
  function Sort<T(!new)>(before: (T, T) -> bool, s: seq<T>): (r: seq<T>)
    ensures multiset(r) == multiset(s)
    decreases |s|
  {
    if s == [] then []
    else
      assert s == [s[0]] + s[1..];
      Insert(before, s[0], Sort(before, s[1..]))
  }

  ghost predicate InOrder<T(!new)>(before: (T, T) -> bool, s: seq<T>) {
    forall i, j :: 0 <= i < j < |s| ==> before(s[i], s[j])
  }

  ghost predicate IsTotalOrder<T(!new)>(before: (T, T) -> bool) {
    && (forall a, b :: before(a, b) || before(b, a))
    && (forall a, b, c :: before(a, b) && before(b, c) ==> before(a, c))
  }

  lemma {:induction false} InsertKeepsOrder<T(!new)>(before: (T, T) -> bool, x: T, s: seq<T>)
    requires IsTotalOrder(before) && InOrder(before, s)
    ensures InOrder(before, Insert(before, x, s))
    decreases |s|
  {
    if s != [] && !before(x, s[0]) {
      var rest := Insert(before, x, s[1..]);
      InsertKeepsOrder(before, x, s[1..]);
      forall k | 0 <= k < |rest| ensures before(s[0], rest[k]) {
        assert rest[k] in multiset(rest);
        assert rest[k] == x || rest[k] in s[1..];
      }
    }
  }

  /** Sorting sorts. */
  lemma {:induction false} SortIsInOrder<T(!new)>(before: (T, T) -> bool, s: seq<T>)
    requires IsTotalOrder(before)
    ensures InOrder(before, Sort(before, s))
    decreases |s|
  {
    if s != [] {
      SortIsInOrder(before, s[1..]);
      InsertKeepsOrder(before, s[0], Sort(before, s[1..]));
    }
  }

  // ----- distinctness by counting -----

  lemma {:induction false} DistinctSize<T>(a: seq<T>)
    ensures |SetOf(a)| <= |a|
    ensures Distinct(a) <==> |SetOf(a)| == |a|
  {
    if a != [] {
      var n := |a| - 1;
      var front := a[..n];
      DistinctSize(front);
      assert a == front + [a[n]];
      assert SetOf(a) == SetOf(front) + {a[n]};
      if a[n] in front {
        assert SetOf(a) == SetOf(front);
        var k :| 0 <= k < n && front[k] == a[n];
        assert a[k] == a[n];
      } else {
        if Distinct(front) { assert Distinct(a); }
        if Distinct(a) { assert forall i, j :: 0 <= i < j < n ==> front[i] == a[i] && front[j] == a[j]; }
      }
    }
  }

  lemma SubsetSize<T>(a: set<T>, b: set<T>)
    requires a <= b
    ensures |a| <= |b|
  {
    assert b == a + (b - a);
  }

  /** Distinct values drawn from a list are no more than the list. */
  lemma DistinctFitsIn<T>(a: seq<T>, b: seq<T>)
    requires Distinct(a) && forall i :: 0 <= i < |a| ==> a[i] in b
    ensures |a| <= |b|
  {
    DistinctSize(a);
    DistinctSize(b);
    assert SetOf(a) <= SetOf(b);
    SubsetSize(SetOf(a), SetOf(b));
  }
}
