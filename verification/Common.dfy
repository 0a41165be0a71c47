/**
 Vocabulary shared by the allocation engine and the core service: identifiers,
 optional values, filters and sums along a list, and the stable sort of
 Python's `sorted` on tuple keys, which keeps the order of elements whose keys
 are equal.
 */
module Common {

  type StudentId = string
  type RoomId = int

  datatype Option<+T> = None | Some(value: T)

  /** No element occurs twice. */
  ghost predicate Unique<T>(xs: seq<T>) {
    forall i, j :: 0 <= i < j < |xs| ==> xs[i] != xs[j]
  }

  lemma SomeMember(s: set<int>)
    requires s != {}
    ensures exists x: int :: x in s
  {
    if forall x: int :: x !in s {
      assert false;
    }
  }

  lemma SubsetSize<T>(a: set<T>, b: set<T>)
    requires a <= b
    ensures |a| <= |b|
  {
    assert b == a + (b - a);
  }

  lemma {:induction false} MembersCount<T>(xs: seq<T>)
    ensures |set x | x in xs| <= |xs|
  {
    if xs != [] {
      var n := |xs| - 1;
      MembersCount(xs[..n]);
      assert xs == xs[..n] + [xs[n]];
      assert (set x | x in xs) == (set x | x in xs[..n]) + {xs[n]};
    }
  }

  /** The elements of xs that satisfy p, in order. */
  function Filter<T(!new)>(xs: seq<T>, p: T -> bool): (r: seq<T>)
    ensures forall x :: x in r <==> x in xs && p(x)
  {
    if xs == [] then []
    else
      var n := |xs| - 1;
      assert xs == xs[..n] + [xs[n]];
      Filter(xs[..n], p) + (if p(xs[n]) then [xs[n]] else [])
  }

  /** The places of the elements with property p. */
  function Places<T(!new)>(xs: seq<T>, p: T -> bool): set<int> {
    set i | 0 <= i < |xs| && p(xs[i])
  }

  lemma PlacesNext<T(!new)>(xs: seq<T>, x: T, p: T -> bool)
    ensures |Places(xs + [x], p)| == |Places(xs, p)| + if p(x) then 1 else 0
  {
    if p(x) {
      assert Places(xs + [x], p) == Places(xs, p) + {|xs|};
    } else {
      assert Places(xs + [x], p) == Places(xs, p);
    }
  }

  /** ys consists of the elements of xs at the given places, which ascend. */
  ghost predicate PicksFrom<T>(ys: seq<T>, xs: seq<T>, places: seq<nat>) {
    && |places| == |ys|
    && (forall k :: 0 <= k < |ys| ==> places[k] < |xs| && ys[k] == xs[places[k]])
    && (forall k, m :: 0 <= k < m < |places| ==> places[k] < places[m])
  }

  /** Filtering keeps the order and every copy of what it keeps. */
  lemma FilterPicks<T(!new)>(xs: seq<T>, p: T -> bool) returns (places: seq<nat>)
    ensures PicksFrom(Filter(xs, p), xs, places)
    ensures forall x :: multiset(Filter(xs, p))[x] == if p(x) then multiset(xs)[x] else 0
  {
    places := FilterPlaces(xs, p);
    FilterCounts(xs, p);
  }

  lemma {:induction false} FilterPlaces<T(!new)>(xs: seq<T>, p: T -> bool) returns (places: seq<nat>)
    ensures PicksFrom(Filter(xs, p), xs, places)
  {
    places := [];
    if xs != [] {
      var n := |xs| - 1;
      assert xs == xs[..n] + [xs[n]];
      places := FilterPlaces(xs[..n], p);
      PicksLonger(Filter(xs[..n], p), xs, places);
      FilterAppend(xs[..n], xs[n], p);
      if p(xs[n]) {
        places := places + [n];
      }
    }
  }

  lemma {:induction false} FilterCounts<T(!new)>(xs: seq<T>, p: T -> bool)
    ensures forall x :: multiset(Filter(xs, p))[x] == if p(x) then multiset(xs)[x] else 0
  {
    if xs != [] {
      var n := |xs| - 1;
      assert xs == xs[..n] + [xs[n]];
      FilterCounts(xs[..n], p);
      FilterAppend(xs[..n], xs[n], p);
    }
  }

  lemma PicksLonger<T>(ys: seq<T>, xs: seq<T>, places: seq<nat>)
    requires |xs| > 0 && PicksFrom(ys, xs[..|xs| - 1], places)
    ensures PicksFrom(ys, xs, places) && PicksFrom(ys + [xs[|xs| - 1]], xs, places + [|xs| - 1])
  {
  }

  lemma {:induction false} FilterAll<T(!new)>(xs: seq<T>, p: T -> bool)
    requires forall x :: x in xs ==> p(x)
    ensures Filter(xs, p) == xs
  {
    if xs != [] {
      var n := |xs| - 1;
      assert xs == xs[..n] + [xs[n]];
      FilterAll(xs[..n], p);
    }
  }

  /** The order of Python tuples of integers. */
  predicate LexLeq(a: seq<int>, b: seq<int>) {
    if a == [] then true
    else if b == [] then false
    else a[0] < b[0] || (a[0] == b[0] && LexLeq(a[1..], b[1..]))
  }

  lemma LexTotal(a: seq<int>, b: seq<int>)
    ensures LexLeq(a, b) || LexLeq(b, a)
  {
  }

  lemma LexTransitive(a: seq<int>, b: seq<int>, c: seq<int>)
    requires LexLeq(a, b) && LexLeq(b, c)
    ensures LexLeq(a, c)
  {
  }

  ghost predicate SortedBy<T>(xs: seq<T>, key: T -> seq<int>) {
    forall i, j :: 0 <= i < j < |xs| ==> LexLeq(key(xs[i]), key(xs[j]))
  }

  function InsertBy<T>(x: T, xs: seq<T>, key: T -> seq<int>): seq<T> {
    if xs == [] then [x]
    else if LexLeq(key(x), key(xs[0])) then [x] + xs
    else [xs[0]] + InsertBy(x, xs[1..], key)
  }

  /** Stable ascending sort by key. */
  function SortBy<T>(xs: seq<T>, key: T -> seq<int>): seq<T> {
    if xs == [] then [] else InsertBy(xs[0], SortBy(xs[1..], key), key)
  }

  lemma {:induction false} InsertByPermutes<T(!new)>(x: T, xs: seq<T>, key: T -> seq<int>)
    ensures multiset(InsertBy(x, xs, key)) == multiset{x} + multiset(xs)
  {
    if xs != [] {
      assert xs == [xs[0]] + xs[1..];
      if !LexLeq(key(x), key(xs[0])) {
        InsertByPermutes(x, xs[1..], key);
      }
    }
  }

  lemma {:induction false} SortByPermutes<T(!new)>(xs: seq<T>, key: T -> seq<int>)
    ensures multiset(SortBy(xs, key)) == multiset(xs)
    ensures |SortBy(xs, key)| == |xs|
    ensures forall x :: x in SortBy(xs, key) <==> x in xs
  {
    if xs != [] {
      SortByPermutes(xs[1..], key);
      InsertByPermutes(xs[0], SortBy(xs[1..], key), key);
      assert xs == [xs[0]] + xs[1..];
    }
    SameElements(SortBy(xs, key), xs);
  }

  lemma SameElements<T(!new)>(a: seq<T>, b: seq<T>)
    requires multiset(a) == multiset(b)
    ensures |a| == |b|
    ensures forall x :: x in a <==> x in b
  {
    assert |multiset(a)| == |a| && |multiset(b)| == |b|;
    forall x
      ensures x in a <==> x in b
    {
      assert x in a <==> x in multiset(a);
      assert x in b <==> x in multiset(b);
    }
  }

  lemma {:induction false} InsertBySorted<T(!new)>(x: T, xs: seq<T>, key: T -> seq<int>)
    requires SortedBy(xs, key)
    ensures SortedBy(InsertBy(x, xs, key), key)
  {
    if xs != [] {
      if LexLeq(key(x), key(xs[0])) {
        forall j | 0 <= j < |xs|
          ensures LexLeq(key(x), key(xs[j]))
        {
          if j > 0 {
            LexTransitive(key(x), key(xs[0]), key(xs[j]));
          }
        }
      } else {
        LexTotal(key(x), key(xs[0]));
        var tail := InsertBy(x, xs[1..], key);
        InsertBySorted(x, xs[1..], key);
        InsertByPermutes(x, xs[1..], key);
        forall j | 0 <= j < |tail|
          ensures LexLeq(key(xs[0]), key(tail[j]))
        {
          assert tail[j] in multiset(tail);
          if tail[j] != x {
            assert tail[j] in xs[1..];
          }
        }
      }
    }
  }

  lemma {:induction false} SortBySorted<T(!new)>(xs: seq<T>, key: T -> seq<int>)
    ensures SortedBy(SortBy(xs, key), key)
  {
    if xs != [] {
      SortBySorted(xs[1..], key);
      InsertBySorted(xs[0], SortBy(xs[1..], key), key);
    }
  }

  /** Where insertion puts its element: before everything whose key is not smaller. */
  lemma {:induction false} InsertByPlace<T(!new)>(x: T, xs: seq<T>, key: T -> seq<int>) returns (p: nat)
    ensures p <= |xs| && InsertBy(x, xs, key) == xs[..p] + [x] + xs[p..]
    ensures forall k :: 0 <= k < p ==> !LexLeq(key(x), key(xs[k]))
    ensures p < |xs| ==> LexLeq(key(x), key(xs[p]))
  {
    if xs == [] || LexLeq(key(x), key(xs[0])) {
      p := 0;
    } else {
      var q := InsertByPlace(x, xs[1..], key);
      p := q + 1;
      assert xs == [xs[0]] + xs[1..];
    }
  }

  /** x stands before y somewhere in the list. */
  ghost predicate Precedes<T>(xs: seq<T>, x: T, y: T) {
    exists p, q :: 0 <= p < q < |xs| && xs[p] == x && xs[q] == y
  }

  lemma InsertKeepsPrecedes<T(!new)>(x: T, xs: seq<T>, key: T -> seq<int>, a: T, b: T)
    requires Precedes(xs, a, b)
    ensures Precedes(InsertBy(x, xs, key), a, b)
  {
    var i := InsertByPlace(x, xs, key);
    var p, q :| 0 <= p < q < |xs| && xs[p] == a && xs[q] == b;
    var ys := xs[..i] + [x] + xs[i..];
    assert ys[if p < i then p else p + 1] == a && ys[if q < i then q else q + 1] == b;
  }

  lemma InsertPrecedes<T(!new)>(x: T, xs: seq<T>, key: T -> seq<int>, y: T)
    requires y in xs && LexLeq(key(x), key(y))
    requires forall i, j :: 0 <= i < j < |xs| ==> LexLeq(key(xs[i]), key(xs[j]))
    ensures Precedes(InsertBy(x, xs, key), x, y)
  {
    var p := InsertByPlace(x, xs, key);
    var q :| 0 <= q < |xs| && xs[q] == y;
    assert p <= q;
    PutBefore(x, xs, p, q);
  }

  lemma PutBefore<T>(x: T, xs: seq<T>, p: nat, q: nat)
    requires p <= q < |xs|
    ensures Precedes(xs[..p] + [x] + xs[p..], x, xs[q])
  {
    var ys := xs[..p] + [x] + xs[p..];
    assert ys[p] == x && ys[q + 1] == xs[q];
  }

  /** The sort is stable: of two elements with equal keys the one listed first stays first. */
  lemma {:induction false} SortByStable<T(!new)>(xs: seq<T>, key: T -> seq<int>, i: nat, j: nat)
    requires i < j < |xs| && key(xs[i]) == key(xs[j])
    ensures Precedes(SortBy(xs, key), xs[i], xs[j])
  {
    var tail := SortBy(xs[1..], key);
    if i == 0 {
      SortByPermutes(xs[1..], key);
      SortBySorted(xs[1..], key);
      LexTotal(key(xs[0]), key(xs[j]));
      assert xs[1..][j - 1] == xs[j] && xs[j] in xs[1..];
      InsertPrecedes(xs[0], tail, key, xs[j]);
    } else {
      SortByStable(xs[1..], key, i - 1, j - 1);
      InsertKeepsPrecedes(xs[0], tail, key, xs[i], xs[j]);
    }
  }

  /**
   The first element with property p of the sorted list: the one with the
   smallest key of those with p, and of these the one listed first.
   */
  lemma {:induction false} FirstOfSorted<T(!new)>(xs: seq<T>, key: T -> seq<int>, p: T -> bool, i: nat) returns (f: nat)
    requires IsFirst(xs, key, p, i)
    ensures f < |SortBy(xs, key)| && SortBy(xs, key)[f] == xs[i]
    ensures forall g :: 0 <= g < f ==> !p(SortBy(xs, key)[g])
  {
    var tail := SortBy(xs[1..], key);
    SortBySorted(xs[1..], key);
    var at := InsertByPlace(xs[0], tail, key);
    if i == 0 {
      f := at;
      NoneBefore(xs, key, p, at);
    } else {
      TailOfFirst(xs, key, p, i);
      var before := FirstOfSorted(xs[1..], key, p, i - 1);
      f := FirstAfterInsert(xs[0], tail, key, p, before, at);
    }
  }

  /** i is the first of the elements with property p and the smallest key. */
  ghost predicate IsFirst<T(!new)>(xs: seq<T>, key: T -> seq<int>, p: T -> bool, i: nat) {
    && i < |xs| && p(xs[i])
    && forall k :: 0 <= k < |xs| && p(xs[k]) ==> LexLeq(key(xs[i]), key(xs[k])) && (k < i ==> !LexLeq(key(xs[k]), key(xs[i])))
  }

  lemma TailOfFirst<T(!new)>(xs: seq<T>, key: T -> seq<int>, p: T -> bool, i: nat)
    requires IsFirst(xs, key, p, i) && i > 0
    ensures IsFirst(xs[1..], key, p, i - 1)
  {
  }

  /** If the first element is the one, nothing that is sorted before it has the property. */
  lemma NoneBefore<T(!new)>(xs: seq<T>, key: T -> seq<int>, p: T -> bool, at: nat)
    requires IsFirst(xs, key, p, 0) && at <= |SortBy(xs[1..], key)|
    requires forall k :: 0 <= k < at ==> !LexLeq(key(xs[0]), key(SortBy(xs[1..], key)[k]))
    ensures forall g :: 0 <= g < at ==> !p(SortBy(xs[1..], key)[g])
  {
    var tail := SortBy(xs[1..], key);
    SortByPermutes(xs[1..], key);
    forall g | 0 <= g < at
      ensures !p(tail[g])
    {
      assert tail[g] in tail;
      var k :| 0 <= k < |xs[1..]| && xs[1..][k] == tail[g];
      assert xs[k + 1] == tail[g];
    }
  }

  lemma FirstAfterInsert<T(!new)>(x: T, xs: seq<T>, key: T -> seq<int>, p: T -> bool, f: nat, at: nat) returns (f': nat)
    requires f < |xs| && p(xs[f]) && (forall g :: 0 <= g < f ==> !p(xs[g])) && SortedBy(xs, key)
    requires at <= |xs| && InsertBy(x, xs, key) == xs[..at] + [x] + xs[at..] && (at < |xs| ==> LexLeq(key(x), key(xs[at])))
    requires p(x) ==> !LexLeq(key(x), key(xs[f]))
    ensures f' < |InsertBy(x, xs, key)| && InsertBy(x, xs, key)[f'] == xs[f]
    ensures forall g :: 0 <= g < f' ==> !p(InsertBy(x, xs, key)[g])
  {
    f' := if f < at then f else f + 1;
    if at <= f && p(x) {
      if at < f {
        LexTransitive(key(x), key(xs[at]), key(xs[f]));
      }
      assert false;
    }
  }

  /** Sorting looks at nothing but the keys of the elements it is given. */
  lemma {:induction false} SortByCongruence<T(!new)>(xs: seq<T>, key: T -> seq<int>, key': T -> seq<int>)
    requires forall x :: x in xs ==> key(x) == key'(x)
    ensures SortBy(xs, key) == SortBy(xs, key')
  {
    if xs != [] {
      SortByCongruence(xs[1..], key, key');
      SortByPermutes(xs[1..], key);
      forall y | y in SortBy(xs[1..], key)
        ensures key(y) == key'(y)
      {
        assert y in xs[1..];
      }
      InsertByCongruence(xs[0], SortBy(xs[1..], key), key, key');
    }
  }

  lemma {:induction false} InsertByCongruence<T(!new)>(x: T, xs: seq<T>, key: T -> seq<int>, key': T -> seq<int>)
    requires key(x) == key'(x) && forall y :: y in xs ==> key(y) == key'(y)
    ensures InsertBy(x, xs, key) == InsertBy(x, xs, key')
  {
    if xs != [] {
      InsertByCongruence(x, xs[1..], key, key');
    }
  }

  /** Permuting distinct elements keeps them distinct. */
  lemma UniquePermuted<T>(a: seq<T>, b: seq<T>)
    requires Unique(a) && multiset(a) == multiset(b)
    ensures Unique(b)
  {
    forall i, j | 0 <= i < j < |b|
      ensures b[i] != b[j]
    {
      if b[i] == b[j] {
        assert b == b[..i] + [b[i]] + b[i + 1..j] + [b[j]] + b[j + 1..];
        assert multiset(b)[b[i]] >= 2;
        UniqueCount(a, b[i]);
      }
    }
  }

  lemma {:induction false} UniqueCount<T>(a: seq<T>, x: T)
    requires Unique(a)
    ensures multiset(a)[x] <= 1
  {
    if a != [] {
      UniqueCount(a[1..], x);
      assert a == [a[0]] + a[1..];
      if a[0] == x {
        assert x !in a[1..];
        assert x !in multiset(a[1..]);
      }
    }
  }

  function Total<T>(xs: seq<T>, f: T -> int): int {
    if xs == [] then 0 else Total(xs[..|xs| - 1], f) + f(xs[|xs| - 1])
  }

  lemma {:induction false} TotalConcat<T>(a: seq<T>, b: seq<T>, f: T -> int)
    ensures Total(a + b, f) == Total(a, f) + Total(b, f)
  {
    if b == [] {
      assert a + b == a;
    } else {
      var n := |b| - 1;
      assert (a + b)[..|a + b| - 1] == a + b[..n];
      TotalConcat(a, b[..n], f);
    }
  }

  lemma WithoutOne<T>(xs: seq<T>, k: nat)
    requires k < |xs|
    ensures multiset(xs) == multiset(xs[..k] + xs[k + 1..]) + multiset{xs[k]}
  {
    assert xs == xs[..k] + [xs[k]] + xs[k + 1..];
  }

  lemma RemoveOne<T>(a: seq<T>, i: nat, b: seq<T>, k: nat)
    requires i < |a| && k < |b| && a[i] == b[k] && multiset(a) == multiset(b)
    ensures multiset(a[..i] + a[i + 1..]) == multiset(b[..k] + b[k + 1..])
  {
    WithoutOne(a, i);
    WithoutOne(b, k);
    assert multiset(a[..i] + a[i + 1..]) == multiset(a) - multiset{a[i]};
    assert multiset(b[..k] + b[k + 1..]) == multiset(b) - multiset{a[i]};
  }

  lemma {:induction false} TotalPermuted<T(!new)>(a: seq<T>, b: seq<T>, f: T -> int)
    requires multiset(a) == multiset(b)
    ensures Total(a, f) == Total(b, f)
  {
    SameElements(a, b);
    if a != [] {
      var x := a[|a| - 1];
      assert a == a[..|a| - 1] + [x];
      assert x in b;
      var k :| 0 <= k < |b| && b[k] == x;
      assert b == b[..k] + [x] + b[k + 1..];
      TotalConcat(b[..k], [x], f);
      TotalConcat(b[..k] + [x], b[k + 1..], f);
      TotalConcat(b[..k], b[k + 1..], f);
      RemoveOne(a, |a| - 1, b, k);
      assert a[..|a| - 1] + a[|a|..] == a[..|a| - 1];
      TotalPermuted(a[..|a| - 1], b[..k] + b[k + 1..], f);
    }
  }

  lemma {:induction false} TotalFiltered<T(!new)>(xs: seq<T>, p: T -> bool, f: T -> int)
    requires forall x :: x in xs && !p(x) ==> f(x) == 0
    ensures Total(Filter(xs, p), f) == Total(xs, f)
  {
    if xs != [] {
      var n := |xs| - 1;
      assert xs == xs[..n] + [xs[n]];
      TotalFiltered(xs[..n], p, f);
      FilterAppend(xs[..n], xs[n], p);
      TotalAppend(Filter(xs[..n], p), xs[n], f);
    }
  }

  lemma FilterAppend<T(!new)>(xs: seq<T>, x: T, p: T -> bool)
    ensures Filter(xs + [x], p) == if p(x) then Filter(xs, p) + [x] else Filter(xs, p)
  {
    assert (xs + [x])[..|xs|] == xs;
    assert Filter(xs, p) + [] == Filter(xs, p);
  }

  lemma TotalAppend<T>(xs: seq<T>, x: T, f: T -> int)
    ensures Total(xs + [x], f) == Total(xs, f) + f(x)
  {
    assert (xs + [x])[..|xs|] == xs;
  }

  lemma {:induction false} TotalCongruence<T(!new)>(xs: seq<T>, f: T -> int, g: T -> int)
    requires forall x :: x in xs ==> f(x) == g(x)
    ensures Total(xs, f) == Total(xs, g)
  {
    if xs != [] {
      assert xs == xs[..|xs| - 1] + [xs[|xs| - 1]];
      TotalCongruence(xs[..|xs| - 1], f, g);
    }
  }
}
