/** The stable sort by key that the serialiser asks of the standard library
    (cpp/src/json.cpp:566-574). */
module KeySort {
  import opened Bytes
  import opened Json

  function Insert<T>(e: (bytes, T), sorted: seq<(bytes, T)>): (r: seq<(bytes, T)>) {
    if sorted == [] || !LexLess(sorted[0].0, e.0) then [e] + sorted
    else [sorted[0]] + Insert(e, sorted[1..])
  }

  function Sort<T>(xs: seq<(bytes, T)>): seq<(bytes, T)> {
    if xs == [] then [] else Insert(xs[0], Sort(xs[1..]))
  }

  predicate Ordered<T>(xs: seq<(bytes, T)>) {
    forall i, j | 0 <= i < j < |xs| :: !LexLess(xs[j].0, xs[i].0)
  }

  /** The entries with a given key, in their order. */
  function WithKey<T>(xs: seq<(bytes, T)>, key: bytes): seq<(bytes, T)> {
    if xs == [] then []
    else (if xs[0].0 == key then [xs[0]] else []) + WithKey(xs[1..], key)
  }

  lemma {:induction false} InsertKeeps<T>(e: (bytes, T), sorted: seq<(bytes, T)>)
    ensures multiset(Insert(e, sorted)) == multiset{e} + multiset(sorted)
  {
    if sorted != [] && LexLess(sorted[0].0, e.0) {
      InsertKeeps(e, sorted[1..]);
      assert sorted == [sorted[0]] + sorted[1..];
    }
  }

  lemma {:induction false} InsertKeepsOrder<T>(e: (bytes, T), sorted: seq<(bytes, T)>, key: bytes)
    ensures WithKey(Insert(e, sorted), key) == WithKey([e] + sorted, key)
  {
    if sorted != [] && LexLess(sorted[0].0, e.0) {
      var tail := sorted[1..];
      InsertKeepsOrder(e, tail, key);
      LexIrreflexive(e.0);
      Front(sorted[0], Insert(e, tail));
      Front(e, sorted);
      Front(e, tail);
    }
  }

  lemma {:induction false} InsertOrdered<T>(e: (bytes, T), sorted: seq<(bytes, T)>)
    requires Ordered(sorted)
    ensures Ordered(Insert(e, sorted))
  {
    if sorted == [] {
    } else if !LexLess(sorted[0].0, e.0) {
      forall j | 0 <= j < |sorted|
        ensures !LexLess(sorted[j].0, e.0)
      {
        NotLessTransitive(sorted[j].0, sorted[0].0, e.0);
      }
    } else {
      var r := Insert(e, sorted[1..]);
      InsertOrdered(e, sorted[1..]);
      InsertKeeps(e, sorted[1..]);
      LexAsymmetric(sorted[0].0, e.0);
      forall j | 0 <= j < |r|
        ensures !LexLess(r[j].0, sorted[0].0)
      {
        assert r[j] in multiset(r);
        assert r[j] == e || r[j] in sorted[1..];
      }
    }
  }

  lemma LexAsymmetric(a: bytes, b: bytes)
    requires LexLess(a, b)
    ensures !LexLess(b, a)
  {
    LexIrreflexive(a);
    if LexLess(b, a) { LexTransitive(a, b, a); }
  }

  lemma NotLessTransitive(a: bytes, b: bytes, c: bytes)
    requires (!LexLess(a, b) || a == b) && !LexLess(b, c)
    ensures !LexLess(a, c)
  {
    LexTotal(a, b);
    if LexLess(b, a) && LexLess(a, c) { LexTransitive(b, a, c); }
  }

  /** `Sort` orders its entries by key, loses and adds none, and keeps those with equal keys
      in their order. */
  lemma {:induction false} SortIsStable<T>(xs: seq<(bytes, T)>)
    ensures Ordered(Sort(xs)) && multiset(Sort(xs)) == multiset(xs)
    ensures forall key :: WithKey(Sort(xs), key) == WithKey(xs, key)
  {
    if xs != [] {
      var tail := xs[1..];
      SortIsStable(tail);
      InsertOrdered(xs[0], Sort(tail));
      InsertKeeps(xs[0], Sort(tail));
      assert xs == [xs[0]] + tail;
      forall key
        ensures WithKey(Sort(xs), key) == WithKey(xs, key)
      {
        InsertKeepsOrder(xs[0], Sort(tail), key);
        Front(xs[0], Sort(tail));
      }
    }
  }

  lemma SortMembership<T>(xs: seq<(bytes, T)>)
    ensures |Sort(xs)| == |xs|
    ensures forall e :: e in Sort(xs) <==> e in xs
  {
    SortIsStable(xs);
    assert |multiset(Sort(xs))| == |multiset(xs)|;
    forall e
      ensures e in Sort(xs) <==> e in xs
    {
      assert e in Sort(xs) <==> e in multiset(Sort(xs));
      assert e in xs <==> e in multiset(xs);
    }
  }

  lemma SortedMember<T>(xs: seq<(bytes, T)>, i: nat)
    requires i < |Sort(xs)|
    ensures Sort(xs)[i] in xs
  {
    var e := Sort(xs)[i];
    SortIsStable(xs);
    assert e in multiset(Sort(xs));
    assert e in multiset(xs);
  }

  lemma {:induction false} SortKeepsDistinct<T>(xs: seq<(bytes, T)>)
    requires Distinct(xs)
    ensures Distinct(Sort(xs))
  {
    SortIsStable(xs);
    var s := Sort(xs);
    forall key
      ensures |WithKey(s, key)| <= 1
    {
      DistinctCounts(xs, key);
      assert WithKey(s, key) == WithKey(xs, key);
    }
    forall i, j | 0 <= i < j < |s|
      ensures s[i].0 != s[j].0
    {
      WithKeyCounts(s, s[i].0, i, j);
    }
  }

  lemma {:induction false} WithKeyCounts<T>(xs: seq<(bytes, T)>, key: bytes, i: nat, j: nat)
    requires i < j < |xs| && xs[i].0 == key
    ensures xs[j].0 == key ==> |WithKey(xs, key)| >= 2
  {
    if xs[j].0 != key {
    } else if i == 0 { WithKeyFinds(xs[1..], key, j - 1); } else { WithKeyCounts(xs[1..], key, i - 1, j - 1); }
  }

  lemma {:induction false} WithKeyFinds<T>(xs: seq<(bytes, T)>, key: bytes, i: nat)
    requires i < |xs| && xs[i].0 == key
    ensures |WithKey(xs, key)| >= 1
  {
    if i > 0 { WithKeyFinds(xs[1..], key, i - 1); }
  }

  lemma {:induction false} DistinctCounts<T>(xs: seq<(bytes, T)>, key: bytes)
    requires Distinct(xs)
    ensures |WithKey(xs, key)| <= 1
  {
    if xs != [] {
      DistinctCounts(xs[1..], key);
      if xs[0].0 == key { AbsentCounts(xs[1..], key); }
    }
  }

  lemma {:induction false} AbsentCounts<T>(xs: seq<(bytes, T)>, key: bytes)
    requires forall i | 0 <= i < |xs| :: xs[i].0 != key
    ensures WithKey(xs, key) == []
  {
    if xs != [] { AbsentCounts(xs[1..], key); }
  }

  /** Sorting what is sorted changes nothing. */
  lemma {:induction false} SortOfOrdered<T>(xs: seq<(bytes, T)>)
    requires Ordered(xs)
    ensures Sort(xs) == xs
  {
    if xs != [] {
      SortOfOrdered(xs[1..]);
      assert xs == [xs[0]] + xs[1..];
      if |xs| > 1 { assert !LexLess(xs[1].0, xs[0].0); }
    }
  }

  // ----- Sorting looks only at the keys

  function MapValues<T, U>(f: T -> U, xs: seq<(bytes, T)>): (r: seq<(bytes, U)>)
    ensures |r| == |xs|
    ensures forall i | 0 <= i < |xs| :: r[i] == (xs[i].0, f(xs[i].1))
  {
    seq(|xs|, i requires 0 <= i < |xs| => (xs[i].0, f(xs[i].1)))
  }

  lemma {:induction false} InsertMapped<T, U>(f: T -> U, e: (bytes, T), xs: seq<(bytes, T)>)
    ensures MapValues(f, Insert(e, xs)) == Insert((e.0, f(e.1)), MapValues(f, xs))
  {
    if xs != [] && LexLess(xs[0].0, e.0) {
      InsertMapped(f, e, xs[1..]);
      assert MapValues(f, xs)[1..] == MapValues(f, xs[1..]);
      assert MapValues(f, Insert(e, xs)) == [(xs[0].0, f(xs[0].1))] + MapValues(f, Insert(e, xs[1..]));
    }
  }

  lemma {:induction false} SortMapped<T, U>(f: T -> U, xs: seq<(bytes, T)>)
    ensures Sort(MapValues(f, xs)) == MapValues(f, Sort(xs))
  {
    if xs != [] {
      SortMapped(f, xs[1..]);
      assert MapValues(f, xs)[1..] == MapValues(f, xs[1..]);
      InsertMapped(f, xs[0], Sort(xs[1..]));
    } else {
      assert MapValues(f, xs) == [];
    }
  }
}
