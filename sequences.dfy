/** Order-preserving selection from sequences: the shape shared by
    drop_duplicates(keep="first"), Series.unique() and boolean-mask filtering. */
module Sequences {

  /** The indices below n that satisfy keep, in increasing order. */
  function Where(n: nat, keep: nat -> bool): (idx: seq<nat>)
    ensures |idx| <= n
    ensures forall k :: 0 <= k < |idx| ==> idx[k] < n && keep(idx[k])
    ensures forall k, l :: 0 <= k < l < |idx| ==> idx[k] < idx[l]
    ensures forall i :: 0 <= i < n && keep(i) ==> i in idx
    ensures |idx| == n <==> forall i :: 0 <= i < n ==> keep(i)
  {
    if n == 0 then []
    else
      var prev := Where(n - 1, keep);
      if keep(n - 1) then prev + [n - 1] else prev
  }

  /** The elements of s at the positions idx, in that order. */
  function Select<T>(s: seq<T>, idx: seq<nat>): (r: seq<T>)
    requires forall k :: 0 <= k < |idx| ==> idx[k] < |s|
    ensures |r| == |idx|
    ensures forall k :: 0 <= k < |idx| ==> r[k] == s[idx[k]]
  {
    seq(|idx|, k requires 0 <= k < |idx| => s[idx[k]])
  }

  /** No earlier element of s has the key of s[i]. */
  predicate IsFirst<T, K(==)>(s: seq<T>, key: T -> K, i: nat)
    requires i < |s|
  {
    forall j | 0 <= j < i :: key(s[j]) != key(s[i])
  }

  ghost predicate UniqueKeys<T, K>(s: seq<T>, key: T -> K) {
    forall i, j :: 0 <= i < j < |s| ==> key(s[i]) != key(s[j])
  }

  function FirstKeep<T, K(==)>(s: seq<T>, key: T -> K): nat -> bool {
    (i: nat) => i < |s| && IsFirst(s, key, i)
  }

  /** Positions of the first occurrence of each key. */
  function FirstIndices<T, K(==)>(s: seq<T>, key: T -> K): seq<nat> {
    Where(|s|, FirstKeep(s, key))
  }

  /** Keeps the first element of each key, in the original order. */
  function DedupBy<T, K(==)>(s: seq<T>, key: T -> K): (r: seq<T>)
    ensures r == Select(s, FirstIndices(s, key))
  {
    Select(s, FirstIndices(s, key))
  }

  function Id<T>(x: T): T { x }

  ghost predicate NoDuplicates<T>(s: seq<T>) {
    forall i, j :: 0 <= i < j < |s| ==> s[i] != s[j]
  }

  /** Series.unique(): the distinct values in order of first appearance. */
  function Distinct<T(==)>(s: seq<T>): seq<T> {
    DedupBy(s, Id)
  }

  /** The elements of s satisfying p, in their original order: a boolean
      mask applied to a column. */
  function Filter<T>(s: seq<T>, p: T -> bool): (r: seq<T>)
    ensures |r| <= |s|
  {
    if s == [] then []
    else Filter(s[..|s| - 1], p) + (if p(s[|s| - 1]) then [s[|s| - 1]] else [])
  }

  function Count<T>(s: seq<T>, p: T -> bool): (n: nat)
    ensures n <= |s|
  {
    if s == [] then 0 else Count(s[..|s| - 1], p) + (if p(s[|s| - 1]) then 1 else 0)
  }

  /** No element satisfies p exactly when none is counted. */
  lemma {:induction false} CountZero<T>(s: seq<T>, p: T -> bool)
    ensures Count(s, p) == 0 <==> forall k :: 0 <= k < |s| ==> !p(s[k])
  {
    if s != [] {
      CountZero(s[..|s| - 1], p);
    }
  }

  // ---------------------------------------------------------------------
  // Deduplication

  /** Every key of s has a first occurrence at or before any occurrence. */
  lemma {:induction false} FirstOccurrence<T, K>(s: seq<T>, key: T -> K, i: nat)
    requires i < |s|
    ensures exists j :: 0 <= j <= i && IsFirst(s, key, j) && key(s[j]) == key(s[i])
  {
    if !IsFirst(s, key, i) {
      var j :| 0 <= j < i && key(s[j]) == key(s[i]);
      FirstOccurrence(s, key, j);
    }
  }

  /** After dedup no two elements share a key, every key of the input is
      still there, and each kept element is the first occurrence of its key,
      in the original relative order. */
  lemma DedupByProperties<T, K>(s: seq<T>, key: T -> K)
    ensures var r := DedupBy(s, key);
      && UniqueKeys(r, key)
      && (forall i :: 0 <= i < |s| ==> exists k :: 0 <= k < |r| && key(r[k]) == key(s[i]))
      && (forall x :: x in r ==> x in s)
      && |r| <= |s|
  {
    var idx := FirstIndices(s, key);
    var r := DedupBy(s, key);
    forall i | 0 <= i < |s|
      ensures exists k :: 0 <= k < |r| && key(r[k]) == key(s[i])
    {
      FirstOccurrence(s, key, i);
      var j :| 0 <= j <= i && IsFirst(s, key, j) && key(s[j]) == key(s[i]);
      assert FirstKeep(s, key)(j);
      var k :| 0 <= k < |idx| && idx[k] == j;
      assert r[k] == s[j];
    }
    forall p, q | 0 <= p < q < |r| ensures key(r[p]) != key(r[q]) {
      assert idx[p] < idx[q];
      assert FirstKeep(s, key)(idx[q]);
    }
  }

  /** Dedup keeps every element exactly when no two elements share a key. */
  lemma DedupByKeepsAll<T, K>(s: seq<T>, key: T -> K)
    ensures |DedupBy(s, key)| == |s| <==> UniqueKeys(s, key)
  {
    var keep := FirstKeep(s, key);
    var idx := FirstIndices(s, key);
    if UniqueKeys(s, key) {
      forall i | 0 <= i < |s| ensures keep(i) { }
    } else {
      var i, j :| 0 <= i < j < |s| && key(s[i]) == key(s[j]);
      assert !keep(j);
    }
  }

  /** A sequence with no repeated element has as many elements as its set. */
  lemma {:induction false} DistinctCardinality<T>(s: seq<T>)
    requires NoDuplicates(s)
    ensures |(set x | x in s)| == |s|
  {
    if s != [] {
      var init := s[..|s| - 1];
      DistinctCardinality(init);
      assert s == init + [s[|s| - 1]];
      assert (set x | x in s) == (set x | x in init) + {s[|s| - 1]};
    }
  }

  /** unique(): no repeats, the same values as s, first appearances in order,
      and as many values as s has distinct ones. */
  lemma DistinctProperties<T>(s: seq<T>)
    ensures var r := Distinct(s);
      && NoDuplicates(r)
      && (set x | x in r) == (set x | x in s)
      && |r| == |(set x | x in s)|
      && r == Select(s, FirstIndices(s, Id))
  {
    var r := Distinct(s);
    DedupByProperties(s, Id);
    forall i, j | 0 <= i < j < |r| ensures r[i] != r[j] {
      assert Id(r[i]) != Id(r[j]);
    }
    forall y | y in s ensures y in r {
      var i :| 0 <= i < |s| && s[i] == y;
      var k :| 0 <= k < |r| && Id(r[k]) == Id(s[i]);
    }
    DistinctCardinality(r);
  }

  // ---------------------------------------------------------------------
  // Filtering

  /** Filter keeps exactly the elements satisfying p, keeps everything
      exactly when everything satisfies p, and keeps as many elements as
      Count counts. */
  lemma {:induction false} FilterProperties<T>(s: seq<T>, p: T -> bool)
    ensures var r := Filter(s, p);
      && (forall k :: 0 <= k < |r| ==> p(r[k]))
      && (forall x :: x in s && p(x) <==> x in r)
      && |r| == Count(s, p)
      && (|r| == |s| <==> forall x :: x in s ==> p(x))
  {
    if s != [] {
      var init, last := s[..|s| - 1], s[|s| - 1];
      assert s == init + [last];
      FilterProperties(init, p);
      if !p(last) {
        assert |Filter(init, p)| <= |init| < |s|;
      }
    }
  }

  /** Filtering by a predicate that always holds is the identity. */
  lemma {:induction false} FilterAll<T>(s: seq<T>, p: T -> bool)
    requires forall x :: x in s ==> p(x)
    ensures Filter(s, p) == s
  {
    if s != [] {
      var init := s[..|s| - 1];
      assert s == init + [s[|s| - 1]];
      FilterAll(init, p);
    }
  }

  /** Predicates that agree on s filter it alike. */
  lemma {:induction false} FilterAgree<T>(s: seq<T>, p: T -> bool, q: T -> bool)
    requires forall x :: x in s ==> p(x) == q(x)
    ensures Filter(s, p) == Filter(s, q)
  {
    if s != [] {
      var init := s[..|s| - 1];
      assert s == init + [s[|s| - 1]];
      FilterAgree(init, p, q);
    }
  }

  /** Filtering distributes over concatenation. */
  lemma {:induction false} FilterAppend<T>(a: seq<T>, b: seq<T>, p: T -> bool)
    ensures Filter(a + b, p) == Filter(a, p) + Filter(b, p)
  {
    if b != [] {
      var init := b[..|b| - 1];
      assert b == init + [b[|b| - 1]];
      assert a + b == (a + init) + [b[|b| - 1]];
      assert (a + b)[..|a + b| - 1] == a + init;
      FilterAppend(a, init, p);
    } else {
      assert a + b == a;
    }
  }

  function Both<T>(p: T -> bool, q: T -> bool): T -> bool {
    x => p(x) && q(x)
  }

  /** Filtering twice is filtering once by both predicates. */
  lemma {:induction false} FilterTwice<T>(s: seq<T>, p: T -> bool, q: T -> bool)
    ensures Filter(Filter(s, p), q) == Filter(s, Both(p, q))
  {
    if s != [] {
      var init, last := s[..|s| - 1], s[|s| - 1];
      assert s == init + [last];
      FilterTwice(init, p, q);
      FilterAppend(Filter(init, p), if p(last) then [last] else [], q);
      if p(last) {
        assert Filter([last], q) == Filter([], q) + (if q(last) then [last] else []);
      }
    }
  }

  // ---------------------------------------------------------------------
  // Counting

  function Either<T>(p: T -> bool, q: T -> bool): T -> bool {
    x => p(x) || q(x)
  }

  /** Predicates that agree on s count alike. */
  lemma {:induction false} CountAgree<T>(s: seq<T>, p: T -> bool, q: T -> bool)
    requires forall x :: x in s ==> p(x) == q(x)
    ensures Count(s, p) == Count(s, q)
  {
    if s != [] {
      var init := s[..|s| - 1];
      assert forall x :: x in init ==> x in s;
      CountAgree(init, p, q);
    }
  }

  /** Counts of predicates that never hold together add up. */
  lemma {:induction false} CountDisjoint<T>(s: seq<T>, p: T -> bool, q: T -> bool)
    requires forall x :: x in s ==> !(p(x) && q(x))
    ensures Count(s, p) + Count(s, q) == Count(s, Either(p, q))
  {
    if s != [] {
      var init := s[..|s| - 1];
      assert forall x :: x in init ==> x in s;
      CountDisjoint(init, p, q);
    }
  }

  /** A predicate that holds throughout counts every element. */
  lemma {:induction false} CountAll<T>(s: seq<T>, p: T -> bool)
    requires forall x :: x in s ==> p(x)
    ensures Count(s, p) == |s|
  {
    if s != [] {
      var init := s[..|s| - 1];
      assert forall x :: x in init ==> x in s;
      CountAll(init, p);
    }
  }

  function Sum(xs: seq<nat>): nat {
    if xs == [] then 0 else Sum(xs[..|xs| - 1]) + xs[|xs| - 1]
  }
}
