/** The order behind DataFrame.nlargest / nsmallest with keep="first"
    (src/data_processor.py:138-141): rows with a number come first, by
    value (largest first for nlargest, smallest first for nsmallest), ties
    in row order; rows whose value is missing follow, in row order. */
module Ranking {
  import opened Tables

  /** The cell of column col at row i; rows past the end read as missing. */
  function CellAt(col: seq<Cell>, i: nat): Cell {
    if i < |col| then col[i] else Missing
  }

  /** Row i comes before row j in the ranking of col. */
  predicate Ahead(col: seq<Cell>, ascending: bool, i: nat, j: nat) {
    var x := CellAt(col, i);
    var y := CellAt(col, j);
    if x.Num? && y.Num? then
      if x.v == y.v then i < j
      else if ascending then x.v < y.v
      else x.v > y.v
    else if x.Num? then true
    else if y.Num? then false
    else i < j
  }

  lemma AheadIrreflexive(col: seq<Cell>, ascending: bool, i: nat)
    ensures !Ahead(col, ascending, i, i)
  {
  }

  lemma AheadTransitive(col: seq<Cell>, ascending: bool, i: nat, j: nat, k: nat)
    requires Ahead(col, ascending, i, j) && Ahead(col, ascending, j, k)
    ensures Ahead(col, ascending, i, k)
  {
  }

  /** Two different rows are always ranked one way or the other. */
  lemma AheadTotal(col: seq<Cell>, ascending: bool, i: nat, j: nat)
    requires i != j
    ensures Ahead(col, ascending, i, j) || Ahead(col, ascending, j, i)
  {
  }

  /** Row indices listed in ranking order. */
  ghost predicate Ranked(col: seq<Cell>, ascending: bool, s: seq<nat>) {
    forall a, b :: 0 <= a < b < |s| ==> Ahead(col, ascending, s[a], s[b])
  }

  lemma RankedCons(col: seq<Cell>, ascending: bool, h: nat, s: seq<nat>)
    requires Ranked(col, ascending, s)
    requires forall k :: 0 <= k < |s| ==> Ahead(col, ascending, h, s[k])
    ensures Ranked(col, ascending, [h] + s)
  {
    var r := [h] + s;
    forall a, b | 0 <= a < b < |r| ensures Ahead(col, ascending, r[a], r[b]) {
      assert r[b] == s[b - 1];
      if a > 0 { assert r[a] == s[a - 1]; }
    }
  }

  /** Inserts row x into a ranked list that does not hold it yet. */
  function InsertRanked(col: seq<Cell>, ascending: bool, x: nat, s: seq<nat>): (r: seq<nat>)
    requires Ranked(col, ascending, s) && x !in s
    ensures Ranked(col, ascending, r)
    ensures multiset(r) == multiset(s) + multiset{x}
  {
    if s == [] then [x]
    else if Ahead(col, ascending, x, s[0]) then
      assert forall k :: 0 <= k < |s| ==> Ahead(col, ascending, x, s[k]) by {
        forall k | 0 < k < |s| ensures Ahead(col, ascending, x, s[k]) {
          AheadTransitive(col, ascending, x, s[0], s[k]);
        }
      }
      RankedCons(col, ascending, x, s);
      [x] + s
    else
      AheadTotal(col, ascending, x, s[0]);
      assert s == [s[0]] + s[1..];
      var rest := InsertRanked(col, ascending, x, s[1..]);
      assert multiset(s) == multiset{s[0]} + multiset(s[1..]);
      assert forall k :: 0 <= k < |rest| ==> Ahead(col, ascending, s[0], rest[k]) by {
        forall k | 0 <= k < |rest| ensures Ahead(col, ascending, s[0], rest[k]) {
          assert rest[k] in multiset(rest);
          if rest[k] != x {
            assert rest[k] in multiset(s[1..]);
            var j :| 0 <= j < |s[1..]| && s[1..][j] == rest[k];
            assert s[j + 1] == rest[k];
          }
        }
      }
      RankedCons(col, ascending, s[0], rest);
      [s[0]] + rest
  }

  lemma SameMembers(r: seq<nat>, s: seq<nat>, x: nat)
    requires multiset(r) == multiset(s) + multiset{x}
    ensures |r| == |s| + 1
    ensures forall i :: i in r <==> i in s || i == x
  {
    assert |r| == |multiset(r)|;
    forall i ensures i in r <==> i in s || i == x {
      assert i in r <==> i in multiset(r);
      assert i in s <==> i in multiset(s);
    }
  }

  /** The rows 0 .. n-1 in ranking order. */
  function RankRows(col: seq<Cell>, ascending: bool, n: nat): (r: seq<nat>)
    ensures Ranked(col, ascending, r)
    ensures |r| == n
    ensures forall i :: i in r <==> 0 <= i < n
  {
    if n == 0 then []
    else
      var last: nat := n - 1;
      var prev := RankRows(col, ascending, last);
      var r := InsertRanked(col, ascending, last, prev);
      SameMembers(r, prev, last);
      r
  }

  /** How many rows nlargest(n) / nsmallest(n) return: none when n is not
      positive, n when the table has that many, every row otherwise. */
  function Clamp(n: int, len: nat): (k: nat)
    ensures k <= len
    ensures n <= 0 ==> k == 0
    ensures 0 < n <= len ==> k == n
    ensures n > len ==> k == len
  {
    if n <= 0 then 0 else if n > len then len else n
  }

  /** The rows nlargest(n) (or nsmallest(n) when ascending) returns, in order. */
  function TopRows(col: seq<Cell>, ascending: bool, n: int): (top: seq<nat>)
    ensures |top| == Clamp(n, |col|)
    ensures forall k :: 0 <= k < |top| ==> top[k] < |col|
  {
    var all := RankRows(col, ascending, |col|);
    assert forall k :: 0 <= k < |all| ==> all[k] in all;
    all[..Clamp(n, |col|)]
  }

  /** A ranked list never repeats a row. */
  lemma RankedDistinct(col: seq<Cell>, ascending: bool, s: seq<nat>, a: nat, b: nat)
    requires Ranked(col, ascending, s) && a < b < |s|
    ensures s[a] != s[b]
  {
    if s[a] == s[b] { AheadIrreflexive(col, ascending, s[a]); }
  }

  /** The selection holds min(max(n, 0), |col|) distinct rows of the table,
      in ranking order, and every row left out ranks behind every row
      selected. */
  lemma TopRowsProperties(col: seq<Cell>, ascending: bool, n: int)
    ensures var top := TopRows(col, ascending, n);
      && |top| == Clamp(n, |col|)
      && (forall k :: 0 <= k < |top| ==> top[k] < |col|)
      && (forall a, b :: 0 <= a < b < |top| ==> top[a] != top[b])
      && Ranked(col, ascending, top)
      && (forall j, k :: 0 <= j < |col| && j !in top && 0 <= k < |top| ==> Ahead(col, ascending, top[k], j))
  {
    var all := RankRows(col, ascending, |col|);
    var top := TopRows(col, ascending, n);
    forall k | 0 <= k < |top| ensures top[k] < |col| {
      assert top[k] == all[k] && all[k] in all;
    }
    forall a, b | 0 <= a < b < |top| ensures top[a] != top[b] {
      RankedDistinct(col, ascending, all, a, b);
    }
    forall j, k | 0 <= j < |col| && j !in top && 0 <= k < |top| ensures Ahead(col, ascending, top[k], j) {
      assert j in all;
      var p :| 0 <= p < |all| && all[p] == j;
      assert forall q :: 0 <= q < |top| ==> top[q] == all[q];
    }
  }

  /** What the ranking order means for the values: along the selection,
      numbers come before missing values and run from largest to smallest
      (smallest to largest when ascending), equal values in row order; and
      a row left out with a number never beats a selected row. */
  lemma TopRowsValues(col: seq<Cell>, ascending: bool, n: int)
    ensures var top := TopRows(col, ascending, n);
      && (forall a, b :: 0 <= a < b < |top| && !CellAt(col, top[a]).Num? ==> !CellAt(col, top[b]).Num?)
      && (forall a, b :: 0 <= a < b < |top| && CellAt(col, top[a]).Num? && CellAt(col, top[b]).Num? ==>
            if ascending then CellAt(col, top[a]).v <= CellAt(col, top[b]).v
            else CellAt(col, top[a]).v >= CellAt(col, top[b]).v)
      && (forall a, b :: 0 <= a < b < |top| && CellAt(col, top[a]) == CellAt(col, top[b]) ==> top[a] < top[b])
      && (forall j, k :: 0 <= j < |col| && j !in top && 0 <= k < |top| && col[j].Num? ==>
            && CellAt(col, top[k]).Num?
            && if ascending then CellAt(col, top[k]).v <= col[j].v else CellAt(col, top[k]).v >= col[j].v)
  {
    TopRowsProperties(col, ascending, n);
  }
}
