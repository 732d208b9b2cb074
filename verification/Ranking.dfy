/** Rows with a rank score, and what it means to be the k best rows of a set. */
module Ranking {
  import opened RowIdentity

  datatype Option<+T> = None | Some(value: T)

  datatype Row = Row(tid: ItemPointer, score: real)

  function Min(a: nat, b: nat): nat {
    if a < b then a else b
  }

  ghost predicate Distinct(rows: seq<Row>) {
    forall i, j :: 0 <= i < j < |rows| ==> rows[i] != rows[j]
  }

  /** Nondecreasing rank score: the smallest score is the best one. */
  ghost predicate Ascending(rows: seq<Row>) {
    forall i, j :: 0 <= i < j < |rows| ==> rows[i].score <= rows[j].score
  }

  /** `ans` lists k best rows of `rows`, best first. Which of several equal scores make the
      cut is left open: it depends on the tie-breaking of the heap. */
  ghost predicate KBest(ans: seq<Row>, rows: set<Row>, k: nat) {
    && |ans| == Min(k, |rows|)
    && Distinct(ans)
    && Ascending(ans)
    && (forall a :: a in ans ==> a in rows)
    && (forall a, r :: a in ans && r in rows && r !in ans ==> a.score <= r.score)
  }

  /** At least as long, and position by position no larger score. */
  ghost predicate NoWorseThan(ans: seq<Row>, other: seq<Row>) {
    && |other| <= |ans|
    && forall j :: 0 <= j < |other| ==> ans[j].score <= other[j].score
  }

  function Elements(s: seq<Row>): set<Row> {
    set x | x in s
  }

  lemma {:induction false} DistinctSize(s: seq<Row>)
    requires Distinct(s)
    ensures |Elements(s)| == |s|
  {
    if s != [] {
      var n := |s| - 1;
      DistinctSize(s[..n]);
      assert Elements(s) == Elements(s[..n]) + {s[n]};
    }
  }

  lemma SubsetSize(a: set<Row>, b: set<Row>)
    requires a <= b
    ensures |a| <= |b|
    ensures |a| == |b| ==> a == b
  {
    assert |b - a| + |a| == |b| by {
      assert (b - a) + a == b;
    }
    if a != b {
      var x :| x in b - a;
      assert |b - a| > 0;
    }
  }

  /** More rows can only improve the answer, position by position. */
  lemma KBestMonotone(a1: seq<Row>, rows1: set<Row>, a2: seq<Row>, rows2: set<Row>, k: nat)
    requires KBest(a1, rows1, k) && KBest(a2, rows2, k)
    requires rows1 <= rows2
    ensures NoWorseThan(a2, a1)
  {
    SubsetSize(rows1, rows2);
    forall j | 0 <= j < |a1|
      ensures a2[j].score <= a1[j].score
    {
      var r := LeftOver(a1, a2, j);
      assert r in a1 && a2[j] in a2;
    }
  }

  /** Of j + 1 distinct rows, one is not among the j first places of another listing. */
  lemma LeftOver(a1: seq<Row>, a2: seq<Row>, j: nat) returns (r: Row)
    requires j < |a1| && j <= |a2|
    requires Distinct(a1) && Ascending(a1) && Distinct(a2)
    ensures r in a1 && r.score <= a1[j].score
    ensures forall p :: 0 <= p < |a2| && a2[p] == r ==> j <= p
  {
    var mine, theirs := a1[..j + 1], a2[..j];
    DistinctSize(mine);
    DistinctSize(theirs);
    if Elements(mine) <= Elements(theirs) {
      SubsetSize(Elements(mine), Elements(theirs));
      assert false;
    }
    r :| r in Elements(mine) && r !in Elements(theirs);
    var i :| 0 <= i < j + 1 && a1[i] == r;
    forall p | 0 <= p < j
      ensures a2[p] != r
    {
      assert theirs[p] == a2[p] && theirs[p] in Elements(theirs);
    }
  }

  /** The first k of more best rows are the k best. */
  lemma PrefixIsBest(ans: seq<Row>, rows: set<Row>, ef: nat, k: nat)
    requires KBest(ans, rows, ef) && k <= ef
    ensures KBest(ans[..Min(k, |ans|)], rows, k)
  {
    var front := ans[..Min(k, |ans|)];
    assert forall p :: 0 <= p < |front| ==> front[p] == ans[p] && ans[p] in ans;
    forall a, r | a in front && r in rows && r !in front
      ensures a.score <= r.score
    {
      FrontBeatsRest(ans, |front|, a, r, rows, ef);
    }
  }

  lemma FrontBeatsRest(ans: seq<Row>, n: nat, a: Row, r: Row, rows: set<Row>, ef: nat)
    requires KBest(ans, rows, ef) && n <= |ans|
    requires a in ans[..n] && r in rows && r !in ans[..n]
    ensures a.score <= r.score
  {
    var i :| 0 <= i < n && ans[..n][i] == a;
    assert ans[i] == a && a in ans;
    if r in ans {
      var j :| 0 <= j < |ans| && ans[j] == r;
      assert forall p :: 0 <= p < n ==> ans[..n][p] == ans[p] && ans[..n][p] in ans[..n];
    }
  }

  /** The scores of the k best rows do not depend on tie-breaking: they are the first k
      scores of any sorted listing of all the rows. */
  lemma KBestIsSortedPrefix(ans: seq<Row>, rows: set<Row>, k: nat, sorted: seq<Row>)
    requires KBest(ans, rows, k)
    requires Lists(sorted, rows)
    ensures |ans| == Min(k, |sorted|)
    ensures forall j :: 0 <= j < |ans| ==> ans[j].score == sorted[j].score
  {
    DistinctSize(sorted);
    ListingIsBest(sorted, k + |rows|);
    PrefixIsBest(sorted, rows, k + |rows|, k);
    var prefix := sorted[..Min(k, |sorted|)];
    assert NoWorseThan(prefix, ans) by { KBestMonotone(ans, rows, prefix, rows, k); }
    assert NoWorseThan(ans, prefix) by { KBestMonotone(prefix, rows, ans, rows, k); }
    forall j | 0 <= j < |ans|
      ensures ans[j].score == sorted[j].score
    {
      assert prefix[j] == sorted[j];
    }
  }

  /** The rows in order of score. */
  ghost predicate Lists(sorted: seq<Row>, rows: set<Row>) {
    Distinct(sorted) && Ascending(sorted) && Elements(sorted) == rows
  }

  lemma {:induction false} WorstOf(rows: set<Row>) returns (worst: Row)
    requires rows != {}
    ensures worst in rows && forall r :: r in rows ==> r.score <= worst.score
    decreases |rows|
  {
    worst :| worst in rows;
    if rows != {worst} {
      var other := WorstOf(rows - {worst});
      if worst.score < other.score {
        worst := other;
      }
    }
  }

  lemma {:induction false} ListingExists(rows: set<Row>) returns (sorted: seq<Row>)
    ensures Lists(sorted, rows)
    decreases |rows|
  {
    if rows == {} {
      sorted := [];
    } else {
      var worst := WorstOf(rows);
      var front := ListingExists(rows - {worst});
      sorted := front + [worst];
      assert forall i :: 0 <= i < |front| ==> front[i] in Elements(front);
      assert Elements(sorted) == Elements(front) + {worst};
    }
  }

  lemma ListingIsBest(sorted: seq<Row>, k: nat)
    requires Distinct(sorted) && Ascending(sorted) && |sorted| <= k
    ensures KBest(sorted, Elements(sorted), k)
  {
    DistinctSize(sorted);
  }
}
