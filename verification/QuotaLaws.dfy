/** What the quotas mean, in terms of the rows seen: which rows and which columns they favour. */
module QuotaLaws {
  import opened Ranking
  import opened Scans
  import opened Arithmetic
  import opened Schedulers

  // ---------- counts and score sums of a column ----------

  /** x for the hits of column i, 0 for the others. */
  function OfColumn(seen: seq<Hit>, xs: seq<nat>, i: nat): (ys: seq<nat>)
    requires |xs| == |seen|
    ensures |ys| == |seen|
  {
    seq(|seen|, a requires 0 <= a < |seen| => if seen[a].col == i then xs[a] else 0)
  }

  function ScoresOfColumn(seen: seq<Hit>, i: nat): (ys: seq<real>)
    ensures |ys| == |seen|
  {
    seq(|seen|, a requires 0 <= a < |seen| => if seen[a].col == i then seen[a].row.score else 0.0)
  }

  /** Count and score sum of a column are taken over its own rows, each once. */
  lemma {:induction false} AttributionMeaning(seen: seq<Hit>, i: nat)
    ensures Count(seen, i) == |set a: nat | a < |seen| && seen[a].col == i|
    ensures Score(seen, i) == Sum(ScoresOfColumn(seen, i))
  {
    var places := set a: nat | a < |seen| && seen[a].col == i;
    if seen == [] {
      assert places == {};
    } else {
      var n := |seen| - 1;
      AttributionMeaning(seen[..n], i);
      assert ScoresOfColumn(seen, i)[..n] == ScoresOfColumn(seen[..n], i);
      assert places == (set a: nat | a < n && seen[..n][a].col == i) + if seen[n].col == i then {n} else {};
    }
  }

  /** A column's average lies between the best and the worst score it contributed. */
  lemma {:induction false} ScoreBetween(seen: seq<Hit>, i: nat, lo: real, hi: real)
    requires forall h :: h in seen && h.col == i ==> lo <= h.row.score <= hi
    ensures lo * Count(seen, i) as real <= Score(seen, i) <= hi * Count(seen, i) as real
  {
    if seen != [] {
      var n := |seen| - 1;
      assert seen[n] in seen;
      ScoreBetween(seen[..n], i, lo, hi);
      OneMore(lo, Count(seen[..n], i));
      OneMore(hi, Count(seen[..n], i));
    }
  }

  lemma OneMore(x: real, n: nat)
    ensures x * (n + 1) as real == x * n as real + x
  {
  }

  lemma AverageBetween(seen: seq<Hit>, i: nat, lo: real, hi: real)
    requires Count(seen, i) > 0 && forall h :: h in seen && h.col == i ==> lo <= h.row.score <= hi
    ensures lo <= Average(seen, i) <= hi
    ensures Average(seen, i) * Count(seen, i) as real == Score(seen, i)
  {
    hide Score, Count;
    ScoreBetween(seen, i, lo, hi);
    Between(lo, Score(seen, i), hi, Count(seen, i) as real);
  }

  lemma Between(lo: real, x: real, hi: real, n: real)
    requires n > 0.0 && lo * n <= x <= hi * n
    ensures lo <= x / n <= hi && x / n * n == x
  {
    var y := x / n;
    assert y * n == x;
    assert (y - lo) * n >= 0.0 && (hi - y) * n >= 0.0;
  }

  // ---------- proportional shares ----------

  /** xs divides n up in inverse proportion to the costs. */
  ghost predicate InverseTo(xs: seq<real>, n: nat, costs: seq<real>) {
    && |xs| == |costs|
    && (forall i :: 0 <= i < |xs| ==> xs[i] >= 0.0)
    && Sum(xs) == n as real
    && forall i, j :: 0 <= i < |xs| && 0 <= j < |xs| ==> xs[i] * costs[i] == xs[j] * costs[j]
  }

  lemma ShareTimesCost(n: nat, w: real, cost: real, s: real)
    requires s > 0.0 && w * cost == 1.0
    ensures Share(n, w, s) * cost == n as real / s
  {
    assert Share(n, w, s) * cost == n as real * (w * cost) / s;
  }

  lemma SharesInverse(n: nat, ws: seq<real>, costs: seq<real>)
    requires Positive(ws) && |ws| == |costs| && (ws == [] ==> n == 0)
    requires forall i :: 0 <= i < |ws| ==> ws[i] * costs[i] == 1.0
    ensures InverseTo(Shares(n, ws), n, costs)
  {
    hide Sum;
    SumPositive(ws);
    if ws == [] {
      assert Shares(n, ws) == [];
      SumEmpty();
    } else {
      SharesAddUp(n, ws);
      forall i | 0 <= i < |ws|
        ensures Shares(n, ws)[i] * costs[i] == n as real / Sum(ws)
      {
        ShareTimesCost(n, ws[i], costs[i], Sum(ws));
      }
    }
  }

  // ---------- the rows that earn quotas ----------

  /** best are the k rows of least score, or all of them if there are fewer. */
  ghost predicate Best(best: seq<Hit>, rows: seq<Hit>, k: nat) {
    && |best| == Min(k, |rows|)
    && exists rest: seq<Hit> ::
         && multiset(best) + multiset(rest) == multiset(rows)
         && forall a, b :: a in best && b in rest ==> a.row.score <= b.row.score
  }

  lemma FrontIsBest(drain: seq<Hit> -> seq<Hit>, rows: seq<Hit>, k: nat)
    requires Drains(drain)
    ensures Best(Front(drain(rows), k), rows, k)
  {
    DrainKeeps(drain, rows, 0);
    var out, best := drain(rows), Front(drain(rows), k);
    var rest := out[|best|..];
    assert out == best + rest;
    assert multiset(best) + multiset(rest) == multiset(rows);
    forall a, b | a in best && b in rest
      ensures a.row.score <= b.row.score
    {
      var i :| 0 <= i < |best| && best[i] == a;
      var j :| 0 <= j < |rest| && rest[j] == b;
      assert out[i] == a && out[|best| + j] == b;
    }
  }

  // ---------- the quotas of a round ----------

  /** What a row costs: its score, and a little more. */
  function RowCosts(rows: seq<Hit>): (costs: seq<real>)
    ensures |costs| == |rows|
  {
    seq(|rows|, a requires 0 <= a < |rows| => 0.0000000001 + rows[a].row.score)
  }

  /** What a row of each column has cost so far, on average. */
  function ColumnCosts(seen: seq<Hit>, m: nat): (costs: seq<real>)
    requires forall i :: 0 <= i < m ==> Count(seen, i) > 0
    ensures |costs| == m
  {
    seq(m, i requires 0 <= i < m => Score(seen, i) / Count(seen, i) as real)
  }

  /** To the nearest whole number, halves up. */
  function Nearest(x: real): int {
    (x + 0.5).Floor
  }

  function NearestAll(xs: seq<real>): (ns: seq<nat>)
    requires forall i :: 0 <= i < |xs| ==> xs[i] >= 0.0
    ensures |ns| == |xs|
  {
    seq(|xs|, i requires 0 <= i < |xs| => Nearest(xs[i]))
  }

  /** The quotas qs are those of an adaptive round after which the rows `recent` are new: k rows go to
      the columns in inverse proportion to their score per row, and one for each of the k best new rows
      to the columns of these, in inverse proportion to their scores, both rounded. */
  ghost predicate Fair(qs: seq<nat>, recent: seq<Hit>, seen: seq<Hit>, k: nat, m: nat) {
    && |qs| == m
    && (forall i :: 0 <= i < m ==> Count(seen, i) > 0)
    && exists best, xs, ys ::
         && Best(best, recent, k)
         && InverseTo(xs, k, ColumnCosts(seen, m))
         && InverseTo(ys, |best|, RowCosts(best))
         && forall i :: 0 <= i < m ==> qs[i] == Nearest(xs[i]) + Total(OfColumn(best, NearestAll(ys), i))
  }

  lemma {:induction false} GatherMeaning(hits: seq<Hit>, parts: seq<nat>, i: nat)
    requires |parts| == |hits|
    ensures Gather(hits, parts, i) == Total(OfColumn(hits, parts, i))
  {
    if hits != [] {
      var n := |hits| - 1;
      GatherMeaning(hits[..n], parts[..n], i);
      assert OfColumn(hits, parts, i)[..n] == OfColumn(hits[..n], parts[..n], i);
    }
  }

  lemma ReciprocalOf(a: real, b: real)
    requires a > 0.0 && b > 0.0
    ensures a / b * (b / a) == 1.0
  {
    var x, y := a / b, b / a;
    assert x * b == a && y * a == b;
    assert (x * y - 1.0) * a == 0.0;
  }

  lemma ColumnSharesInverse(seen: seq<Hit>, k: nat, m: nat)
    requires m > 0 && Nonnegative(seen) && Weighted(seen, m)
    ensures forall i :: 0 <= i < m ==> Count(seen, i) > 0
    ensures InverseTo(Shares(k, Weights(seen, m)), k, ColumnCosts(seen, m))
  {
    forall i | 0 <= i < m
      ensures Count(seen, i) > 0
    {
      ScoreNonnegative(seen, i);
    }
    forall i | 0 <= i < m
      ensures Weights(seen, m)[i] * ColumnCosts(seen, m)[i] == 1.0
    {
      ReciprocalOf(Count(seen, i) as real, Score(seen, i));
    }
    SharesInverse(k, Weights(seen, m), ColumnCosts(seen, m));
  }

  lemma RowSharesInverse(best: seq<Hit>)
    requires Nonnegative(best)
    ensures InverseTo(Shares(|best|, Inverses(best)), |best|, RowCosts(best))
  {
    forall i | 0 <= i < |best|
      ensures Inverses(best)[i] * RowCosts(best)[i] == 1.0
    {
      assert best[i] in best;
    }
    SharesInverse(|best|, Inverses(best), RowCosts(best));
  }

  lemma ApportionNearest(n: nat, ws: seq<real>)
    requires Positive(ws)
    ensures forall i :: 0 <= i < |ws| ==> Shares(n, ws)[i] >= 0.0
    ensures Apportion(n, ws) == NearestAll(Shares(n, ws))
  {
    if ws != [] {
      SharesAddUp(n, ws);
    }
  }

  /** The quotas that the adaptive scheduler computes are fair in this sense. */
  lemma QuotasFair(drain: seq<Hit> -> seq<Hit>, recent: seq<Hit>, seen: seq<Hit>, k: nat, m: nat)
    requires m > 0 && Drains(drain) && Nonnegative(recent) && Nonnegative(seen) && Weighted(seen, m)
    ensures Nonnegative(Front(drain(recent), k))
    ensures Fair(AdaptiveQuotas(Front(drain(recent), k), seen, k, m), recent, seen, k, m)
  {
    hide InverseTo, Best, Sum, Total, Gather, Apportion, Shares, Inverses, Weights;
    DrainKeeps(drain, recent, m);
    var best := Front(drain(recent), k);
    FrontIsBest(drain, recent, k);
    ColumnSharesInverse(seen, k, m);
    RowSharesInverse(best);
    var xs, ys := Shares(k, Weights(seen, m)), Shares(|best|, Inverses(best));
    ApportionNearest(k, Weights(seen, m));
    ApportionNearest(|best|, Inverses(best));
    var qs := AdaptiveQuotas(best, seen, k, m);
    forall i | 0 <= i < m
      ensures qs[i] == Nearest(xs[i]) + Total(OfColumn(best, NearestAll(ys), i))
    {
      GatherMeaning(best, NearestAll(ys), i);
    }
  }

  /** Shares in inverse proportion favour the cheap. */
  lemma CheaperGetsMore(xs: seq<real>, n: nat, costs: seq<real>, i: nat, j: nat)
    requires InverseTo(xs, n, costs) && i < |xs| && j < |xs| && 0.0 < costs[i] <= costs[j]
    ensures xs[i] >= xs[j] && Nearest(xs[i]) >= Nearest(xs[j])
  {
    assert xs[i] * costs[i] == xs[j] * costs[j] >= xs[j] * costs[i];
    assert (xs[i] - xs[j]) * costs[i] >= 0.0;
  }

  lemma {:induction false} SumOrdered(xs: seq<real>, ys: seq<real>)
    requires |xs| == |ys| && forall i :: 0 <= i < |xs| ==> xs[i] <= ys[i]
    ensures Sum(xs) <= Sum(ys)
    ensures Sum(xs) == Sum(ys) ==> xs == ys
  {
    if xs != [] {
      var n := |xs| - 1;
      SumOrdered(xs[..n], ys[..n]);
      assert xs == xs[..n] + [xs[n]] && ys == ys[..n] + [ys[n]];
    }
  }

  lemma Cancel(x: real, y: real, cost: real, p: real, q: real)
    requires cost > 0.0 && x * cost == p <= q == y * cost
    ensures x <= y
  {
    assert (y - x) * cost == q - p;
  }

  /** There is one way only to divide n up in inverse proportion to given costs. */
  lemma InverseUnique(xs: seq<real>, ys: seq<real>, n: nat, costs: seq<real>)
    requires InverseTo(xs, n, costs) && InverseTo(ys, n, costs) && Positive(costs)
    ensures xs == ys
  {
    hide Sum;
    if xs != [] {
      var p, q := xs[0] * costs[0], ys[0] * costs[0];
      forall i | 0 <= i < |xs|
        ensures if p <= q then xs[i] <= ys[i] else ys[i] <= xs[i]
      {
        assert xs[i] * costs[i] == p && ys[i] * costs[i] == q;
        if p <= q {
          Cancel(xs[i], ys[i], costs[i], p, q);
        } else {
          Cancel(ys[i], xs[i], costs[i], q, p);
        }
      }
      if p <= q {
        SumOrdered(xs, ys);
      } else {
        SumOrdered(ys, xs);
      }
    }
  }
}
