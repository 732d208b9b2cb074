/** The three ways of choosing how many rows to read from each column in a round. */
module Schedulers {
  import opened Ranking
  import opened Scans
  import opened Arithmetic

  /** Adaptive keeps the requested k and the order in which its local priority queue hands out
      the rows pushed into it (the order among equal scores is a matter of the library). */
  datatype Policy = RoundRobin | Greedy | Adaptive(k: nat, drain: seq<Hit> -> seq<Hit>)

  /** What a scheduler remembers between rounds: how much had been seen when the first round
      ended, and when the last round started. */
  datatype Plan = First | Later(firstEnd: nat, localStart: nat)

  // ---------- attribution of first-seen rows to columns ----------

  function Count(seen: seq<Hit>, i: nat): nat {
    if seen == [] then 0
    else
      var n := |seen| - 1;
      Count(seen[..n], i) + if seen[n].col == i then 1 else 0
  }

  function Score(seen: seq<Hit>, i: nat): real {
    if seen == [] then 0.0
    else
      var n := |seen| - 1;
      Score(seen[..n], i) + if seen[n].col == i then seen[n].row.score else 0.0
  }

  function Counts(seen: seq<Hit>, m: nat): seq<nat> {
    seq(m, i requires 0 <= i => Count(seen, i))
  }

  function Scores(seen: seq<Hit>, m: nat): seq<real> {
    seq(m, i requires 0 <= i => Score(seen, i))
  }

  function AllScores(seen: seq<Hit>): seq<real> {
    seq(|seen|, i requires 0 <= i < |seen| => seen[i].row.score)
  }

  /** Hits of an m-column scan; scores need a sign only where the adaptive scheduler
      divides by them. */
  ghost predicate Within(seen: seq<Hit>, m: nat) {
    forall h :: h in seen ==> h.col < m
  }

  ghost predicate Nonnegative(seen: seq<Hit>) {
    forall h :: h in seen ==> h.row.score >= 0.0
  }

  lemma AttributionStep(seen: seq<Hit>, h: Hit, i: nat)
    ensures Count(seen + [h], i) == Count(seen, i) + if h.col == i then 1 else 0
    ensures Score(seen + [h], i) == Score(seen, i) + if h.col == i then h.row.score else 0.0
  {
    assert (seen + [h])[..|seen|] == seen;
  }

  lemma CountsStep(seen: seq<Hit>, h: Hit, m: nat)
    requires h.col < m
    ensures Counts(seen + [h], m) == Counts(seen, m)[h.col := Count(seen, h.col) + 1]
  {
    forall i | 0 <= i < m
      ensures Count(seen + [h], i) == Count(seen, i) + if h.col == i then 1 else 0
    {
      AttributionStep(seen, h, i);
    }
  }

  lemma ScoresStep(seen: seq<Hit>, h: Hit, m: nat)
    requires h.col < m
    ensures Scores(seen + [h], m) == Scores(seen, m)[h.col := Score(seen, h.col) + h.row.score]
  {
    forall i | 0 <= i < m
      ensures Score(seen + [h], i) == Score(seen, i) + if h.col == i then h.row.score else 0.0
    {
      AttributionStep(seen, h, i);
    }
  }

  /** Every seen row is attributed to exactly one column, with its whole score. */
  lemma {:induction false} AttributionConserved(seen: seq<Hit>, m: nat)
    requires Within(seen, m)
    ensures Total(Counts(seen, m)) == |seen|
    ensures Sum(Scores(seen, m)) == Sum(AllScores(seen))
  {
    hide Total, Sum, Count, Score;
    if seen == [] {
      NothingAttributed(m);
      assert AllScores(seen) == [];
      SumEmpty();
    } else {
      var n := |seen| - 1;
      var before, h := seen[..n], seen[n];
      assert h in seen;
      AttributionConserved(before, m);
      assert seen == before + [h];
      CountsStep(before, h, m);
      TotalUpdate(Counts(before, m), h.col, 1);
      ScoresStep(before, h, m);
      SumUpdate(Scores(before, m), h.col, h.row.score);
      assert AllScores(seen) == AllScores(before) + [h.row.score];
      SumExtend(AllScores(before), h.row.score);
    }
  }

  lemma {:induction false} NothingAttributed(m: nat)
    ensures Total(Counts([], m)) == 0
    ensures Sum(Scores([], m)) == 0.0
  {
    if m > 0 {
      NothingAttributed(m - 1);
      assert Counts([], m)[..m - 1] == Counts([], m - 1);
      assert Scores([], m)[..m - 1] == Scores([], m - 1);
    }
  }

  lemma {:induction false} ScoreNonnegative(seen: seq<Hit>, i: nat)
    requires Nonnegative(seen)
    ensures Score(seen, i) >= 0.0
    ensures Score(seen, i) > 0.0 ==> Count(seen, i) > 0
  {
    if seen != [] {
      ScoreNonnegative(seen[..|seen| - 1], i);
    }
  }

  lemma {:induction false} ScoreGrows(seen: seq<Hit>, more: seq<Hit>, i: nat)
    requires seen <= more && Nonnegative(more)
    ensures Score(seen, i) <= Score(more, i)
    decreases |more|
  {
    if |seen| < |more| {
      var n := |more| - 1;
      assert seen == more[..n][..|seen|];
      ScoreGrows(seen, more[..n], i);
      assert more[n] in more;
    } else {
      assert seen == more;
    }
  }

  // ---------- greedy ----------

  function Average(seen: seq<Hit>, i: nat): real
    requires Count(seen, i) > 0
  {
    Score(seen, i) / Count(seen, i) as real
  }

  /** The leftmost of the first n columns with the least average score. A column without a
      first-seen row is skipped: its average is 0/0, which compares less than nothing. */
  function Cheapest(seen: seq<Hit>, n: nat): (c: Option<nat>)
    ensures c.None? ==> forall i :: 0 <= i < n ==> Count(seen, i) == 0
    ensures c.Some? ==> c.value < n && Count(seen, c.value) > 0
    ensures c.Some? ==> forall i :: 0 <= i < n && Count(seen, i) > 0 ==>
              Average(seen, c.value) <= Average(seen, i)
    ensures c.Some? ==> forall i :: 0 <= i < c.value && Count(seen, i) > 0 ==>
              Average(seen, c.value) < Average(seen, i)
  {
    if n == 0 then None
    else
      var c := Cheapest(seen, n - 1);
      if Count(seen, n - 1) > 0 && (c.None? || Average(seen, n - 1) < Average(seen, c.value))
      then Some(n - 1) else c
  }

  function GreedyColumn(seen: seq<Hit>, m: nat): (c: nat)
    requires m > 0
    ensures c < m
  {
    match Cheapest(seen, m)
    case None => 0
    case Some(c) => c
  }

  // ---------- adaptive ----------

  const EPSILON: real := 0.0000000001

  function Inverse(h: Hit): (x: real)
    requires h.row.score >= 0.0
    ensures x > 0.0
  {
    1.0 / (EPSILON + h.row.score)
  }

  function Inverses(hits: seq<Hit>): (xs: seq<real>)
    requires Nonnegative(hits)
    ensures |xs| == |hits| && Positive(xs)
  {
    seq(|hits|, i requires 0 <= i < |hits| => assert hits[i] in hits; Inverse(hits[i]))
  }

  /** Best first: what draining the local priority queue yields. */
  ghost predicate Drains(drain: seq<Hit> -> seq<Hit>) {
    && (forall hits :: multiset(drain(hits)) == multiset(hits))
    && (forall hits :: ByScore(drain(hits)))
  }

  function InsertHit(h: Hit, hits: seq<Hit>): seq<Hit> {
    if hits == [] then [h]
    else if h.row.score < hits[0].row.score then [h] + hits
    else [hits[0]] + InsertHit(h, hits[1..])
  }

  /** One such order: equal scores come out in the order they went in. */
  function StableOrder(hits: seq<Hit>): seq<Hit> {
    if hits == [] then [] else InsertHit(hits[|hits| - 1], StableOrder(hits[..|hits| - 1]))
  }

  ghost predicate ByScore(hits: seq<Hit>) {
    forall i, j :: 0 <= i < j < |hits| ==> hits[i].row.score <= hits[j].row.score
  }

  lemma {:induction false} InsertHitKeeps(h: Hit, hits: seq<Hit>)
    ensures multiset(InsertHit(h, hits)) == multiset(hits) + multiset{h}
  {
    if hits != [] {
      InsertHitKeeps(h, hits[1..]);
      assert hits == [hits[0]] + hits[1..];
    }
  }

  lemma {:induction false} InsertHitSorts(h: Hit, hits: seq<Hit>)
    requires ByScore(hits)
    ensures ByScore(InsertHit(h, hits))
  {
    if hits != [] && h.row.score >= hits[0].row.score {
      var tail := InsertHit(h, hits[1..]);
      InsertHitSorts(h, hits[1..]);
      InsertHitKeeps(h, hits[1..]);
      hide InsertHit;
      forall j | 0 <= j < |tail|
        ensures hits[0].row.score <= tail[j].row.score
      {
        assert tail[j] in multiset(tail);
        assert tail[j] == h || tail[j] in hits[1..];
      }
    }
  }

  lemma SortedEmpty()
    ensures ByScore([])
  {
  }

  lemma {:induction false} StableOrderSorts(hits: seq<Hit>)
    ensures ByScore(StableOrder(hits))
    ensures multiset(StableOrder(hits)) == multiset(hits)
  {
    hide InsertHit, ByScore;
    if hits == [] {
      SortedEmpty();
    } else {
      var n := |hits| - 1;
      StableOrderSorts(hits[..n]);
      InsertHitSorts(hits[n], StableOrder(hits[..n]));
      InsertHitKeeps(hits[n], StableOrder(hits[..n]));
      assert hits == hits[..n] + [hits[n]];
    }
  }

  /** The order required of the library is satisfiable. */
  lemma StableOrderDrains()
    ensures Drains(StableOrder)
  {
    forall hits: seq<Hit>
      ensures ByScore(StableOrder(hits)) && multiset(StableOrder(hits)) == multiset(hits)
    {
      StableOrderSorts(hits);
    }
  }

  function Front(hits: seq<Hit>, k: nat): seq<Hit> {
    hits[..Min(k, |hits|)]
  }

  lemma DrainKeeps(drain: seq<Hit> -> seq<Hit>, hits: seq<Hit>, m: nat)
    requires Drains(drain)
    ensures |drain(hits)| == |hits|
    ensures Within(hits, m) ==> Within(drain(hits), m)
    ensures Nonnegative(hits) ==> Nonnegative(drain(hits))
  {
    var out := drain(hits);
    assert |out| == |multiset(out)| == |multiset(hits)| == |hits|;
    forall h | h in out ensures h in hits {
      assert h in multiset(out);
    }
  }

  /** The parts that fall to column i. */
  function Gather(hits: seq<Hit>, parts: seq<nat>, i: nat): nat
    requires |parts| == |hits|
  {
    if hits == [] then 0
    else
      var n := |hits| - 1;
      Gather(hits[..n], parts[..n], i) + if hits[n].col == i then parts[n] else 0
  }

  function Gathered(hits: seq<Hit>, parts: seq<nat>, m: nat): (qs: seq<nat>)
    requires |parts| == |hits|
    ensures |qs| == m
  {
    seq(m, i requires 0 <= i => Gather(hits, parts, i))
  }

  lemma {:induction false} GatherAll(hits: seq<Hit>, parts: seq<nat>, m: nat)
    requires |parts| == |hits| && Within(hits, m)
    ensures Total(Gathered(hits, parts, m)) == Total(parts)
  {
    if hits == [] {
      TotalZero(Gathered(hits, parts, m));
    } else {
      var n := |hits| - 1;
      var before, c := hits[..n], hits[n].col;
      GatherAll(before, parts[..n], m);
      assert hits[n] in hits;
      assert Gathered(hits, parts, m)
          == Gathered(before, parts[..n], m)[c := Gather(before, parts[..n], c) + parts[n]];
      TotalUpdate(Gathered(before, parts[..n], m), c, parts[n]);
    }
  }

  /** Every column's rows-per-score ratio is defined: the source divides a count by a sum of
      scores, which is zero for a column that contributed nothing, or nothing but zero scores. */
  predicate Weighted(seen: seq<Hit>, m: nat) {
    forall i :: 0 <= i < m ==> Score(seen, i) > 0.0
  }

  function Weight(seen: seq<Hit>, i: nat): (w: real)
    requires Nonnegative(seen) && Score(seen, i) > 0.0
    ensures w > 0.0
  {
    ScoreNonnegative(seen, i);
    Count(seen, i) as real / Score(seen, i)
  }

  function Weights(seen: seq<Hit>, m: nat): (ws: seq<real>)
    requires Nonnegative(seen) && Weighted(seen, m)
    ensures |ws| == m && Positive(ws)
  {
    seq(m, i requires 0 <= i < m => Weight(seen, i))
  }

  /** Quotas earned by the best rows of the last round, weighted by inverse score. */
  function LocalQuotas(best: seq<Hit>, m: nat): (qs: seq<nat>)
    requires Nonnegative(best)
    ensures |qs| == m
  {
    Gathered(best, Apportion(|best|, Inverses(best)), m)
  }

  function AdaptiveQuotas(best: seq<Hit>, seen: seq<Hit>, k: nat, m: nat): (qs: seq<nat>)
    requires Nonnegative(best) && Nonnegative(seen) && Weighted(seen, m)
    ensures |qs| == m
  {
    var local := LocalQuotas(best, m);
    var others := Apportion(k, Weights(seen, m));
    seq(m, i requires 0 <= i < m => local[i] + others[i])
  }

  lemma InverseShrinks(a: Hit, b: Hit)
    requires 0.0 <= a.row.score <= b.row.score
    ensures Inverse(b) <= Inverse(a)
  {
    var x, y := EPSILON + a.row.score, EPSILON + b.row.score;
    assert Inverse(a) * x == 1.0 && Inverse(b) * y == 1.0;
    assert Inverse(b) * x <= Inverse(b) * y;
    assert (Inverse(a) - Inverse(b)) * x >= 0.0;
  }

  /** Of the best rows of a round, a better one never earns its column less. */
  lemma BetterRowEarnsNoLess(best: seq<Hit>, i: nat, j: nat)
    requires Nonnegative(best) && ByScore(best) && i < j < |best|
    ensures Apportion(|best|, Inverses(best))[i] >= Apportion(|best|, Inverses(best))[j]
  {
    assert best[i] in best && best[j] in best;
    InverseShrinks(best[i], best[j]);
    ApportionMonotone(|best|, Inverses(best), j, i);
  }

  /** The rounding bound: the total quota of a round stays within half a row per share of
      what exact proportions would give. */
  lemma QuotaBounds(best: seq<Hit>, seen: seq<Hit>, k: nat, m: nat)
    requires m > 0 && Within(best, m)
    requires Nonnegative(best) && Nonnegative(seen) && Weighted(seen, m)
    ensures var total := Total(AdaptiveQuotas(best, seen, k, m)) as real;
            && total > k as real + 0.5 * |best| as real - 0.5 * m as real
            && total <= k as real + 1.5 * |best| as real + 0.5 * m as real
  {
    var parts := Apportion(|best|, Inverses(best));
    var local := LocalQuotas(best, m);
    var others := Apportion(k, Weights(seen, m));
    GatherAll(best, parts, m);
    if best != [] {
      ApportionBounds(|best|, Inverses(best));
    }
    ApportionBounds(k, Weights(seen, m));
    TotalAdd(local, others, AdaptiveQuotas(best, seen, k, m));
  }

  /** Exactly when a round is given no rows at all: no new row in the last round, and every
      column's share of k is below one half. */
  lemma StallCondition(best: seq<Hit>, seen: seq<Hit>, k: nat, m: nat)
    requires m > 0 && Within(best, m)
    requires Nonnegative(best) && Nonnegative(seen) && Weighted(seen, m)
    ensures Total(AdaptiveQuotas(best, seen, k, m)) == 0
            <==> best == [] && forall i :: 0 <= i < m ==> Shares(k, Weights(seen, m))[i] < 0.5
    ensures m <= 2 * k ==> Total(AdaptiveQuotas(best, seen, k, m)) > 0
  {
    QuotaBounds(best, seen, k, m);
    var ws := Weights(seen, m);
    var quotas := AdaptiveQuotas(best, seen, k, m);
    var local := LocalQuotas(best, m);
    var others := Apportion(k, ws);
    var parts := Apportion(|best|, Inverses(best));
    TotalZero(quotas);
    TotalZero(others);
    TotalZero(local);
    TotalAdd(local, others, quotas);
    GatherAll(best, parts, m);
    SharesAddUp(k, ws);
    if best != [] {
      ApportionBounds(|best|, Inverses(best));
    }
    assert forall i :: 0 <= i < m ==> (others[i] == 0 <==> Shares(k, ws)[i] < 0.5);
  }

  // ---------- the quotas of a round ----------

  function Ones(m: nat): (qs: seq<nat>)
    ensures |qs| == m
  {
    seq(m, _ => 1)
  }

  function WarmUp(m: nat): (qs: seq<nat>)
    ensures |qs| == m
  {
    seq(m, _ => 20)
  }

  function Locked(c: nat, m: nat): (qs: seq<nat>)
    requires c < m
    ensures |qs| == m
  {
    seq(m, i => if i == c then 1000 else 0)
  }

  /** How many rows the next round may read from each column, or None where the source divides
      by zero. */
  function Quotas(policy: Policy, m: nat, seen: seq<Hit>, plan: Plan): (qs: Option<seq<nat>>)
    requires m > 0
    requires plan.Later? ==> plan.firstEnd <= |seen| && plan.localStart <= |seen|
    requires policy.Adaptive? ==> Nonnegative(seen) && Drains(policy.drain)
    ensures qs.Some? ==> |qs.value| == m
  {
    match policy
    case RoundRobin => Some(Ones(m))
    case Greedy =>
      if plan.First? then Some(WarmUp(m)) else Some(Locked(GreedyColumn(seen[..plan.firstEnd], m), m))
    case Adaptive(k, drain) =>
      if plan.First? then Some(WarmUp(m))
      else if !Weighted(seen, m) then None
      else
        var local := seen[plan.localStart..];
        DrainKeeps(drain, local, m);
        Some(AdaptiveQuotas(Front(drain(local), k), seen, k, m))
  }
}
