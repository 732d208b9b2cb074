/** The loops that recompute the quotas between two rounds, over the source's arrays. */
module QuotaMethods {
  import opened Ranking
  import opened Scans
  import opened Arithmetic
  import opened Schedulers

  /** The score sums and counts that the seen rows account for. */
  ghost predicate Recorded(scores: seq<real>, counts: seq<nat>, seen: seq<Hit>) {
    scores == Scores(seen, |scores|) && counts == Counts(seen, |counts|)
  }

  lemma RecordStep(scores: seq<real>, counts: seq<nat>, seen: seq<Hit>, h: Hit)
    requires Recorded(scores, counts, seen) && h.col < |scores| == |counts|
    ensures Recorded(scores[h.col := scores[h.col] + h.row.score], counts[h.col := counts[h.col] + 1], seen + [h])
  {
    CountsStep(seen, h, |counts|);
    ScoresStep(seen, h, |scores|);
  }

  /** Greedy: the column with the least average score. */
  method FindCheapest(scoreList: array<real>, countList: array<nat>, ghost seen: seq<Hit>) returns (minId: nat)
    requires scoreList.Length == countList.Length > 0
    requires Recorded(scoreList[..], countList[..], seen)
    ensures minId == GreedyColumn(seen, scoreList.Length)
  {
    var minScore: Option<real> := None;   // no average has been met: larger than any
    minId := 0;
    for i := 0 to scoreList.Length
      invariant minScore.None? ==> Cheapest(seen, i).None? && minId == 0
      invariant minScore.Some? ==> Cheapest(seen, i) == Some(minId) && minScore.value == Average(seen, minId)
    {
      assert scoreList[i] == scoreList[..][i] == Score(seen, i);
      assert countList[i] == countList[..][i] == Count(seen, i);
      if countList[i] > 0 {
        var score := scoreList[i] / countList[i] as real;
        if minScore.None? || score < minScore.value {
          minScore, minId := Some(score), i;
        }
      }
    }
  }

  method Fill(a: array<nat>, x: nat)
    modifies a
    ensures forall i :: 0 <= i < a.Length ==> a[i] == x
  {
    for i := 0 to a.Length
      invariant forall j :: 0 <= j < i ==> a[j] == x
    {
      a[i] := x;
    }
  }

  /** Greedy: the whole next round goes to the cheapest column. */
  method LockOn(scoreList: array<real>, countList: array<nat>, nextRound: array<nat>, ghost seen: seq<Hit>)
    requires scoreList.Length == countList.Length == nextRound.Length > 0 && nextRound != countList
    requires Recorded(scoreList[..], countList[..], seen)
    modifies nextRound
    ensures nextRound[..] == Locked(GreedyColumn(seen, nextRound.Length), nextRound.Length)
  {
    var minId := FindCheapest(scoreList, countList, seen);
    Fill(nextRound, 0);
    nextRound[minId] := 1000;
  }

  /** Adaptive: take the best rows of the last round off the local queue. */
  method PopBest(order: seq<Hit>, kk: nat, localId: array<nat>, localScore: array<real>) returns (total: real)
    requires kk <= |order| && Nonnegative(order[..kk])
    requires kk <= localId.Length == localScore.Length
    modifies localId, localScore
    ensures forall j :: 0 <= j < kk ==> localId[j] == order[j].col
    ensures localScore[..kk] == Inverses(order[..kk])
    ensures total == Sum(Inverses(order[..kk]))
  {
    hide Sum;
    total := 0.0;
    ghost var best := order[..kk];
    ghost var inverses := Inverses(best);
    SumEmpty();
    assert inverses[..0] == [];
    for i := 0 to kk
      invariant forall j :: 0 <= j < i ==> localId[j] == best[j].col && localScore[j] == inverses[j]
      invariant total == Sum(inverses[..i])
    {
      assert best[i] in best;
      localId[i] := order[i].col;
      localScore[i] := 1.0 / (EPSILON + order[i].row.score);
      total := total + localScore[i];
      assert inverses[..i + 1] == inverses[..i] + [inverses[i]];
      SumExtend(inverses[..i], inverses[i]);
    }
    assert inverses[..kk] == inverses;
  }

  /** One rounded share, as the source computes it. */
  function RoundedShare(n: nat, w: real, sum: real): nat
    requires w > 0.0 && sum > 0.0
  {
    ShareScales(n, w, 0.0, sum);
    assert n as real * w / sum == Share(n, w, sum);
    Round(n as real * w / sum)
  }

  lemma ShareOf(n: nat, ws: seq<real>, i: nat)
    requires Positive(ws) && i < |ws|
    ensures Sum(ws) > 0.0
    ensures Apportion(n, ws)[i] == RoundedShare(n, ws[i], Sum(ws))
  {
    SumPositive(ws);
    SharesAddUp(n, ws);
    assert Shares(n, ws)[i] == Share(n, ws[i], Sum(ws));
  }

  /** Adaptive: quotas earned by the best rows of the last round. */
  method AddLocalShares(order: seq<Hit>, k: nat, nextRound: array<nat>)
    requires Nonnegative(order) && Within(order, nextRound.Length)
    requires forall j :: 0 <= j < nextRound.Length ==> nextRound[j] == 0
    modifies nextRound
    ensures nextRound[..] == LocalQuotas(Front(order, k), nextRound.Length)
  {
    hide Sum, Apportion, Gather, Inverses, RoundedShare;
    var kk := if |order| > k then k else |order|;
    var localId := new nat[k];
    var localScore := new real[k];
    ghost var best := order[..kk];
    assert forall h :: h in best ==> h in order;
    var total := PopBest(order, kk, localId, localScore);
    ghost var inverses := Inverses(best);
    ghost var parts := Apportion(kk, inverses);
    GatheredNone(best[..0], parts[..0], nextRound.Length);
    for i := 0 to kk
      invariant forall j :: 0 <= j < kk ==> localId[j] == best[j].col
      invariant localScore[..kk] == inverses
      invariant nextRound[..] == Gathered(best[..i], parts[..i], nextRound.Length)
    {
      assert best[i] in best;
      ShareOf(kk, inverses, i);
      assert localScore[i] == localScore[..kk][i];
      GatheredStep(best, parts, i, nextRound.Length);
      nextRound[localId[i]] := nextRound[localId[i]] + RoundedShare(kk, localScore[i], total);
    }
    assert best[..kk] == best && parts[..kk] == parts;
  }

  lemma GatheredNone(hits: seq<Hit>, parts: seq<nat>, m: nat)
    requires hits == [] && parts == []
    ensures forall j :: 0 <= j < m ==> Gathered(hits, parts, m)[j] == 0
  {
  }

  lemma GatheredStep(hits: seq<Hit>, parts: seq<nat>, i: nat, m: nat)
    requires |parts| == |hits| && i < |hits| && hits[i].col < m
    ensures Gathered(hits[..i + 1], parts[..i + 1], m)
         == Gathered(hits[..i], parts[..i], m)[hits[i].col := Gather(hits[..i], parts[..i], hits[i].col) + parts[i]]
  {
    assert hits[..i + 1][..i] == hits[..i];
    assert parts[..i + 1][..i] == parts[..i];
  }

  /** Adaptive: the rows-per-score weight of every column. */
  method FillWeights(scoreList: array<real>, countList: array<nat>, weightList: array<real>, ghost seen: seq<Hit>)
    returns (sum: real)
    requires scoreList.Length == countList.Length == weightList.Length && weightList != scoreList
    requires Recorded(scoreList[..], countList[..], seen)
    requires Nonnegative(seen) && Weighted(seen, weightList.Length)
    modifies weightList
    ensures weightList[..] == Weights(seen, weightList.Length)
    ensures sum == Sum(weightList[..])
  {
    hide Sum;
    sum := 0.0;
    ghost var ws := Weights(seen, weightList.Length);
    SumEmpty();
    assert ws[..0] == [];
    for i := 0 to weightList.Length
      invariant weightList[..i] == ws[..i]
      invariant sum == Sum(ws[..i])
    {
      assert scoreList[i] == scoreList[..][i] == Score(seen, i);
      assert countList[i] == countList[..][i] == Count(seen, i);
      weightList[i] := countList[i] as real / scoreList[i];
      sum := sum + weightList[i];
      assert ws[..i + 1] == ws[..i] + [ws[i]];
      SumExtend(ws[..i], ws[i]);
    }
    assert ws[..weightList.Length] == ws == weightList[..];
  }

  /** Adaptive: give every column a chance, in proportion to its weight. */
  method AddChances(weightList: array<real>, sum: real, k: nat, nextRound: array<nat>)
    requires weightList.Length == nextRound.Length
    requires Positive(weightList[..]) && sum == Sum(weightList[..])
    modifies nextRound
    ensures forall j :: 0 <= j < nextRound.Length ==>
              nextRound[j] == old(nextRound[j]) + Apportion(k, weightList[..])[j]
  {
    hide Sum, Apportion, RoundedShare;
    ghost var ws := weightList[..];
    for i := 0 to nextRound.Length
      invariant weightList[..] == ws
      invariant forall j :: 0 <= j < i ==> nextRound[j] == old(nextRound[j]) + Apportion(k, ws)[j]
      invariant forall j :: i <= j < nextRound.Length ==> nextRound[j] == old(nextRound[j])
    {
      ShareOf(k, ws, i);
      assert weightList[i] == ws[i];
      nextRound[i] := nextRound[i] + RoundedShare(k, weightList[i], sum);
    }
  }

  /** Adaptive: the quotas of the next round, on top of an all-zero array. */
  method ShareOut(order: seq<Hit>, k: nat, scoreList: array<real>, countList: array<nat>,
                  weightList: array<real>, nextRound: array<nat>, ghost seen: seq<Hit>)
    requires scoreList.Length == countList.Length == weightList.Length == nextRound.Length
    requires weightList != scoreList && nextRound != countList
    requires Nonnegative(order) && Within(order, nextRound.Length)
    requires Recorded(scoreList[..], countList[..], seen)
    requires Nonnegative(seen) && Weighted(seen, nextRound.Length)
    requires forall j :: 0 <= j < nextRound.Length ==> nextRound[j] == 0
    modifies weightList, nextRound
    ensures Nonnegative(Front(order, k))
    ensures nextRound[..] == AdaptiveQuotas(Front(order, k), seen, k, nextRound.Length)
  {
    hide Apportion, LocalQuotas, Sum, Weights, Score, Weighted, Recorded;
    AddLocalShares(order, k, nextRound);
    var sum := FillWeights(scoreList, countList, weightList, seen);
    AddChances(weightList, sum, k, nextRound);
  }
}
