/** When the adaptive executor terminates.

    The quotas of a round are rounded shares. If a round brought no new row and every column's
    share of k is below one half, all quotas round to zero and the loop reads nothing, for ever.
    That cannot happen with at most 2k columns; module SpinningRuns shows that it does happen with
    any larger number. */
module AdaptiveRuns {
  import opened Ranking
  import opened Scans
  import opened Arithmetic
  import opened Schedulers
  import opened Runs

  // ---------- at most 2k columns ----------

  lemma QuotasPositive(c: Config, s: State, plan: Plan)
    requires Valid(c) && Replayed(c.streams, s) && Fits(plan, s)
    requires c.policy.Adaptive? && c.Cols() <= 2 * c.policy.k
    ensures RoundQuotas(c, s, plan).Some? ==> Total(RoundQuotas(c, s, plan).value) > 0
  {
    hide Replay, Left, Streak, Total, AdaptiveQuotas;
    var m, k := c.Cols(), c.policy.k;
    if plan.First? {
      TotalZero(WarmUp(m));
      assert WarmUp(m)[0] > 0;
    } else if Weighted(s.seen, m) {
      SeenOk(c, s);
      var local := s.seen[plan.localStart..];
      DrainKeeps(c.policy.drain, local, m);
      StallCondition(Front(c.policy.drain(local), k), s.seen, k, m);
    }
  }

  lemma {:induction false} RunNeverStalls(c: Config, s: State, plan: Plan)
    requires Valid(c) && Replayed(c.streams, s) && Fits(plan, s)
    requires c.policy.Adaptive? && c.Cols() <= 2 * c.policy.k
    ensures !RunFrom(c, s, plan).Stalled?
    decreases if Done(c, s) then 0 else 1 + Remaining(c.streams, s)
  {
    hide Replay, Left, Streak, ScanRound, Total, Quotas;
    QuotasPositive(c, s, plan);
    var quotas := RoundQuotas(c, s, plan);
    if !Done(c, s) && quotas.Some? {
      var t := RunStep(c, s, plan);
      RunNeverStalls(c, t, Next(plan, s, t));
    }
  }

  // ---------- the undefined weights ----------

  function Warm(c: Config): (s: State)
    requires c.Cols() > 0
    ensures Replayed(c.streams, s)
  {
    InitReplayed(c.streams);
    ScanRound(c, Init(c.Cols()), 0, WarmUp(c.Cols()))
  }

  lemma {:induction false} RunStaysDefined(c: Config, s: State, plan: Plan)
    requires Valid(c) && Replayed(c.streams, s) && Fits(plan, s)
    requires c.policy.Adaptive? && plan.Later? && Weighted(s.seen, c.Cols())
    ensures !RunFrom(c, s, plan).Undefined?
    decreases if Done(c, s) then 0 else 1 + Remaining(c.streams, s)
  {
    hide Replay, Left, Streak, ScanRound, Total, AdaptiveQuotas, Score;
    var quotas := RoundQuotas(c, s, plan);
    if !Done(c, s) && Total(quotas.value) != 0 {
      var t := RunStep(c, s, plan);
      SeenOk(c, t);
      forall i | 0 <= i < c.Cols()
        ensures Score(t.seen, i) > 0.0
      {
        ScoreGrows(s.seen, t.seen, i);
      }
      RunStaysDefined(c, t, Next(plan, s, t));
    }
  }

  /** The division by zero happens in the second round or never: it happens exactly when the
      warm-up round did not end the run and left some column without a positive score. */
  lemma UndefinedExactly(c: Config)
    requires Valid(c) && c.policy.Adaptive?
    ensures Run(c).Undefined? <==> !Done(c, Warm(c)) && !Weighted(Warm(c).seen, c.Cols())
  {
    hide Replay, Left, Streak, ScanRound, Total, AdaptiveQuotas, Score;
    var init, warm := Init(c.Cols()), Warm(c);
    var plan := AfterWarmUp(c);
    if Weighted(warm.seen, c.Cols()) {
      RunStaysDefined(c, warm, plan);
    }
  }

  /** The first round of an adaptive run. */
  lemma AfterWarmUp(c: Config) returns (plan: Plan)
    requires Valid(c) && c.policy.Adaptive?
    ensures plan == Later(|Warm(c).seen|, 0)
    ensures Run(c) == RunFrom(c, Warm(c), plan)
  {
    hide Replay, Left, ScanRound, Total;
    InitReplayed(c.streams);
    var init := Init(c.Cols());
    plan := Next(First, init, Warm(c));
    TotalZero(WarmUp(c.Cols()));
    assert WarmUp(c.Cols())[0] > 0;
    assert RoundQuotas(c, init, First) == Some(WarmUp(c.Cols()));
  }

  /** Termination: with at most 2k columns, a run whose weights are defined finishes. */
  lemma AdaptiveFinishes(c: Config)
    requires Valid(c) && c.policy.Adaptive? && c.Cols() <= 2 * c.policy.k
    ensures Done(c, Warm(c)) || Weighted(Warm(c).seen, c.Cols()) ==> Run(c).Finished?
  {
    UndefinedExactly(c);
    RunNeverStalls(c, Init(c.Cols()), First);
  }

  // ---------- what a stall is ----------

  /** What a stall is: the round reads nothing, and the next round gets the same quotas. */
  lemma StallIsForever(c: Config, s: State, plan: Plan)
    requires Valid(c) && Replayed(c.streams, s) && Fits(plan, s) && c.policy.Adaptive?
    ensures var quotas := RoundQuotas(c, s, plan);
            !Done(c, s) && quotas.Some? && Total(quotas.value) == 0 ==>
              && ScanRound(c, s, 0, quotas.value) == s
              && RoundQuotas(c, s, Next(plan, s, s)) == quotas
  {
    hide Replay, Left, Streak, Total, AdaptiveQuotas, Score;
    var m, k, drain := c.Cols(), c.policy.k, c.policy.drain;
    var quotas := RoundQuotas(c, s, plan);
    if !Done(c, s) && quotas.Some? && Total(quotas.value) == 0 {
      TotalZero(quotas.value);
      ZeroRound(c, s, 0, quotas.value);
      assert WarmUp(m)[0] == 20;
      assert plan.Later?;
      SeenOk(c, s);
      var local := s.seen[plan.localStart..];
      DrainKeeps(drain, local, m);
      StallCondition(Front(drain(local), k), s.seen, k, m);
      assert local == [] == s.seen[|s.seen|..];
    }
  }

  lemma {:induction false} ZeroRound(c: Config, s: State, i: nat, qs: seq<nat>)
    requires Replayed(c.streams, s) && i <= c.Cols() == |qs| && !Done(c, s)
    requires forall j :: 0 <= j < |qs| ==> qs[j] == 0
    ensures ScanRound(c, s, i, qs) == s
    decreases c.Cols() - i
  {
    if i < c.Cols() {
      ZeroRound(c, s, i + 1, qs);
    }
  }
}
