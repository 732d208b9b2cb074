/** Whole runs of the multi-index executor, up to the moment it stops reading. */
module Runs {
  import opened Ranking
  import opened Scans
  import opened Arithmetic
  import opened Schedulers

  datatype Config = Config(streams: Streams, ef: nat, termCond: nat, policy: Policy) {
    function Cols(): nat { |streams| }
  }

  /** Finished: the loop ended. Undefined: the adaptive scheduler divided by zero.
      Stalled: every quota of a round is zero, so the loop would spin without reading. */
  datatype Outcome = Finished(s: State) | Undefined(s: State) | Stalled(s: State)

  ghost predicate Valid(c: Config) {
    && c.Cols() > 0 && c.ef > 0 && c.termCond > 0
    && (c.policy.Adaptive? ==>
          && c.policy.k > 0
          && Drains(c.policy.drain)
          && forall i, r :: 0 <= i < |c.streams| && r in c.streams[i] ==> r.score >= 0.0)
  }

  /** Greedy and adaptive test for termination after every new row and let a column that ends
      skip to the next one; round robin tests after a whole round and lets a column that ends
      cut the round short. */
  predicate Eager(c: Config) {
    !c.policy.RoundRobin?
  }

  predicate Dropped(c: Config, s: State) {
    Streak(c.ef, s.seen) >= c.termCond
  }

  predicate Done(c: Config, s: State) {
    s.ended != {} || Dropped(c, s)
  }

  /** Read up to n rows from column i. */
  function ScanColumn(c: Config, s: State, i: nat, n: nat): (t: State)
    requires Replayed(c.streams, s) && i < c.Cols()
    ensures Replayed(c.streams, t) && s.log <= t.log && s.ended <= t.ended
    ensures Remaining(c.streams, t) <= Remaining(c.streams, s)
    ensures n > 0 ==> i in t.ended || Remaining(c.streams, t) < Remaining(c.streams, s)
    decreases n
  {
    if n == 0 then s
    else
      PullReplayed(c.streams, s, i);
      PullProgress(c.streams, s, i);
      var t := Pull(c.streams, s, i);
      if AtEnd(c.streams, s, i) || (Eager(c) && Dropped(c, t)) then t else ScanColumn(c, t, i, n - 1)
  }

  lemma OneRead(c: Config, s: State, i: nat)
    requires Replayed(c.streams, s) && i < c.Cols()
    ensures ScanColumn(c, s, i, 1) == Pull(c.streams, s, i)
    ensures Pull(c.streams, s, i).ended == s.ended + if AtEnd(c.streams, s, i) then {i} else {}
  {
    PullReplayed(c.streams, s, i);
    assert ScanColumn(c, Pull(c.streams, s, i), i, 0) == Pull(c.streams, s, i);
  }

  predicate Stops(c: Config, s: State) {
    if Eager(c) then Dropped(c, s) else s.ended != {}
  }

  /** Serve the quotas of columns i, i + 1, ... */
  function ScanRound(c: Config, s: State, i: nat, qs: seq<nat>): (t: State)
    requires Replayed(c.streams, s) && i <= c.Cols() == |qs|
    ensures Replayed(c.streams, t) && s.log <= t.log && s.ended <= t.ended
    ensures Remaining(c.streams, t) <= Remaining(c.streams, s)
    decreases c.Cols() - i
  {
    if i == c.Cols() then s
    else
      var t := ScanColumn(c, s, i, qs[i]);
      if Stops(c, t) then t else ScanRound(c, t, i + 1, qs)
  }

  /** A round with a positive quota reads something or ends the run. */
  lemma {:induction false} RoundProgress(c: Config, s: State, i: nat, qs: seq<nat>, j: nat)
    requires Replayed(c.streams, s) && i <= j < c.Cols() == |qs| && qs[j] > 0
    ensures var t := ScanRound(c, s, i, qs);
            Done(c, t) || Remaining(c.streams, t) < Remaining(c.streams, s)
    decreases j - i
  {
    var t := ScanColumn(c, s, i, qs[i]);
    if i < j && !Stops(c, t) {
      RoundProgress(c, t, i + 1, qs, j);
    } else if i == j && !Stops(c, t) {
      var u := ScanRound(c, t, i + 1, qs);
      if i in t.ended {
        assert i in u.ended;
      }
    }
  }

  function Next(plan: Plan, s: State, t: State): Plan {
    match plan
    case First => Later(|t.seen|, |s.seen|)
    case Later(firstEnd, _) => Later(firstEnd, |s.seen|)
  }

  predicate Fits(plan: Plan, s: State) {
    plan.Later? ==> plan.firstEnd <= |s.seen| && plan.localStart <= |s.seen|
  }

  lemma SeenOk(c: Config, s: State)
    requires Valid(c) && Replayed(c.streams, s)
    ensures Within(s.seen, c.Cols())
    ensures c.policy.Adaptive? ==> Nonnegative(s.seen)
  {
    ReplayedSound(c.streams, s);
  }

  ghost function RoundQuotas(c: Config, s: State, plan: Plan): (qs: Option<seq<nat>>)
    requires Valid(c) && Replayed(c.streams, s) && Fits(plan, s)
    ensures qs.Some? ==> |qs.value| == c.Cols()
  {
    SeenOk(c, s);
    Quotas(c.policy, c.Cols(), s.seen, plan)
  }

  /** The run from a state between two rounds. */
  ghost function RunFrom(c: Config, s: State, plan: Plan): (out: Outcome)
    requires Valid(c) && Replayed(c.streams, s) && Fits(plan, s)
    ensures Replayed(c.streams, out.s) && s.log <= out.s.log
    decreases if Done(c, s) then 0 else 1 + Remaining(c.streams, s)
  {
    if Done(c, s) then Finished(s)
    else
      match RoundQuotas(c, s, plan)
      case None => Undefined(s)
      case Some(qs) =>
        TotalZero(qs);
        if Total(qs) == 0 then Stalled(s)
        else
          var t := ScanRound(c, s, 0, qs);
          var j :| 0 <= j < |qs| && qs[j] > 0;
          RoundProgress(c, s, 0, qs, j);
          ReplayPrefix(c.streams, s, t);
          RunFrom(c, t, Next(plan, s, t))
  }

  /** One round of a run that goes on. */
  lemma RunStep(c: Config, s: State, plan: Plan) returns (t: State)
    requires Valid(c) && Replayed(c.streams, s) && Fits(plan, s) && !Done(c, s)
    requires RoundQuotas(c, s, plan).Some? && Total(RoundQuotas(c, s, plan).value) != 0
    ensures t == ScanRound(c, s, 0, RoundQuotas(c, s, plan).value)
    ensures Replayed(c.streams, t) && s.seen <= t.seen && Fits(Next(plan, s, t), t)
    ensures RunFrom(c, s, plan) == RunFrom(c, t, Next(plan, s, t))
    ensures Done(c, t) || Remaining(c.streams, t) < Remaining(c.streams, s)
  {
    hide Replay, Left, Streak, ScanRound, Total, Quotas;
    var qs := RoundQuotas(c, s, plan).value;
    t := ScanRound(c, s, 0, qs);
    TotalZero(qs);
    var j :| 0 <= j < |qs| && qs[j] > 0;
    RoundProgress(c, s, 0, qs, j);
    ReplayPrefix(c.streams, s, t);
  }

  ghost function Run(c: Config): (out: Outcome)
    requires Valid(c)
    ensures Replayed(c.streams, out.s)
  {
    RunFrom(c, Init(c.Cols()), First)
  }
}
