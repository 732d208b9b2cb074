/** Two runs of the executor that differ only in the size ef of the heap. */
module TwoRuns {
  import opened Ranking
  import opened Scans
  import opened Arithmetic
  import opened Schedulers
  import opened Runs

  lemma {:induction false} ColumnTwoRuns(c1: Config, c2: Config, s: State, i: nat, n: nat)
    requires c2 == c1.(ef := c2.ef) && c1.ef <= c2.ef
    requires Replayed(c1.streams, s) && i < c1.Cols()
    ensures var t1, t2 := ScanColumn(c1, s, i, n), ScanColumn(c2, s, i, n);
            t1 == t2 || (Eager(c1) && Dropped(c1, t1) && t1.log <= t2.log)
    decreases n
  {
    hide Replay, Streak, Left;
    if n > 0 {
      PullReplayed(c1.streams, s, i);
      var t := Pull(c1.streams, s, i);
      StreakShrinks(c1.ef, c2.ef, t.seen);
      if AtEnd(c1.streams, s, i) {
      } else if Eager(c1) && Dropped(c1, t) {
        assert ScanColumn(c1, s, i, n) == t;
        assert t.log <= ScanColumn(c2, t, i, n - 1).log;
      } else {
        ColumnTwoRuns(c1, c2, t, i, n - 1);
      }
    }
  }

  lemma {:induction false} RoundTwoRuns(c1: Config, c2: Config, s: State, i: nat, qs: seq<nat>)
    requires c2 == c1.(ef := c2.ef) && c1.ef <= c2.ef
    requires Replayed(c1.streams, s) && i <= c1.Cols() == |qs|
    ensures var t1, t2 := ScanRound(c1, s, i, qs), ScanRound(c2, s, i, qs);
            t1 == t2 || (Dropped(c1, t1) && t1.log <= t2.log)
    decreases c1.Cols() - i
  {
    hide Replay, Left, Streak, ScanColumn;
    if i < c1.Cols() {
      ColumnTwoRuns(c1, c2, s, i, qs[i]);
      var t1, t2 := ScanColumn(c1, s, i, qs[i]), ScanColumn(c2, s, i, qs[i]);
      if t1 == t2 {
        StreakShrinks(c1.ef, c2.ef, t1.seen);
        if !Stops(c1, t1) {
          RoundTwoRuns(c1, c2, t1, i + 1, qs);
        }
      }
    }
  }

  lemma {:induction false} RunTwoRuns(c1: Config, c2: Config, s: State, plan: Plan)
    requires c2 == c1.(ef := c2.ef) && c1.ef <= c2.ef
    requires Valid(c1) && Replayed(c1.streams, s) && Fits(plan, s)
    ensures Valid(c2)
    ensures var o1, o2 := RunFrom(c1, s, plan), RunFrom(c2, s, plan);
            o1.s.log <= o2.s.log && (!o1.Finished? ==> o2 == o1)
    decreases if Done(c1, s) then 0 else 1 + Remaining(c1.streams, s)
  {
    hide Replay, Streak, Left, ScanRound, Quotas, Total;
    StreakShrinks(c1.ef, c2.ef, s.seen);
    if !Done(c1, s) {
      var quotas := RoundQuotas(c1, s, plan);
      assert quotas == RoundQuotas(c2, s, plan);
      if quotas.Some? && Total(quotas.value) != 0 {
        RoundTwoRuns(c1, c2, s, 0, quotas.value);
        var t1 := RunStep(c1, s, plan);
        var t2 := RunStep(c2, s, plan);
        if t1 == t2 {
          RunTwoRuns(c1, c2, t1, Next(plan, s, t1));
        } else {
          assert RunFrom(c1, s, plan) == Finished(t1);
        }
      }
    }
  }

  /** With a larger heap the executor reads the same columns in the same order and sees the same rows,
      only longer. A run that fails with the smaller heap fails in the same way with the larger one. */
  lemma LargerHeapReadsOn(c1: Config, c2: Config)
    requires Valid(c1) && Valid(c2) && c2 == c1.(ef := c2.ef) && c1.ef <= c2.ef
    ensures Run(c1).s.log <= Run(c2).s.log
    ensures Run(c1).s.seen <= Run(c2).s.seen
    ensures !Run(c1).Finished? ==> Run(c2) == Run(c1)
  {
    InitReplayed(c1.streams);
    RunTwoRuns(c1, c2, Init(c1.Cols()), First);
    ReplayPrefix(c1.streams, Run(c1).s, Run(c2).s);
  }

  /** Two-run monotonicity: every answer given with the larger heap is at least as long as every
      answer given with the smaller one, and nowhere worse. */
  lemma LargerHeapNoWorse(c1: Config, c2: Config, k: nat, a1: seq<Row>, a2: seq<Row>)
    requires Valid(c1) && Valid(c2) && c2 == c1.(ef := c2.ef) && k <= c1.ef <= c2.ef
    ensures KBest(a1, Rows(Run(c1).s.seen), k) && KBest(a2, Rows(Run(c2).s.seen), k) ==> NoWorseThan(a2, a1)
  {
    hide KBest, Run;
    LargerHeapReadsOn(c1, c2);
    var s1, s2 := Run(c1).s, Run(c2).s;
    assert Rows(s1.seen) <= Rows(s2.seen);
    if KBest(a1, Rows(s1.seen), k) && KBest(a2, Rows(s2.seen), k) {
      KBestMonotone(a1, Rows(s1.seen), a2, Rows(s2.seen), k);
    }
  }
}
