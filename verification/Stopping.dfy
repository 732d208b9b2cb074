/** Why a run stops, and what the seen rows are worth when it does. */
module Stopping {
  import opened Ranking
  import opened Scans
  import opened Arithmetic
  import opened Schedulers
  import opened Runs

  // ---------- stopping by drops ----------

  /** The longest streak a run can end with. */
  function MaxStreak(c: Config): int {
    if Eager(c) then c.termCond else c.termCond + c.Cols() - 1
  }

  lemma {:induction false} ColumnStreak(c: Config, s: State, i: nat, n: nat)
    requires Valid(c) && Replayed(c.streams, s) && i < c.Cols()
    requires Streak(c.ef, s.seen) < c.termCond && Eager(c)
    ensures Streak(c.ef, ScanColumn(c, s, i, n).seen) <= c.termCond
    decreases n
  {
    hide Replay, Left, Streak;
    if n > 0 {
      PullReplayed(c.streams, s, i);
      PullStreak(c.streams, s, i, c.ef);
      var t := Pull(c.streams, s, i);
      if !AtEnd(c.streams, s, i) && !Dropped(c, t) {
        ColumnStreak(c, t, i, n - 1);
      }
    }
  }

  lemma {:induction false} RoundStreak(c: Config, s: State, i: nat, qs: seq<nat>)
    requires Valid(c) && Replayed(c.streams, s) && i <= c.Cols() == |qs|
    requires Eager(c) ==> Streak(c.ef, s.seen) < c.termCond
    requires !Eager(c) ==> forall j :: 0 <= j < |qs| ==> qs[j] == 1
    ensures var n := Streak(c.ef, ScanRound(c, s, i, qs).seen);
            if Eager(c) then n <= c.termCond else n <= Streak(c.ef, s.seen) + c.Cols() - i
    decreases c.Cols() - i
  {
    hide Replay, Left, Streak;
    if i < c.Cols() {
      var t := ScanColumn(c, s, i, qs[i]);
      if Eager(c) {
        ColumnStreak(c, s, i, qs[i]);
      } else {
        PullStreak(c.streams, s, i, c.ef);
        PullReplayed(c.streams, s, i);
        var u := Pull(c.streams, s, i);
        assert t == u by { assert ScanColumn(c, u, i, 0) == u; }
      }
      if !Stops(c, t) {
        RoundStreak(c, t, i + 1, qs);
      }
    }
  }

  lemma {:induction false} RunStreak(c: Config, s: State, plan: Plan)
    requires Valid(c) && Replayed(c.streams, s) && Fits(plan, s)
    requires Streak(c.ef, s.seen) <= MaxStreak(c)
    ensures Streak(c.ef, RunFrom(c, s, plan).s.seen) <= MaxStreak(c)
    ensures RunFrom(c, s, plan).Finished? ==> Done(c, RunFrom(c, s, plan).s)
    decreases if Done(c, s) then 0 else 1 + Remaining(c.streams, s)
  {
    hide Replay, Left, Streak, ScanRound, Total;
    var quotas := RoundQuotas(c, s, plan);
    if !Done(c, s) && quotas.Some? && Total(quotas.value) != 0 {
      RoundStreak(c, s, 0, quotas.value);
      var t := RunStep(c, s, plan);
      RunStreak(c, t, Next(plan, s, t));
    }
  }

  /** What it means that a run ended although no column did: its last termCond first-seen rows
      were all rejected, each having at least ef rows seen before it that score no worse. The
      greedy and adaptive executors stop at exactly termCond rejections; round robin, which
      finishes its round first, makes at most one more for every other column. */
  lemma StopByDrops(c: Config)
    requires Valid(c) && Run(c).Finished? && Run(c).s.ended == {}
    ensures var seen := Run(c).s.seen;
            var n := Streak(c.ef, seen);
            && c.termCond <= n <= |seen|
            && (if Eager(c) then n == c.termCond else n <= c.termCond + c.Cols() - 1)
            && forall j :: |seen| - n <= j < |seen| ==> RejectedAt(c.ef, seen, j)
  {
    hide RejectedAt;
    RunStreak(c, Init(c.Cols()), First);
    StreakMeaning(c.ef, Run(c).s.seen);
  }

  // ---------- stopping by exhaustion ----------

  /** The rows of a table, one score per row. */
  ghost predicate IsTable(table: set<Row>) {
    forall r, r' :: r in table && r' in table && r.tid == r'.tid ==> r == r'
  }

  /** The columns list rows of the table only, and column i lists all of them. */
  ghost predicate ReadsWhole(streams: Streams, table: set<Row>, i: nat) {
    && i < |streams|
    && (forall j, r :: 0 <= j < |streams| && r in streams[j] ==> r in table)
    && forall r :: r in table ==> r in streams[i]
  }

  /** The scores of `ans` are the first k scores of the table in order of score. */
  ghost predicate Exact(ans: seq<Row>, table: set<Row>, k: nat) {
    exists sorted: seq<Row> :: Lists(sorted, table)
      && |ans| == Min(k, |sorted|)
      && forall j :: 0 <= j < |ans| ==> ans[j].score == sorted[j].score
  }

  /** If some column returned no more rows and that column lists the whole table, then the whole
      table has been seen, so the answer is exact. */
  lemma ExactOnExhaustion(c: Config, table: set<Row>, i: nat, k: nat, ans: seq<Row>)
    requires Valid(c) && IsTable(table) && ReadsWhole(c.streams, table, i)
    ensures i in Run(c).s.ended ==>
              && Rows(Run(c).s.seen) == table
              && (KBest(ans, Rows(Run(c).s.seen), k) ==> Exact(ans, table, k))
  {
    hide KBest, Run, Exact;
    if i in Run(c).s.ended {
      WholeTableSeen(c.streams, Run(c).s, table, i);
      if KBest(ans, table, k) {
        BestIsExact(ans, table, k);
      }
    }
  }

  lemma BestIsExact(ans: seq<Row>, table: set<Row>, k: nat)
    requires KBest(ans, table, k)
    ensures Exact(ans, table, k)
  {
    var sorted := ListingExists(table);
    KBestIsSortedPrefix(ans, table, k, sorted);
  }

  /** A heap as large as the table makes every scheduler exact: it can only stop by exhausting a
      column. */
  lemma ExactWithLargeHeap(c: Config, table: set<Row>, k: nat, ans: seq<Row>)
    requires Valid(c) && Run(c).Finished? && |table| <= c.ef
    requires IsTable(table) && forall i :: 0 <= i < c.Cols() ==> ReadsWhole(c.streams, table, i)
    requires KBest(ans, Rows(Run(c).s.seen), k)
    ensures Exact(ans, table, k)
  {
    hide KBest, Run, Exact, Replay;
    var s := Run(c).s;
    assert Done(c, s) by {
      InitReplayed(c.streams);
      assert Run(c) == RunFrom(c, Init(c.Cols()), First) by { RunIs(c); }
      RunStreak(c, Init(c.Cols()), First);
    }
    ReplayedSound(c.streams, s);
    assert ReadsWhole(c.streams, table, 0);
    assert Rows(s.seen) <= table;
    RowsSize(s.seen);
    SubsetSize(Rows(s.seen), table);
    RoomLeft(c.ef, s.seen);
    var i :| i in s.ended;
    ExactOnExhaustion(c, table, i, k, ans);
  }

  lemma RunIs(c: Config)
    requires Valid(c)
    ensures Replayed(c.streams, Init(c.Cols())) && Run(c) == RunFrom(c, Init(c.Cols()), First)
  {
  }

  lemma WholeTableSeen(streams: Streams, s: State, table: set<Row>, i: nat)
    requires Replayed(streams, s) && i in s.ended && IsTable(table) && ReadsWhole(streams, table, i)
    ensures Rows(s.seen) == table
  {
    ReplayedSound(streams, s);
    forall r | r in table
      ensures r in Rows(s.seen)
    {
      var j :| 0 <= j < |streams[i]| && streams[i][j] == r;
      assert r.tid in Tids(s.seen);
      var h :| h in s.seen && h.row.tid == r.tid;
      assert h.row in streams[h.col];
    }
  }

  // ---------- runs that always finish ----------

  lemma {:induction false} RunFinishes(c: Config, s: State, plan: Plan)
    requires Valid(c) && Replayed(c.streams, s) && Fits(plan, s)
    requires !c.policy.Adaptive?
    ensures RunFrom(c, s, plan).Finished?
    decreases if Done(c, s) then 0 else 1 + Remaining(c.streams, s)
  {
    hide Replay, Left, Streak, ScanRound, Total;
    if !Done(c, s) {
      var qs := RoundQuotas(c, s, plan).value;
      var j := if c.policy.RoundRobin? || plan.First? then 0 else GreedyColumn(s.seen[..plan.firstEnd], c.Cols());
      assert qs[j] > 0;
      TotalZero(qs);
      var t := RunStep(c, s, plan);
      RunFinishes(c, t, Next(plan, s, t));
    }
  }

  /** Round robin and greedy terminate on every input. */
  lemma AlwaysFinishes(c: Config)
    requires Valid(c) && !c.policy.Adaptive?
    ensures Run(c).Finished? && Done(c, Run(c).s)
  {
    RunFinishes(c, Init(c.Cols()), First);
    RunStreak(c, Init(c.Cols()), First);
  }

  // ---------- greedy lock-in ----------

  /** From position `from` on, only column col was read. */
  ghost predicate Only(log: seq<nat>, from: nat, col: nat) {
    forall j :: from <= j < |log| ==> log[j] == col
  }

  lemma {:induction false} ColumnLog(c: Config, s: State, i: nat, n: nat, from: nat)
    requires Replayed(c.streams, s) && i < c.Cols()
    requires Only(s.log, from, i)
    ensures Only(ScanColumn(c, s, i, n).log, from, i)
    decreases n
  {
    hide Replay, Left, Streak;
    if n > 0 {
      PullReplayed(c.streams, s, i);
      var t := Pull(c.streams, s, i);
      assert Only(t.log, from, i);
      if !(AtEnd(c.streams, s, i) || (Eager(c) && Dropped(c, t))) {
        ColumnLog(c, t, i, n - 1, from);
      }
    }
  }

  lemma {:induction false} LockedRoundLog(c: Config, s: State, i: nat, col: nat, from: nat)
    requires Replayed(c.streams, s) && i <= c.Cols() && col < c.Cols()
    requires Only(s.log, from, col)
    ensures Only(ScanRound(c, s, i, Locked(col, c.Cols())).log, from, col)
    decreases c.Cols() - i
  {
    hide Replay, Left, Streak;
    if i < c.Cols() {
      var qs := Locked(col, c.Cols());
      var t := ScanColumn(c, s, i, qs[i]);
      if i == col {
        ColumnLog(c, s, col, qs[i], from);
      }
      if !Stops(c, t) {
        LockedRoundLog(c, t, i + 1, col, from);
      }
    }
  }

  lemma {:induction false} RunLocked(c: Config, s: State, plan: Plan, col: nat, from: nat)
    requires Valid(c) && Replayed(c.streams, s) && Fits(plan, s)
    requires c.policy.Greedy? && plan.Later? && col == GreedyColumn(s.seen[..plan.firstEnd], c.Cols())
    requires Only(s.log, from, col)
    ensures Only(RunFrom(c, s, plan).s.log, from, col)
    decreases if Done(c, s) then 0 else 1 + Remaining(c.streams, s)
  {
    hide Replay, Left, Streak, ScanRound, Total, GreedyColumn;
    if !Done(c, s) {
      var qs := Locked(col, c.Cols());
      assert RoundQuotas(c, s, plan) == Some(qs);
      TotalZero(qs);
      assert qs[col] > 0;
      LockedRoundLog(c, s, 0, col, from);
      var t := RunStep(c, s, plan);
      assert t.seen[..plan.firstEnd] == s.seen[..plan.firstEnd];
      RunLocked(c, t, Next(plan, s, t), col, from);
    }
  }

  lemma GreedyColumnMeaning(seen: seq<Hit>, m: nat)
    requires m > 0 && Within(seen, m)
    ensures var col := GreedyColumn(seen, m);
            if seen == [] then col == 0
            else
              && Count(seen, col) > 0
              && forall i :: 0 <= i < m && Count(seen, i) > 0 ==>
                   if i < col then Average(seen, col) < Average(seen, i)
                   else Average(seen, col) <= Average(seen, i)
  {
    if seen != [] && Cheapest(seen, m).None? {
      TotalZero(Counts(seen, m));
      AttributionConserved(seen, m);
      assert false;
    }
  }

  /** Lock-in: after the warm-up round, greedy reads a single column to the end of the run. That
      column has the least average score over the warm-up round among the columns that
      contributed a new row, the leftmost one if several have it. */
  lemma GreedyLocksIn(c: Config)
    requires Valid(c) && c.policy.Greedy?
    ensures Replayed(c.streams, Init(c.Cols()))
    ensures var warm := ScanRound(c, Init(c.Cols()), 0, WarmUp(c.Cols()));
            var col := GreedyColumn(warm.seen, c.Cols());
            && warm.log <= Run(c).s.log
            && Only(Run(c).s.log, |warm.log|, col)
            && (warm.seen != [] ==> Count(warm.seen, col) > 0)
            && forall i :: 0 <= i < c.Cols() && Count(warm.seen, i) > 0 ==>
                 && Count(warm.seen, col) > 0
                 && Average(warm.seen, col) <= Average(warm.seen, i)
  {
    hide Replay, Left, Streak, ScanRound, Total, Count, Score, Cheapest, Average;
    InitReplayed(c.streams);
    var init := Init(c.Cols());
    var qs := WarmUp(c.Cols());
    var warm := ScanRound(c, init, 0, qs);
    var col := GreedyColumn(warm.seen, c.Cols());
    assert RoundQuotas(c, init, First) == Some(qs);
    TotalZero(qs);
    assert qs[0] > 0;
    assert warm.seen[..|warm.seen|] == warm.seen;
    var plan := Next(First, init, warm);
    RunLocked(c, warm, plan, col, |warm.log|);
    assert RunFrom(c, init, First) == RunFrom(c, warm, plan);
    SeenOk(c, warm);
    GreedyColumnMeaning(warm.seen, c.Cols());
  }
}
