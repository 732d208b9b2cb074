/** How greedy and adaptive rounds read the columns, and with them whole runs: stated on the log of reads,
    the streams and the rows seen. */
module QuotaOrder {
  import opened Ranking
  import opened Scans
  import opened Arithmetic
  import opened Schedulers
  import opened Runs
  import opened QuotaLaws
  import opened ReadOrder

  // ---------- rounds with quotas ----------

  /** n reads of column i. */
  function Repeat(i: nat, n: nat): (log: seq<nat>)
    ensures |log| == n
  {
    seq(n, _ => i)
  }

  /** What a quota of n allows column i: at most n reads, and none after the one that finds it exhausted. */
  function Allowed(streams: Streams, s: State, i: nat, n: nat): nat
    requires WellFormed(streams, s) && i < |streams|
  {
    Min(n, |streams[i]| - s.pos[i] + 1)
  }

  /** The reads that the quotas of columns i, i + 1, ... allow, column by column. */
  function Reads(streams: Streams, s: State, qs: seq<nat>, i: nat): seq<nat>
    requires WellFormed(streams, s) && i <= |qs| == |streams|
    decreases |streams| - i
  {
    if i == |streams| then []
    else Repeat(i, Allowed(streams, s, i, qs[i])) + Reads(streams, s, qs, i + 1)
  }

  /** From s to t the log grew by a part of `todo`: by all of it, or up to the first moment when
      termCond rows in a row had been rejected. */
  ghost predicate Follows(c: Config, s: State, todo: seq<nat>, t: State) {
    && Replayed(c.streams, s) && Replayed(c.streams, t)
    && s.log <= t.log <= s.log + todo
    && (t.log == s.log + todo || Dropped(c, t))
    && forall n :: |s.log| <= n < |t.log| ==> !Dropped(c, After(c, t, n))
  }

  lemma FollowsNothing(c: Config, s: State)
    requires Replayed(c.streams, s)
    ensures Follows(c, s, [], s)
  {
    assert s.log + [] == s.log;
  }

  /** One read after the other. */
  lemma FollowsJoin(c: Config, s: State, a: seq<nat>, t: State, b: seq<nat>, u: State)
    requires Follows(c, s, a, t)
    requires if Dropped(c, t) then u == t else Follows(c, t, b, u)
    ensures Follows(c, s, a + b, u)
  {
    hide Replay, Streak, Dropped;
    if Dropped(c, t) {
      assert s.log + a <= s.log + (a + b);
    } else {
      assert s.log + a + b == s.log + (a + b);
      AfterAll(c, t);
      forall n | |s.log| <= n < |u.log|
        ensures !Dropped(c, After(c, u, n))
      {
        if n < |t.log| {
          assert u.log[..n] == t.log[..n];
          assert After(c, u, n) == After(c, t, n);
        } else if n == |t.log| {
          assert u.log[..n] == t.log;
        }
      }
    }
  }

  lemma FollowsPull(c: Config, s: State, i: nat)
    requires Replayed(c.streams, s) && i < c.Cols() && !Dropped(c, s)
    ensures Follows(c, s, [i], Pull(c.streams, s, i))
  {
    hide Replay, Streak, Dropped;
    PullReplayed(c.streams, s, i);
    AfterAll(c, s);
    assert Pull(c.streams, s, i).log[..|s.log|] == s.log;
  }

  /** Column i after a quota of n: its cursor has moved by n, if there are as many rows. */
  ghost predicate Served(streams: Streams, s: State, i: nat, n: nat, t: State)
    requires WellFormed(streams, s) && WellFormed(streams, t) && i < |streams|
  {
    && t.pos[i] == Min(s.pos[i] + n, |streams[i]|)
    && (i in t.ended <==> i in s.ended || s.pos[i] + n > |streams[i]|)
  }

  lemma {:induction false} ColumnReads(c: Config, s: State, i: nat, n: nat)
    requires Replayed(c.streams, s) && i < c.Cols() && Eager(c) && !Dropped(c, s)
    ensures var t := ScanColumn(c, s, i, n);
            && Follows(c, s, Repeat(i, Allowed(c.streams, s, i, n)), t)
            && (forall j :: 0 <= j < c.Cols() && j != i ==> t.pos[j] == s.pos[j] && (j in t.ended <==> j in s.ended))
            && (!Dropped(c, t) ==> Served(c.streams, s, i, n, t))
    decreases n
  {
    hide Replay, Streak, Left, Dropped, Follows;
    var todo := Repeat(i, Allowed(c.streams, s, i, n));
    if n == 0 {
      assert todo == [];
      FollowsNothing(c, s);
    } else {
      PullReplayed(c.streams, s, i);
      var t := Pull(c.streams, s, i);
      FollowsPull(c, s, i);
      if AtEnd(c.streams, s, i) {
        assert todo == [i];
      } else {
        var rest := Repeat(i, Allowed(c.streams, t, i, n - 1));
        assert todo == [i] + rest;
        if !Dropped(c, t) {
          ColumnReads(c, t, i, n - 1);
        }
        FollowsJoin(c, s, [i], t, rest, ScanColumn(c, s, i, n));
      }
    }
  }

  lemma {:induction false} ReadsAhead(streams: Streams, s: State, t: State, qs: seq<nat>, i: nat)
    requires WellFormed(streams, s) && WellFormed(streams, t) && i <= |qs| == |streams|
    requires forall j :: i <= j < |streams| ==> t.pos[j] == s.pos[j]
    ensures Reads(streams, s, qs, i) == Reads(streams, t, qs, i)
    decreases |streams| - i
  {
    if i < |streams| {
      ReadsAhead(streams, s, t, qs, i + 1);
    }
  }

  lemma {:induction false} RoundReads(c: Config, s: State, i: nat, qs: seq<nat>)
    requires Replayed(c.streams, s) && i <= c.Cols() == |qs| && Eager(c) && !Dropped(c, s)
    ensures var t := ScanRound(c, s, i, qs);
            && Follows(c, s, Reads(c.streams, s, qs, i), t)
            && (forall j :: 0 <= j < i ==> t.pos[j] == s.pos[j] && (j in t.ended <==> j in s.ended))
            && (!Dropped(c, t) ==> forall j :: i <= j < c.Cols() ==> Served(c.streams, s, j, qs[j], t))
    decreases c.Cols() - i
  {
    hide Replay, Streak, Left, Dropped, Follows, ScanColumn;
    if i == c.Cols() {
      FollowsNothing(c, s);
    } else {
      var t := ScanColumn(c, s, i, qs[i]);
      ColumnReads(c, s, i, qs[i]);
      ReadsAhead(c.streams, s, t, qs, i + 1);
      if !Dropped(c, t) {
        RoundReads(c, t, i + 1, qs);
      }
      FollowsJoin(c, s, Repeat(i, Allowed(c.streams, s, i, qs[i])), t,
                  Reads(c.streams, s, qs, i + 1), ScanRound(c, s, i, qs));
    }
  }

  /** A greedy or adaptive round, on log and cursors: unless rejections cut it short, every column is read
      as often as its quota and its rows allow, also the columns after one that has ended. */
  lemma QuotasServed(c: Config, s: State, qs: seq<nat>)
    requires Replayed(c.streams, s) && c.Cols() == |qs| && Eager(c) && !Dropped(c, s) && s.ended == {}
    ensures var t := ScanRound(c, s, 0, qs);
            && Follows(c, s, Reads(c.streams, s, qs, 0), t)
            && (!Dropped(c, t) ==> forall i :: 0 <= i < c.Cols() ==>
                  && t.pos[i] == Min(s.pos[i] + qs[i], |c.streams[i]|)
                  && (i in t.ended <==> s.pos[i] + qs[i] > |c.streams[i]|))
  {
    hide Replay, Streak, Left, Dropped, Follows;
    RoundReads(c, s, 0, qs);
  }

  // ---------- the warm-up round ----------

  /** 20 reads of each column in turn, or one more than it has rows. */
  function WarmUpReads(streams: Streams, i: nat): seq<nat>
    requires i <= |streams|
    decreases |streams| - i
  {
    if i == |streams| then [] else Repeat(i, Min(20, |streams[i]| + 1)) + WarmUpReads(streams, i + 1)
  }

  lemma {:induction false} WarmUpIs(streams: Streams, i: nat)
    requires i <= |streams|
    ensures Reads(streams, Init(|streams|), WarmUp(|streams|), i) == WarmUpReads(streams, i)
    decreases |streams| - i
  {
    if i < |streams| {
      WarmUpIs(streams, i + 1);
    }
  }

  /** The first round of every greedy or adaptive run. */
  lemma WarmUpServed(c: Config) returns (warm: State, plan: Plan)
    requires Valid(c) && Eager(c)
    ensures Replayed(c.streams, Init(c.Cols())) && Follows(c, Init(c.Cols()), WarmUpReads(c.streams, 0), warm)
    ensures !Dropped(c, warm) ==> forall i :: 0 <= i < c.Cols() ==>
              warm.pos[i] == Min(20, |c.streams[i]|) && (i in warm.ended <==> |c.streams[i]| < 20)
    ensures plan == Later(|warm.seen|, 0) && Run(c) == RunFrom(c, warm, plan)
  {
    hide Replay, Streak, Left, ScanRound, Total, Follows, Reads;
    InitReplayed(c.streams);
    var m := c.Cols();
    var init, qs := Init(m), WarmUp(m);
    QuotasServed(c, init, qs);
    WarmUpIs(c.streams, 0);
    assert RoundQuotas(c, init, First) == Some(qs);
    TotalZero(qs);
    assert qs[0] > 0;
    warm := RunStep(c, init, First);
    plan := Next(First, init, warm);
  }

  // ---------- greedy ----------

  lemma {:induction false} LockedReads(streams: Streams, s: State, col: nat, i: nat)
    requires WellFormed(streams, s) && i <= |streams| && col < |streams|
    ensures Reads(streams, s, Locked(col, |streams|), i)
         == if i <= col then Repeat(col, Allowed(streams, s, col, 1000)) else []
    decreases |streams| - i
  {
    if i < |streams| {
      LockedReads(streams, s, col, i + 1);
      assert i != col ==> Repeat(i, Allowed(streams, s, i, 0)) == [];
    }
  }

  /** From read number `from` on, only column col was read, and only the last read can have found it
      exhausted or have been one rejection too many. */
  ghost predicate LockedOn(c: Config, s: State, from: nat, col: nat) {
    && Replayed(c.streams, s) && from <= |s.log|
    && (forall j :: from <= j < |s.log| ==> s.log[j] == col)
    && (forall n :: 0 <= n < |s.log| ==> !Dropped(c, After(c, s, n)))
    && (forall n :: from <= n < |s.log| ==> After(c, s, n).ended == {})
  }

  lemma RepeatCount(log: seq<nat>, col: nat, n: nat, i: nat)
    ensures multiset(log + Repeat(col, n))[i] == multiset(log)[i] + if i == col then n else 0
  {
    if n > 0 {
      RepeatCount(log, col, n - 1, i);
      assert log + Repeat(col, n) == log + Repeat(col, n - 1) + [col];
    } else {
      assert log + Repeat(col, 0) == log;
    }
  }

  /** Reading an unfinished column on, up to the read that finds it exhausted. */
  lemma NotYetEnded(c: Config, s: State, col: nat, t: State, n: nat)
    requires Replayed(c.streams, s) && Replayed(c.streams, t) && s.ended == {} && col < c.Cols()
    requires n <= |c.streams[col]| - s.pos[col] && t.log == s.log + Repeat(col, n)
    ensures t.ended == {}
  {
    hide Replay;
    ReplayedCounted(c.streams, s);
    ReplayedCounted(c.streams, t);
    forall i: nat | i < c.Cols()
      ensures i !in t.ended
    {
      RepeatCount(s.log, col, n, i);
      assert i !in s.ended;
    }
  }

  lemma LockedRound(c: Config, s: State, from: nat, col: nat, t: State)
    requires LockedOn(c, s, from, col) && col < c.Cols() && !Done(c, s)
    requires Follows(c, s, Repeat(col, Allowed(c.streams, s, col, 1000)), t)
    ensures LockedOn(c, t, from, col)
  {
    hide Replay, Streak, Dropped;
    AfterAll(c, s);
    forall n | 0 <= n < |t.log|
      ensures !Dropped(c, After(c, t, n)) && (from <= n ==> After(c, t, n).ended == {})
    {
      if n <= |s.log| {
        assert t.log[..n] == s.log[..n];
        assert After(c, t, n) == After(c, s, n);
      } else {
        assert t.log[..n] == s.log + Repeat(col, n - |s.log|);
        NotYetEnded(c, s, col, After(c, t, n), n - |s.log|);
      }
    }
  }

  lemma {:induction false} RunLockedOn(c: Config, s: State, plan: Plan, from: nat, col: nat)
    requires Valid(c) && c.policy.Greedy? && plan.Later? && Fits(plan, s) && LockedOn(c, s, from, col)
    requires col == GreedyColumn(s.seen[..plan.firstEnd], c.Cols())
    ensures LockedOn(c, RunFrom(c, s, plan).s, from, col) && Done(c, RunFrom(c, s, plan).s)
    ensures s.log <= RunFrom(c, s, plan).s.log
    decreases if Done(c, s) then 0 else 1 + Remaining(c.streams, s)
  {
    hide Replay, Left, Streak, ScanRound, Total, GreedyColumn, LockedOn, Follows, Reads;
    LockedReplayed(c, s, from, col);
    if !Done(c, s) {
      var qs := Locked(col, c.Cols());
      assert RoundQuotas(c, s, plan) == Some(qs);
      TotalZero(qs);
      assert qs[col] > 0;
      var t := RunStep(c, s, plan);
      QuotasServed(c, s, qs);
      LockedReads(c.streams, s, col, 0);
      LockedRound(c, s, from, col, t);
      assert t.seen[..plan.firstEnd] == s.seen[..plan.firstEnd];
      RunLockedOn(c, t, Next(plan, s, t), from, col);
    }
  }

  lemma LockedReplayed(c: Config, s: State, from: nat, col: nat)
    requires LockedOn(c, s, from, col)
    ensures Replayed(c.streams, s)
  {
  }

  /** Greedy, whole run: the warm-up round, unless rejections cut it short, and then one column, the one
      with the least average score in the warm-up round; the run stops at the first rejection too many,
      or else at the end of the warm-up round if it has exhausted a column, or at the first later read
      that finds the column exhausted. */
  lemma GreedyReads(c: Config)
    requires Valid(c) && c.policy.Greedy?
    ensures var s, todo := Run(c).s, WarmUpReads(c.streams, 0);
            && Done(c, s)
            && (forall n :: 0 <= n < |s.log| ==> !Dropped(c, After(c, s, n)))
            && if |s.log| < |todo| then s.log <= todo && Dropped(c, s)
               else
                 var warm := After(c, s, |todo|);
                 && todo <= s.log
                 && (forall j :: |todo| <= j < |s.log| ==> s.log[j] == GreedyColumn(warm.seen, c.Cols()))
                 && (forall n :: |todo| <= n < |s.log| ==> After(c, s, n).ended == {})
  {
    hide Replay, Left, Streak, Dropped, GreedyColumn, WarmUpReads, RunFrom;
    var warm, plan := WarmUpServed(c);
    var todo, col := WarmUpReads(c.streams, 0), GreedyColumn(warm.seen, c.Cols());
    assert Init(c.Cols()).log + todo == todo;
    assert warm.seen[..|warm.seen|] == warm.seen;
    RunLockedOn(c, warm, plan, |warm.log|, col);
    var s := Run(c).s;
    AfterAll(c, warm);
    assert s.log[..|warm.log|] == warm.log;
    assert After(c, s, |warm.log|) == warm;
    if Dropped(c, warm) {
      assert |s.log| == |warm.log|;
      AfterAll(c, s);
    }
  }

  // ---------- adaptive ----------

  /** One later round: from s to t, when the round before led from r to s. Its quotas are fair, and it
      reads what they allow. */
  ghost predicate FairRound(c: Config, r: State, s: State, t: State)
    requires c.policy.Adaptive?
  {
    && Replayed(c.streams, s) && |r.seen| <= |s.seen|
    && exists qs :: FairQuotas(c, r, s, qs) && Follows(c, s, Reads(c.streams, s, qs, 0), t)
  }

  ghost predicate FairQuotas(c: Config, r: State, s: State, qs: seq<nat>)
    requires c.policy.Adaptive? && |r.seen| <= |s.seen|
  {
    |qs| == c.Cols() && Fair(qs, s.seen[|r.seen|..], s.seen, c.policy.k, c.Cols())
  }

  lemma RoundIsFair(c: Config, r: State, s: State, plan: Plan)
    requires Valid(c) && c.policy.Adaptive? && Replayed(c.streams, s) && Fits(plan, s)
    requires plan.Later? && plan.localStart == |r.seen| && Weighted(s.seen, c.Cols())
    ensures RoundQuotas(c, s, plan).Some? && FairQuotas(c, r, s, RoundQuotas(c, s, plan).value)
  {
    hide Replay, Fair, AdaptiveQuotas, Weighted;
    SeenOk(c, s);
    var recent := s.seen[plan.localStart..];
    QuotasFair(c.policy.drain, recent, s.seen, c.policy.k, c.Cols());
  }

  /** The rounds of an adaptive run, from a state between two rounds on. */
  ghost predicate Rounds(c: Config, trace: seq<State>)
    requires c.policy.Adaptive?
  {
    && |trace| >= 2
    && (forall j :: 0 <= j < |trace| ==> Replayed(c.streams, trace[j]))
    && (forall j :: 0 < j < |trace| - 1 ==> !Done(c, trace[j]) && FairRound(c, trace[j - 1], trace[j], trace[j + 1]))
  }

  /** How such a run ends. */
  ghost predicate EndsAs(c: Config, r: State, s: State, out: Outcome)
    requires c.policy.Adaptive? && |r.seen| <= |s.seen|
  {
    && out.s == s
    && match out
       case Finished(_) => Done(c, s)
       case Undefined(_) => !Done(c, s) && exists i :: 0 <= i < c.Cols() && Score(s.seen, i) <= 0.0
       case Stalled(_) =>
         && !Done(c, s)
         && exists qs :: FairQuotas(c, r, s, qs) && forall i :: 0 <= i < |qs| ==> qs[i] == 0
  }

  /** A run whose last two states between rounds are r and s, up to its end. */
  ghost predicate Traced(c: Config, r: State, s: State, trace: seq<State>, out: Outcome)
    requires c.policy.Adaptive?
  {
    && Rounds(c, trace) && trace[0] == r && trace[1] == s
    && var n := |trace|;
    && |trace[n - 2].seen| <= |trace[n - 1].seen| && EndsAs(c, trace[n - 2], trace[n - 1], out)
  }

  lemma TraceLonger(c: Config, r: State, s: State, t: State, rest: seq<State>, out: Outcome)
    requires c.policy.Adaptive? && Traced(c, s, t, rest, out)
    requires Replayed(c.streams, r) && !Done(c, s) && FairRound(c, r, s, t)
    ensures Traced(c, r, s, [r] + rest, out)
  {
    hide FairRound, EndsAs, Replay, Streak;
  }

  lemma {:induction false} RunTraced(c: Config, r: State, s: State, plan: Plan) returns (trace: seq<State>)
    requires Valid(c) && c.policy.Adaptive? && Replayed(c.streams, r) && Replayed(c.streams, s) && Fits(plan, s)
    requires plan.Later? && plan.localStart == |r.seen|
    ensures Traced(c, r, s, trace, RunFrom(c, s, plan))
    decreases if Done(c, s) then 0 else 1 + Remaining(c.streams, s)
  {
    hide Replay, Left, Streak, ScanRound, Total, Fair, FairQuotas, Score, Follows, Reads;
    var quotas := RoundQuotas(c, s, plan);
    if Done(c, s) || quotas.None? {
      trace := [r, s];
    } else {
      RoundIsFair(c, r, s, plan);
      TotalZero(quotas.value);
      if Total(quotas.value) == 0 {
        trace := [r, s];
      } else {
        hide Traced;
        var t := RunStep(c, s, plan);
        QuotasServed(c, s, quotas.value);
        var rest := RunTraced(c, s, t, Next(plan, s, t));
        TraceLonger(c, r, s, t, rest, RunFrom(c, s, plan));
        trace := [r] + rest;
      }
    }
  }

  /** Adaptive, whole run: the warm-up round and then rounds with fair quotas, each reading what its quotas
      allow; and how it ends. */
  lemma AdaptiveReads(c: Config) returns (trace: seq<State>)
    requires Valid(c) && c.policy.Adaptive?
    ensures |trace| >= 2 && Follows(c, Init(c.Cols()), WarmUpReads(c.streams, 0), trace[1])
    ensures Traced(c, Init(c.Cols()), trace[1], trace, Run(c))
  {
    hide Replay, Left, Streak, RunFrom, EndsAs, FairRound, Follows, WarmUpReads;
    var warm, plan := WarmUpServed(c);
    FollowsReplayed(c, Init(c.Cols()), WarmUpReads(c.streams, 0), warm);
    trace := RunTraced(c, Init(c.Cols()), warm, plan);
  }

  lemma FollowsReplayed(c: Config, s: State, todo: seq<nat>, t: State)
    requires Follows(c, s, todo, t)
    ensures Replayed(c.streams, t)
  {
  }
}
