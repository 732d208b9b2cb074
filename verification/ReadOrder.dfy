/** In which order the columns are read, over whole runs: stated on the log of reads and the streams
    alone. A state is determined by its log (`Scans.Replay`), so these theorems determine the run. */
module ReadOrder {
  import opened Scans
  import opened Arithmetic
  import opened Schedulers
  import opened Runs

  /** The scan after the first n reads. */
  function After(c: Config, s: State, n: nat): State
    requires Replayed(c.streams, s) && n <= |s.log|
  {
    Replay(c.streams, s.log[..n])
  }

  lemma AfterAll(c: Config, s: State)
    requires Replayed(c.streams, s)
    ensures After(c, s, |s.log|) == s
  {
    assert s.log[..|s.log|] == s.log;
  }

  // ---------- round robin ----------

  /** Column after column, round after round. */
  predicate Rotating(log: seq<nat>, m: nat)
    requires m > 0
  {
    forall j :: 0 <= j < |log| ==> log[j] == j % m
  }

  /** No round but the last ended with termCond rejections. */
  predicate QuietRounds(c: Config, s: State)
    requires Replayed(c.streams, s) && c.Cols() > 0
  {
    forall n :: 0 <= n < |s.log| && n % c.Cols() == 0 ==> !Dropped(c, After(c, s, n))
  }

  /** Only the last read can have found its column exhausted. */
  predicate EndedLast(c: Config, s: State)
    requires Replayed(c.streams, s)
  {
    |s.log| > 0 ==> After(c, s, |s.log| - 1).ended == {}
  }

  ghost predicate Turning(c: Config, s: State) {
    && c.Cols() > 0 && Replayed(c.streams, s)
    && Rotating(s.log, c.Cols()) && QuietRounds(c, s) && EndedLast(c, s)
  }

  lemma NextTurn(n: nat, m: nat)
    requires m > 0
    ensures (n + 1) % m == if n % m + 1 == m then 0 else n % m + 1
    ensures (n + 1) / m == if n % m + 1 == m then n / m + 1 else n / m
  {
    var q, r := n / m, n % m;
    assert n == q * m + r;
    if r + 1 == m {
      assert n + 1 == (q + 1) * m + 0;
      ModIs(n + 1, q + 1, m, 0);
    } else {
      ModIs(n + 1, q, m, r + 1);
    }
  }

  lemma Multiples(a: nat, b: nat, m: nat)
    requires a < b
    ensures a * m + m <= b * m
  {
    assert b * m == a * m + (b - a) * m;
    assert (b - a) * m == m + (b - a - 1) * m;
  }

  lemma ModIs(n: nat, q: nat, m: nat, r: nat)
    requires n == q * m + r && r < m
    ensures n % m == r && n / m == q
  {
    var d := n / m;
    assert n == d * m + n % m;
    if q < d {
      Multiples(q, d, m);
    } else if d < q {
      Multiples(d, q, m);
    }
  }

  lemma PullTurns(c: Config, s: State, i: nat)
    requires Turning(c, s) && s.ended == {} && i < c.Cols() && |s.log| % c.Cols() == i
    requires i == 0 ==> !Dropped(c, s)
    ensures Turning(c, Pull(c.streams, s, i))
  {
    hide Replay, Streak;
    PullReplayed(c.streams, s, i);
    AfterAll(c, s);
    var t := Pull(c.streams, s, i);
    forall n | 0 <= n <= |s.log|
      ensures After(c, t, n) == After(c, s, n)
    {
      assert t.log[..n] == s.log[..n];
    }
  }

  /** The rest of a round, from column i on. */
  lemma {:induction false} RoundTurns(c: Config, s: State, i: nat)
    requires c.policy.RoundRobin? && Turning(c, s) && s.ended == {}
    requires i < c.Cols() && |s.log| % c.Cols() == i
    requires i == 0 ==> !Dropped(c, s)
    ensures var t := ScanRound(c, s, i, Ones(c.Cols()));
            Turning(c, t) && (t.ended != {} || |t.log| % c.Cols() == 0)
    decreases c.Cols() - i
  {
    hide Replay, Streak, Left, Turning;
    TurningReplayed(c, s);
    var m, t := c.Cols(), Pull(c.streams, s, i);
    OneRead(c, s, i);
    PullReplayed(c.streams, s, i);
    PullTurns(c, s, i);
    NextTurn(|s.log|, m);
    if t.ended == {} {
      if i + 1 < m {
        RoundTurns(c, t, i + 1);
      } else {
        assert ScanRound(c, t, m, Ones(m)) == t;
      }
    }
  }

  lemma TurningReplayed(c: Config, s: State)
    requires Turning(c, s)
    ensures Replayed(c.streams, s)
  {
  }

  lemma {:induction false} RunTurns(c: Config, s: State, plan: Plan)
    requires Valid(c) && Fits(plan, s) && c.policy.RoundRobin? && Turning(c, s)
    requires s.ended != {} || |s.log| % c.Cols() == 0
    ensures Replayed(c.streams, s)
    ensures var t := RunFrom(c, s, plan).s;
            Turning(c, t) && Done(c, t) && (t.ended != {} || |t.log| % c.Cols() == 0)
    decreases if Done(c, s) then 0 else 1 + Remaining(c.streams, s)
  {
    hide Replay, Left, Streak, ScanRound, Total, Turning;
    TurningReplayed(c, s);
    if !Done(c, s) {
      var qs := RoundQuotas(c, s, plan).value;
      assert qs[0] == 1;
      TotalZero(qs);
      RoundTurns(c, s, 0);
      var t := RunStep(c, s, plan);
      RunTurns(c, t, Next(plan, s, t));
    }
  }

  lemma StartTurns(c: Config)
    requires Valid(c)
    ensures Turning(c, Init(c.Cols()))
  {
    InitReplayed(c.streams);
  }

  /** How often a rotation has come to each column. */
  lemma {:induction false} TimesRead(log: seq<nat>, m: nat, i: nat)
    requires m > 0 && Rotating(log, m) && i < m
    ensures multiset(log)[i] == |log| / m + if i < |log| % m then 1 else 0
  {
    if log == [] {
      ModIs(0, 0, m, 0);
    } else {
      var n := |log| - 1;
      TimesRead(log[..n], m, i);
      assert log == log[..n] + [n % m];
      NextTurn(n, m);
    }
  }

  lemma EarlierTurn(j: nat, n: nat, m: nat)
    requires j < n && m > 0
    ensures j / m < n / m || (j / m == n / m && j % m < n % m)
  {
    assert j == (j / m) * m + j % m && n == (n / m) * m + n % m;
    if j / m > n / m {
      Multiples(n / m, j / m, m);
    }
  }

  lemma StartIsNotDone(c: Config, s: State)
    requires Valid(c) && Replayed(c.streams, s) && s.log == []
    ensures !Done(c, s)
  {
  }

  /** Round robin, whole run: read number j is of column j mod m; every read but the last finds a row;
      and the run stops at the first read that finds none, or at the end of the first round that leaves
      termCond rejections in a row. */
  lemma RoundRobinReads(c: Config)
    requires Valid(c) && c.policy.RoundRobin?
    ensures var s, m := Run(c).s, c.Cols();
            && |s.log| > 0
            && (forall j :: 0 <= j < |s.log| ==> s.log[j] == j % m)
            && (forall j :: 0 <= j < |s.log| - 1 ==> j / m < |c.streams[j % m]|)
            && (forall n :: 0 <= n < |s.log| && n % m == 0 ==> !Dropped(c, After(c, s, n)))
            && (|| (|s.log| - 1) / m >= |c.streams[(|s.log| - 1) % m]|
                || (|s.log| % m == 0 && Dropped(c, s)))
  {
    hide Replay, Left, Streak;
    StartTurns(c);
    RunTurns(c, Init(c.Cols()), First);
    var s, m := Run(c).s, c.Cols();
    if s.log == [] {
      StartIsNotDone(c, s);
    }
    LastTurn(c, s);
  }

  /** While no column has ended, every read of a rotation found a row. */
  lemma TurnFound(c: Config, u: State, j: nat)
    requires c.Cols() > 0 && Replayed(c.streams, u) && Rotating(u.log, c.Cols()) && u.ended == {} && j < |u.log|
    ensures j / c.Cols() < |c.streams[j % c.Cols()]|
  {
    hide Replay;
    var m := c.Cols();
    ReplayedCounted(c.streams, u);
    TimesRead(u.log, m, j % m);
    EarlierTurn(j, |u.log|, m);
    assert j % m !in u.ended;
  }

  lemma TurnMissed(c: Config, u: State, t: State)
    requires c.Cols() > 0 && Replayed(c.streams, u) && Rotating(u.log, c.Cols()) && u.ended == {}
    requires Replayed(c.streams, t) && t.log == u.log + [|u.log| % c.Cols()]
    ensures t.ended != {} ==> |u.log| / c.Cols() >= |c.streams[|u.log| % c.Cols()]|
  {
    hide Replay;
    var m := c.Cols();
    ReplayedCounted(c.streams, u);
    ReplayedCounted(c.streams, t);
    TimesRead(u.log, m, |u.log| % m);
    forall i | i in t.ended
      ensures i == |u.log| % m
    {
      assert i !in u.ended;
    }
  }

  lemma LastTurn(c: Config, s: State)
    requires Turning(c, s) && s.log != []
    ensures var last, m := |s.log| - 1, c.Cols();
            && (forall j :: 0 <= j < last ==> j / m < |c.streams[j % m]|)
            && (s.ended != {} ==> last / m >= |c.streams[last % m]|)
  {
    hide Replay, Streak;
    var last, m := |s.log| - 1, c.Cols();
    assert s.log == s.log[..last] + [last % m];
    var u := After(c, s, last);
    forall j | 0 <= j < last
      ensures j / m < |c.streams[j % m]|
    {
      TurnFound(c, u, j);
    }
    TurnMissed(c, u, s);
  }

  // ---------- no column is asked again after it has returned nothing ----------

  lemma PullAsked(streams: Streams, s: State, i: nat)
    requires Replayed(streams, s) && i < |streams|
    ensures var t := Pull(streams, s, i);
            forall j: nat :: multiset(t.log)[j] == multiset(s.log)[j] + if j == i then 1 else 0
    ensures AtEnd(streams, s, i) <==> multiset(s.log)[i] >= |streams[i]|
  {
    hide Replay, Tids;
    ReplayedCounted(streams, s);
  }

  lemma {:induction false} ColumnAskedOnce(c: Config, s: State, i: nat, n: nat)
    requires Replayed(c.streams, s) && i < c.Cols() && multiset(s.log)[i] <= |c.streams[i]|
    ensures var t := ScanColumn(c, s, i, n);
            && multiset(t.log)[i] <= |c.streams[i]| + 1
            && forall j: nat :: j != i ==> multiset(t.log)[j] == multiset(s.log)[j]
    decreases n
  {
    hide Replay, Streak, Left, Dropped, Pull, AtEnd;
    if n > 0 {
      PullAsked(c.streams, s, i);
      PullReplayed(c.streams, s, i);
      var t := Pull(c.streams, s, i);
      if !AtEnd(c.streams, s, i) && !(Eager(c) && Dropped(c, t)) {
        ColumnAskedOnce(c, t, i, n - 1);
      }
    }
  }

  /** Columns from i on have not ended, and none was read twice too often. */
  ghost predicate AskedOnce(streams: Streams, s: State, i: nat) {
    forall j :: 0 <= j < |streams| ==> multiset(s.log)[j] <= |streams[j]| + if j < i then 1 else 0
  }

  lemma {:induction false} RoundAskedOnce(c: Config, s: State, i: nat, qs: seq<nat>)
    requires Replayed(c.streams, s) && i <= c.Cols() == |qs| && AskedOnce(c.streams, s, i)
    ensures AskedOnce(c.streams, ScanRound(c, s, i, qs), c.Cols())
    decreases c.Cols() - i
  {
    hide Replay, Streak, Left, Dropped, ScanColumn;
    if i < c.Cols() {
      var t := ScanColumn(c, s, i, qs[i]);
      ColumnAskedOnce(c, s, i, qs[i]);
      assert AskedOnce(c.streams, t, i + 1);
      if !Stops(c, t) {
        RoundAskedOnce(c, t, i + 1, qs);
      }
    }
  }

  lemma {:induction false} RunAskedOnce(c: Config, s: State, plan: Plan)
    requires Valid(c) && Replayed(c.streams, s) && Fits(plan, s) && AskedOnce(c.streams, s, c.Cols())
    ensures AskedOnce(c.streams, RunFrom(c, s, plan).s, c.Cols())
    decreases if Done(c, s) then 0 else 1 + Remaining(c.streams, s)
  {
    hide Replay, Left, Streak, ScanRound, Total;
    var quotas := RoundQuotas(c, s, plan);
    if !Done(c, s) && quotas.Some? && Total(quotas.value) != 0 {
      ReplayedCounted(c.streams, s);
      RoundAskedOnce(c, s, 0, quotas.value);
      var t := RunStep(c, s, plan);
      RunAskedOnce(c, t, Next(plan, s, t));
    }
  }

  /** Under every scheduler, a column is read at most once more than it has rows. */
  lemma NeverAskedAgain(c: Config, i: nat)
    requires Valid(c) && i < c.Cols()
    ensures multiset(Run(c).s.log)[i] <= |c.streams[i]| + 1
  {
    InitReplayed(c.streams);
    RunAskedOnce(c, Init(c.Cols()), First);
  }
}
