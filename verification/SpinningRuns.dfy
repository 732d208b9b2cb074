/** The adaptive executor with more than 2k columns: streams on which it stops making progress, and
    with them the exact condition under which it cannot. */
module SpinningRuns {
  import opened Ranking
  import opened Scans
  import opened Arithmetic
  import opened Schedulers
  import opened Runs
  import opened AdaptiveRuns
  import opened WarmUpRounds

  // ---------- a table of 20 rows per column, all of score 1 ----------

  function Wrap(d: nat, m: nat): nat {
    if d < m then d else d - m
  }

  /** Column i lists the 20 rows of block i, then those of the next block, and so on round all m. */
  function Rotated(i: nat, m: nat): (rows: seq<Row>)
    requires i < m < 0x1_0000_0000
    ensures |rows| == 20 * m
  {
    seq(20 * m, p requires 0 <= p < 20 * m => Cell(Wrap(i + p / 20, m), p % 20))
  }

  function Stuck(k: nat, m: nat, drain: seq<Hit> -> seq<Hit>): (c: Config)
    requires m < 0x1_0000_0000
    ensures 0 < m ==> IsStuck(c, k, m)
  {
    var streams := seq(m, i requires 0 <= i < m => Rotated(i, m));
    Config(streams, 20 * m, 50, Adaptive(k, drain))
  }

  predicate IsStuck(c: Config, k: nat, m: nat) {
    && 0 < m < 0x1_0000_0000 && c.Cols() == m && c.ef == 20 * m && c.termCond == 50
    && c.policy.Adaptive? && c.policy.k == k
    && forall i :: 0 <= i < m ==> c.streams[i] == Rotated(i, m)
  }

  /** The 20 rows of each of the first n blocks, attributed to the column that starts with them. */
  function Blocks(n: nat): (hits: seq<Hit>)
    requires n < 0x1_0000_0000
    ensures |hits| == 20 * n
  {
    seq(20 * n, p requires 0 <= p < 20 * n => Hit(Cell(p / 20, p % 20), p / 20))
  }

  lemma DivisionOf(d: nat, r: nat)
    requires r < 20
    ensures (20 * d + r) / 20 == d && (20 * d + r) % 20 == r
  {
  }

  lemma RotatedHas(i: nat, j: nat, m: nat, p: nat)
    requires i < m < 0x1_0000_0000 && j < m && p < 20 * m
    ensures Rotated(i, m)[p] in Rotated(j, m)
  {
    hide Cell;
    var b := Wrap(i + p / 20, m);
    var d := if b >= j then b - j else b - j + m;
    DivisionOf(d, p % 20);
    assert Wrap(j + d, m) == b;
    assert Rotated(j, m)[20 * d + p % 20] == Rotated(i, m)[p];
  }

  lemma RotatedLists(i: nat, j: nat, m: nat)
    requires i < m < 0x1_0000_0000 && j < m
    ensures forall r :: r in Rotated(i, m) ==> r in Rotated(j, m)
  {
    hide Rotated;
    forall r | r in Rotated(i, m)
      ensures r in Rotated(j, m)
    {
      var p :| 0 <= p < 20 * m && Rotated(i, m)[p] == r;
      RotatedHas(i, j, m, p);
    }
  }

  lemma StuckListsTable(c: Config, k: nat, m: nat)
    requires IsStuck(c, k, m)
    ensures ListTable(c.streams)
  {
    forall i, p, q | 0 <= i < m && 0 <= p < q < |c.streams[i]|
      ensures c.streams[i][p].tid != c.streams[i][q].tid
    {
      assert p / 20 != q / 20 || p % 20 != q % 20;
    }
    forall i, j | 0 <= i < j < m
      ensures Elements(c.streams[i]) == Elements(c.streams[j])
    {
      RotatedLists(i, j, m);
      RotatedLists(j, i, m);
    }
  }

  // ---------- the first round sees the whole table ----------

  lemma StuckWarmColumn(c: Config, s: State, i: nat, k: nat, m: nat)
    requires IsStuck(c, k, m) && Replayed(c.streams, s) && i < m
    requires s.seen == Blocks(i) && s.pos[i] == 0
    ensures var t := ScanColumn(c, s, i, 20);
            t.seen == Blocks(i + 1) && t.ended == s.ended && t.pos == s.pos[i := 20]
  {
    hide Replay, Left, Streak;
    var rows := c.streams[i];
    forall p | 0 <= p < 20
      ensures rows[p] == Cell(i, p) && rows[p].tid !in Tids(s.seen)
    {
    }
    NewColumn(c, s, i, 20);
    var now := Blocks(i) + Slice(c.streams, i, 0, 20);
    forall p | 0 <= p < |now|
      ensures now[p] == Blocks(i + 1)[p]
    {
      assert p >= 20 * i ==> p / 20 == i && p % 20 == p - 20 * i;
    }
    assert now == Blocks(i + 1);
  }

  lemma {:induction false} StuckWarmRound(c: Config, s: State, i: nat, k: nat, m: nat)
    requires IsStuck(c, k, m) && Replayed(c.streams, s) && i <= m
    requires s.seen == Blocks(i) && s.ended == {}
    requires forall j :: 0 <= j < m ==> s.pos[j] == if j < i then 20 else 0
    ensures var t := ScanRound(c, s, i, WarmUp(m));
            t.seen == Blocks(m) && t.ended == {} && forall j :: 0 <= j < m ==> t.pos[j] == 20
    decreases m - i
  {
    hide Replay, Left, Streak, ScanColumn, Blocks;
    if i < m {
      var t := ScanColumn(c, s, i, 20);
      StuckWarmColumn(c, s, i, k, m);
      RoomLeft(c.ef, t.seen);
      StuckWarmRound(c, t, i + 1, k, m);
    }
  }

  // ---------- equal weights ----------

  lemma {:induction false} BlockAttribution(seen: seq<Hit>, block: seq<Hit>, c: nat, i: nat)
    requires forall h :: h in block ==> h.col == c && h.row.score == 1.0
    ensures Count(seen + block, i) == Count(seen, i) + if c == i then |block| else 0
    ensures Score(seen + block, i) == Score(seen, i) + if c == i then |block| as real else 0.0
    decreases |block|
  {
    if block == [] {
      assert seen + block == seen;
    } else {
      var n := |block| - 1;
      var h := block[n];
      assert h in block;
      BlockAttribution(seen, block[..n], c, i);
      assert seen + block == (seen + block[..n]) + [h];
      AttributionStep(seen + block[..n], h, i);
    }
  }

  lemma {:induction false} BlocksAttribution(n: nat, i: nat)
    requires n < 0x1_0000_0000
    ensures Count(Blocks(n), i) == if i < n then 20 else 0
    ensures Score(Blocks(n), i) == if i < n then 20.0 else 0.0
  {
    if n > 0 {
      BlocksAttribution(n - 1, i);
      var block := Blocks(n)[20 * (n - 1)..];
      assert Blocks(n) == Blocks(n - 1) + block;
      forall p | 0 <= p < 20
        ensures block[p].col == n - 1 && block[p].row.score == 1.0
      {
        assert block[p] == Blocks(n)[20 * (n - 1) + p];
      }
      BlockAttribution(Blocks(n - 1), block, n - 1, i);
    }
  }

  lemma {:induction false} SumOfOnes(xs: seq<real>)
    requires forall i :: 0 <= i < |xs| ==> xs[i] == 1.0
    ensures Sum(xs) == |xs| as real
  {
    if xs != [] {
      SumOfOnes(xs[..|xs| - 1]);
    }
  }

  lemma BelowHalf(a: real, b: real)
    requires 0.0 <= 2.0 * a < b
    ensures a / b < 0.5
  {
    assert a / b * b == a;
  }

  /** With equal weights and more than 2k columns every share of k is below one half. */
  lemma EqualWeights(k: nat, m: nat)
    requires 2 * k < m < 0x1_0000_0000
    ensures Nonnegative(Blocks(m)) && Weighted(Blocks(m), m)
    ensures Total(AdaptiveQuotas([], Blocks(m), k, m)) == 0
  {
    hide Count, Score, Sum, Total, AdaptiveQuotas;
    var seen := Blocks(m);
    forall i | 0 <= i < m
      ensures Count(seen, i) == 20 && Score(seen, i) == 20.0
    {
      BlocksAttribution(m, i);
    }
    var ws := Weights(seen, m);
    assert forall i :: 0 <= i < m ==> ws[i] == 1.0;
    SumOfOnes(ws);
    assert forall i :: 0 <= i < m ==> Shares(k, ws)[i] == k as real * 1.0 / m as real;
    BelowHalf(k as real, m as real);
    StallCondition([], seen, k, m);
  }

  // ---------- the second round reads duplicates, the third nothing ----------

  lemma StuckTidsSeen(c: Config, s: State, k: nat, m: nat, j: nat, p: nat)
    requires IsStuck(c, k, m) && s.seen == Blocks(m) && j < m && p < 20 * m
    ensures c.streams[j][p].tid in Tids(s.seen)
  {
    var b, o := Wrap(j + p / 20, m), p % 20;
    var q := 20 * b + o;
    assert q / 20 == b && q % 20 == o;
    assert s.seen[q] in s.seen;
  }

  lemma StuckSecondRound(c: Config, s: State, plan: Plan, k: nat, m: nat)
    requires IsStuck(c, k, m) && Valid(c) && 0 < 2 * k < m
    requires Replayed(c.streams, s) && s.seen == Blocks(m) && s.ended == {}
    requires forall j :: 0 <= j < m ==> s.pos[j] == 20
    requires plan == Later(20 * m, 0)
    ensures RunFrom(c, s, plan).Stalled? && RunFrom(c, s, plan).s.ended == {}
  {
    hide Replay, Left, Streak, ScanRound, Total, AdaptiveQuotas, Score, Blocks, Rotated;
    RoomLeft(c.ef, s.seen);
    EqualWeights(k, m);
    SeenOk(c, s);
    var best := Front(c.policy.drain(s.seen[0..]), k);
    DrainKeeps(c.policy.drain, s.seen[0..], m);
    var qs := AdaptiveQuotas(best, s.seen, k, m);
    assert RoundQuotas(c, s, plan) == Some(qs);
    QuotaBounds(best, s.seen, k, m);
    forall j | 0 <= j < m
      ensures s.pos[j] + qs[j] <= 20 * m
    {
      TotalBounds(qs, j);
    }
    forall j, p | 0 <= j < m && 0 <= p < |c.streams[j]|
      ensures c.streams[j][p].tid in Tids(s.seen)
    {
      StuckTidsSeen(c, s, k, m, j, p);
    }
    DuplicateRound(c, s, 0, qs);
    if Total(qs) != 0 {
      var t := RunStep(c, s, plan);
      StuckThirdRound(c, t, Next(plan, s, t), k, m);
    }
  }

  lemma StuckThirdRound(c: Config, s: State, plan: Plan, k: nat, m: nat)
    requires IsStuck(c, k, m) && Valid(c) && 0 < 2 * k < m
    requires Replayed(c.streams, s) && s.seen == Blocks(m) && s.ended == {}
    requires plan == Later(20 * m, 20 * m)
    ensures RunFrom(c, s, plan) == Stalled(s)
  {
    hide Replay, Left, Streak, ScanRound, Total, AdaptiveQuotas, Score, Blocks;
    RoomLeft(c.ef, s.seen);
    EqualWeights(k, m);
    SeenOk(c, s);
    assert s.seen[20 * m..] == [];
    DrainKeeps(c.policy.drain, [], m);
    assert Front(c.policy.drain([]), k) == [];
    assert RoundQuotas(c, s, plan) == Some(AdaptiveQuotas([], s.seen, k, m));
  }

  // ---------- the theorem ----------

  /** For every k and every larger-than-2k number of columns there is a table, listed once by every
      column, on which the adaptive executor stops making progress: it has not finished, no column has
      ended, and its next round, like every later one, reads nothing. */
  lemma StuckStalls(k: nat, m: nat, drain: seq<Hit> -> seq<Hit>)
    requires 0 < k && 2 * k < m < 0x1_0000_0000 && Drains(drain)
    ensures var c := Stuck(k, m, drain);
            Valid(c) && ListTable(c.streams) && Run(c).Stalled? && Run(c).s.ended == {}
  {
    hide Replay, Left, Streak, ScanRound, Total, AdaptiveQuotas, Score, Blocks;
    var c := Stuck(k, m, drain);
    StuckListsTable(c, k, m);
    InitReplayed(c.streams);
    assert Init(m).seen == Blocks(0);
    StuckWarmRound(c, Init(m), 0, k, m);
    var warm := Warm(c);
    var plan := AfterWarmUp(c);
    StuckSecondRound(c, warm, plan, k, m);
  }

  /** The exact termination condition: m indexes over one table and k requested rows can never make
      the adaptive executor spin if and only if m <= 2k. */
  lemma NeverStallsIff(k: nat, m: nat, drain: seq<Hit> -> seq<Hit>)
    requires 0 < k && 0 < m < 0x1_0000_0000 && Drains(drain)
    ensures m <= 2 * k
       <==> forall c :: Valid(c) && ListTable(c.streams) && c.policy == Adaptive(k, drain) && c.Cols() == m ==>
              !Run(c).Stalled?
  {
    if m <= 2 * k {
      forall c | Valid(c) && c.policy == Adaptive(k, drain) && c.Cols() == m
        ensures !Run(c).Stalled?
      {
        RunNeverStalls(c, Init(c.Cols()), First);
      }
    } else {
      StuckStalls(k, m, drain);
    }
  }
}
