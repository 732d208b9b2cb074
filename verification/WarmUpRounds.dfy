/** The warm-up round of the adaptive executor in terms of its streams, and two ways of reading a
    column whose effect is known beforehand: nothing but duplicates, and nothing but new rows. */
module WarmUpRounds {
  import opened RowIdentity
  import opened Ranking
  import opened Scans
  import opened Schedulers
  import opened Runs
  import opened AdaptiveRuns

  // ---------- which columns contribute to the warm-up round ----------

  /** Row p of column i has not been read before it in the warm-up round: it occurs neither earlier
      in its column nor among the first 20 rows of a column to the left. */
  predicate NewAt(streams: Streams, i: nat, p: nat)
    requires i < |streams| && p < |streams[i]|
  {
    && (forall q :: 0 <= q < p ==> streams[i][q].tid != streams[i][p].tid)
    && (forall j, q :: 0 <= j < i && 0 <= q < 20 && q < |streams[j]| ==> streams[j][q].tid != streams[i][p].tid)
  }

  /** Among the first 20 rows of column i there is a new one of positive score. */
  predicate Contributes(streams: Streams, i: nat)
    requires i < |streams|
  {
    exists p :: 0 <= p < 20 && p < |streams[i]| && NewAt(streams, i, p) && streams[i][p].score > 0.0
  }

  /** The total score of the new rows among the first p of column i. */
  function NewScore(streams: Streams, i: nat, p: nat): real
    requires i < |streams| && p <= |streams[i]|
  {
    if p == 0 then 0.0
    else NewScore(streams, i, p - 1) + if NewAt(streams, i, p - 1) then streams[i][p - 1].score else 0.0
  }

  ghost predicate NonnegativeRows(streams: Streams) {
    forall i, r :: 0 <= i < |streams| && r in streams[i] ==> r.score >= 0.0
  }

  lemma {:induction false} NewScorePositive(streams: Streams, i: nat, p: nat)
    requires i < |streams| && p <= |streams[i]| && NonnegativeRows(streams)
    ensures NewScore(streams, i, p) >= 0.0
    ensures NewScore(streams, i, p) > 0.0
       <==> exists q :: 0 <= q < p && NewAt(streams, i, q) && streams[i][q].score > 0.0
  {
    hide NewAt;
    if p > 0 {
      NewScorePositive(streams, i, p - 1);
      assert streams[i][p - 1] in streams[i];
    }
  }

  /** Inside the warm-up round: 20 rows were read from each column left of i, p from column i. */
  ghost predicate Warming(streams: Streams, s: State, i: nat, p: nat) {
    && Replayed(streams, s) && s.ended == {}
    && (forall j :: 0 <= j < |streams| ==> s.pos[j] == if j < i then 20 else if j == i then p else 0)
    && (forall j :: 0 <= j < |streams| ==> Score(s.seen, j) == NewScore(streams, j, s.pos[j]))
  }

  lemma WarmingPull(streams: Streams, s: State, i: nat, p: nat)
    requires Warming(streams, s, i, p) && i < |streams| && p < 20 && !AtEnd(streams, s, i)
    ensures Warming(streams, Pull(streams, s, i), i, p + 1)
  {
    hide Replay, Score;
    var t, row := Pull(streams, s, i), streams[i][p];
    PullReplayed(streams, s, i);
    assert row.tid in Tids(s.seen) <==> !NewAt(streams, i, p) by { NewMeansUnseen(streams, s, i, p); }
    forall j | 0 <= j < |streams|
      ensures Score(t.seen, j) == NewScore(streams, j, t.pos[j])
    {
      AttributionStep(s.seen, Hit(row, i), j);
    }
  }

  lemma NewMeansUnseen(streams: Streams, s: State, i: nat, p: nat)
    requires Warming(streams, s, i, p) && i < |streams| && p < 20 && !AtEnd(streams, s, i)
    ensures streams[i][p].tid in Tids(s.seen) <==> !NewAt(streams, i, p)
  {
    var tid := streams[i][p].tid;
    ReplayedSound(streams, s);
    hide Replay;
    if NewAt(streams, i, p) {
      forall h | h in s.seen
        ensures h.row.tid != tid
      {
        var q :| 0 <= q < s.pos[h.col] && streams[h.col][..s.pos[h.col]][q] == h.row;
        assert streams[h.col][q] == h.row;
      }
    } else if q :| 0 <= q < p && streams[i][q].tid == tid {
      assert q < s.pos[i];
    } else {
      var j, q :| 0 <= j < i && 0 <= q < 20 && q < |streams[j]| && streams[j][q].tid == tid;
      assert q < s.pos[j];
    }
  }

  lemma {:induction false} WarmingColumn(c: Config, s: State, i: nat, p: nat)
    requires Warming(c.streams, s, i, p) && i < c.Cols() && p <= 20
    ensures var t := ScanColumn(c, s, i, 20 - p);
            t.ended == {} && !Dropped(c, t) ==> Warming(c.streams, t, i, 20)
    decreases 20 - p
  {
    hide Replay, Left, Streak, Warming;
    if p < 20 {
      WarmingReplayed(c.streams, s, i, p);
      PullReplayed(c.streams, s, i);
      var t := Pull(c.streams, s, i);
      if !AtEnd(c.streams, s, i) {
        WarmingPull(c.streams, s, i, p);
        WarmingColumn(c, t, i, p + 1);
      }
    }
  }

  lemma WarmingReplayed(streams: Streams, s: State, i: nat, p: nat)
    requires Warming(streams, s, i, p)
    ensures Replayed(streams, s)
  {
  }

  lemma WarmingNext(streams: Streams, s: State, i: nat)
    requires Warming(streams, s, i, 20)
    ensures Warming(streams, s, i + 1, 0)
  {
  }

  lemma {:induction false} WarmingRound(c: Config, s: State, i: nat)
    requires Warming(c.streams, s, i, 0) && i <= c.Cols() && Eager(c)
    ensures Replayed(c.streams, s)
    ensures var t := ScanRound(c, s, i, WarmUp(c.Cols())); !Done(c, t) ==> Warming(c.streams, t, c.Cols(), 0)
    decreases c.Cols() - i
  {
    hide Replay, Left, Streak, Warming, Dropped, ScanColumn;
    WarmingReplayed(c.streams, s, i, 0);
    if i < c.Cols() {
      var t := ScanColumn(c, s, i, 20);
      WarmingColumn(c, s, i, 0);
      if t.ended == {} && !Dropped(c, t) {
        WarmingNext(c.streams, t, i);
        WarmingRound(c, t, i + 1);
      }
    }
  }

  /** After a warm-up round that did not end the run, a column's weight is defined exactly when the
      column contributes. */
  lemma WarmMeaning(c: Config)
    requires Valid(c) && c.policy.Adaptive? && !Done(c, Warm(c))
    ensures forall i :: 0 <= i < c.Cols() ==>
              |c.streams[i]| >= 20 && (Score(Warm(c).seen, i) > 0.0 <==> Contributes(c.streams, i))
  {
    hide Replay, Left, Streak, ScanRound, NewAt;
    InitReplayed(c.streams);
    assert Warming(c.streams, Init(c.Cols()), 0, 0);
    hide Score, NewScore;
    WarmingRound(c, Init(c.Cols()), 0);
    var s := Warm(c);
    forall i | 0 <= i < c.Cols()
      ensures |c.streams[i]| >= 20 && (Score(s.seen, i) > 0.0 <==> Contributes(c.streams, i))
    {
      assert s.pos[i] == 20;
      NewScorePositive(c.streams, i, 20);
    }
  }

  /** The division by zero, stated on the streams: it happens exactly when the warm-up round does not
      end the run and some column has no row of positive score among its first 20 that occurs neither
      earlier in the column nor among the first 20 rows of a column to its left. */
  lemma UndefinedOnStreams(c: Config)
    requires Valid(c) && c.policy.Adaptive?
    ensures Run(c).Undefined?
       <==> !Done(c, Warm(c)) && exists i :: 0 <= i < c.Cols() && !Contributes(c.streams, i)
  {
    hide Replay, Left, Streak, ScanRound, Score, Run, Contributes;
    UndefinedExactly(c);
    if !Done(c, Warm(c)) {
      WarmMeaning(c);
    }
  }

  // ---------- columns whose reading is known beforehand ----------

  /** Reading rows that have all been seen only moves the cursor. */
  lemma {:induction false} DuplicateColumn(c: Config, s: State, i: nat, n: nat)
    requires Replayed(c.streams, s) && i < c.Cols() && !Dropped(c, s)
    requires s.pos[i] + n <= |c.streams[i]|
    requires forall p :: s.pos[i] <= p < s.pos[i] + n ==> c.streams[i][p].tid in Tids(s.seen)
    ensures var t := ScanColumn(c, s, i, n);
            t.seen == s.seen && t.ended == s.ended && t.pos == s.pos[i := s.pos[i] + n]
    decreases n
  {
    hide Replay, Left, Streak, Tids;
    if n > 0 {
      PullReplayed(c.streams, s, i);
      DuplicateColumn(c, Pull(c.streams, s, i), i, n - 1);
    }
  }

  lemma {:induction false} DuplicateRound(c: Config, s: State, i: nat, qs: seq<nat>)
    requires Replayed(c.streams, s) && i <= c.Cols() == |qs| && !Dropped(c, s)
    requires forall j :: i <= j < |qs| ==> s.pos[j] + qs[j] <= |c.streams[j]|
    requires forall j, p :: i <= j < |qs| && 0 <= p < |c.streams[j]| ==> c.streams[j][p].tid in Tids(s.seen)
    ensures var t := ScanRound(c, s, i, qs); t.seen == s.seen && t.ended == s.ended
    decreases c.Cols() - i
  {
    hide Replay, Left, Streak, Tids, ScanColumn;
    if i < c.Cols() {
      DuplicateColumn(c, s, i, qs[i]);
      var t := ScanColumn(c, s, i, qs[i]);
      if !Stops(c, t) {
        DuplicateRound(c, t, i + 1, qs);
      }
    }
  }

  /** The hits that rows [from, from + n) of column i make if all of them are new. */
  function Slice(streams: Streams, i: nat, from: nat, n: nat): (hits: seq<Hit>)
    requires i < |streams| && from + n <= |streams[i]|
    ensures |hits| == n
  {
    seq(n, q requires 0 <= q < n => Hit(streams[i][from + q], i))
  }

  /** Reading new rows while the heap has room: all of them are seen, in order. */
  lemma {:induction false} NewColumn(c: Config, s: State, i: nat, n: nat)
    requires Replayed(c.streams, s) && i < c.Cols() && c.termCond > 0
    requires |s.seen| + n <= c.ef && s.pos[i] + n <= |c.streams[i]|
    requires forall p :: s.pos[i] <= p < s.pos[i] + n ==> c.streams[i][p].tid !in Tids(s.seen)
    requires forall p, q :: s.pos[i] <= p < q < s.pos[i] + n ==> c.streams[i][p].tid != c.streams[i][q].tid
    ensures var t := ScanColumn(c, s, i, n);
            && t.seen == s.seen + Slice(c.streams, i, s.pos[i], n)
            && t.ended == s.ended && t.pos == s.pos[i := s.pos[i] + n]
    decreases n
  {
    hide Replay, Left, Streak;
    var from := s.pos[i];
    if n == 0 {
      assert s.seen + Slice(c.streams, i, from, n) == s.seen;
    } else {
      PullReplayed(c.streams, s, i);
      var t, h := Pull(c.streams, s, i), Hit(c.streams[i][from], i);
      assert t.seen == s.seen + [h];
      assert Tids(t.seen) == Tids(s.seen) + {h.row.tid} by {
        assert forall g :: g in t.seen <==> g in s.seen || g == h;
      }
      RoomLeft(c.ef, t.seen);
      hide Tids;
      NewColumn(c, t, i, n - 1);
      assert Slice(c.streams, i, from, n) == [h] + Slice(c.streams, i, from + 1, n - 1);
      assert s.seen + ([h] + Slice(c.streams, i, from + 1, n - 1)) == t.seen + Slice(c.streams, i, from + 1, n - 1);
    }
  }

  // ---------- streams that index scans can produce ----------

  /** Every column lists the rows of one table, each row once. */
  ghost predicate ListTable(streams: Streams) {
    && (forall i, p, q :: 0 <= i < |streams| && 0 <= p < q < |streams[i]| ==>
          streams[i][p].tid != streams[i][q].tid)
    && (forall i, j :: 0 <= i < j < |streams| ==> Elements(streams[i]) == Elements(streams[j]))
  }

  /** Row n of a block of 20 rows, all of score 1. */
  function Cell(block: Uint32, n: nat): Row
    requires n < 20
  {
    Row(ItemPointer(block, n + 1), 1.0)
  }

  function TwentyRows(): (rows: seq<Row>)
    ensures |rows| == 20
  {
    seq(20, p requires 0 <= p < 20 => Cell(0, p))
  }

  /** Two indexes that list the same 20 rows in the same order. */
  function Twins(k: nat, drain: seq<Hit> -> seq<Hit>): Config {
    Config([TwentyRows(), TwentyRows()], 64, 50, Adaptive(k, drain))
  }

  /** An input on which the executor divides by zero, for every k: the second index contributes
      nothing to the warm-up round. */
  lemma TwinsUndefined(k: nat, drain: seq<Hit> -> seq<Hit>)
    requires 0 < k && Drains(drain)
    ensures Valid(Twins(k, drain)) && ListTable(Twins(k, drain).streams) && Run(Twins(k, drain)).Undefined?
  {
    hide Replay, Left, Streak, Run, Contributes, ScanRound;
    var c := Twins(k, drain);
    assert Valid(c) by { TwinsValid(k, drain); }
    TwinsWarm(k, drain);
    NotContributing(c.streams);
    UndefinedOnStreams(c);
  }

  lemma TwinsValid(k: nat, drain: seq<Hit> -> seq<Hit>)
    requires 0 < k && Drains(drain)
    ensures Valid(Twins(k, drain))
  {
    var streams := Twins(k, drain).streams;
    forall i, r: Row | 0 <= i < |streams| && r in streams[i]
      ensures r.score >= 0.0
    {
      var p :| 0 <= p < 20 && TwentyRows()[p] == r;
    }
  }

  lemma TwinsWarm(k: nat, drain: seq<Hit> -> seq<Hit>)
    ensures !Done(Twins(k, drain), Warm(Twins(k, drain)))
  {
    hide Replay, Left, Streak, TwentyRows;
    var c, init := Twins(k, drain), Init(2);
    InitReplayed(c.streams);
    assert Tids(init.seen) == {};
    TwentyDistinct();
    NewColumn(c, init, 0, 20);
    var s := ScanColumn(c, init, 0, 20);
    RoomLeft(c.ef, s.seen);
    forall p | 0 <= p < 20
      ensures c.streams[1][p].tid in Tids(s.seen)
    {
      assert s.seen[p] in s.seen && s.seen[p].row == c.streams[1][p];
    }
    hide Tids, ScanColumn;
    DuplicateColumn(c, s, 1, 20);
    var t, qs := ScanColumn(c, s, 1, 20), WarmUp(2);
    assert ScanRound(c, t, 2, qs) == t;
    assert ScanRound(c, s, 1, qs) == t;
    assert Warm(c) == t;
  }

  lemma TwentyDistinct()
    ensures forall p, q :: 0 <= p < q < 20 ==> TwentyRows()[p].tid != TwentyRows()[q].tid
  {
  }

  lemma NotContributing(streams: Streams)
    requires streams == [TwentyRows(), TwentyRows()]
    ensures !Contributes(streams, 1)
  {
    forall p | 0 <= p < 20
      ensures !NewAt(streams, 1, p)
    {
      assert streams[0][p].tid == streams[1][p].tid;
    }
  }
}
