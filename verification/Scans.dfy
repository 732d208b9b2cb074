/** Reading rows from several index streams.

    `Pull` is one call of a child scan node followed by the duplicate test. It is all that
    the three schedulers share, and it never looks at the heap. A scan state is determined by
    the sequence of columns read so far (`Replay`), and so is the executor's counter of
    consecutive drops (`Streak`). */
module Scans {
  import opened RowIdentity
  import opened Ranking

  type Streams = seq<seq<Row>>

  /** A first-seen row and the column that produced it. */
  datatype Hit = Hit(row: Row, col: nat)

  /** pos: rows taken from each stream; seen: first-seen rows, in order; log: the column of
      every read, in order; ended: columns that have returned no row. */
  datatype State = State(pos: seq<nat>, seen: seq<Hit>, log: seq<nat>, ended: set<nat>)

  function Init(m: nat): State {
    State(seq(m, _ => 0), [], [], {})
  }

  function Tids(seen: seq<Hit>): set<ItemPointer> {
    set h | h in seen :: h.row.tid
  }

  function Rows(seen: seq<Hit>): set<Row> {
    set h | h in seen :: h.row
  }

  predicate WellFormed(streams: Streams, s: State) {
    && |s.pos| == |streams|
    && forall i :: 0 <= i < |streams| ==> s.pos[i] <= |streams[i]|
  }

  predicate AtEnd(streams: Streams, s: State, i: nat)
    requires WellFormed(streams, s) && i < |streams|
  {
    s.pos[i] == |streams[i]|
  }

  function Pull(streams: Streams, s: State, i: nat): (t: State)
    requires WellFormed(streams, s) && i < |streams|
    ensures WellFormed(streams, t)
  {
    if AtEnd(streams, s, i) then
      s.(log := s.log + [i], ended := s.ended + {i})
    else
      var row := streams[i][s.pos[i]];
      var t := s.(log := s.log + [i], pos := s.pos[i := s.pos[i] + 1]);
      if row.tid in Tids(s.seen) then t else t.(seen := s.seen + [Hit(row, i)])
  }

  predicate Columns(log: seq<nat>, m: nat) {
    forall j :: 0 <= j < |log| ==> log[j] < m
  }

  /** The state after reading the columns of `log` one by one. */
  function Replay(streams: Streams, log: seq<nat>): (s: State)
    requires Columns(log, |streams|)
    ensures WellFormed(streams, s)
    ensures s.log == log
  {
    if log == [] then Init(|streams|)
    else
      var n := |log| - 1;
      assert log == log[..n] + [log[n]];
      Pull(streams, Replay(streams, log[..n]), log[n])
  }

  predicate Replayed(streams: Streams, s: State) {
    Columns(s.log, |streams|) && s == Replay(streams, s.log)
  }

  lemma InitReplayed(streams: Streams)
    ensures Replayed(streams, Init(|streams|))
    ensures forall ef :: Streak(ef, Init(|streams|).seen) == 0
  {
  }

  lemma PullReplayed(streams: Streams, s: State, i: nat)
    requires Replayed(streams, s) && i < |streams|
    ensures Replayed(streams, Pull(streams, s, i))
    ensures Pull(streams, s, i).log == s.log + [i]
  {
    hide Tids, AtEnd;
    var log := s.log + [i];
    assert log[..|s.log|] == s.log && log[|s.log|] == i;
    assert Columns(log, |streams|);
    assert Replay(streams, log) == Pull(streams, Replay(streams, s.log), i);
  }

  /** A longer log has seen at least as much, in the same order. */
  lemma {:induction false} ReplayPrefix(streams: Streams, s: State, t: State)
    requires Replayed(streams, s) && Replayed(streams, t)
    requires s.log <= t.log
    ensures s.seen <= t.seen && s.ended <= t.ended
    decreases |t.log|
  {
    if s.log == t.log {
    } else {
      var n := |t.log| - 1;
      var u := Replay(streams, t.log[..n]);
      assert s.log == t.log[..n][..|s.log|];
      ReplayPrefix(streams, s, u);
    }
  }

  ghost predicate DistinctTids(seen: seq<Hit>) {
    forall a, b :: 0 <= a < b < |seen| ==> seen[a].row.tid != seen[b].row.tid
  }

  /** What holds in every reachable scan state: the seen rows are distinct rows read from the
      column they are attributed to, every row read so far has been seen, and a column has ended
      only if it was read to its end. */
  ghost predicate Sound(streams: Streams, s: State) {
    && WellFormed(streams, s)
    && DistinctTids(s.seen)
    && (forall h :: h in s.seen ==> h.col < |streams| && h.row in streams[h.col][..s.pos[h.col]])
    && (forall i, j :: 0 <= i < |streams| && 0 <= j < s.pos[i] ==> streams[i][j].tid in Tids(s.seen))
    && (forall i :: i in s.ended ==> i < |streams| && s.pos[i] == |streams[i]|)
  }

  lemma PullSound(streams: Streams, s: State, i: nat)
    requires Sound(streams, s) && i < |streams|
    ensures Sound(streams, Pull(streams, s, i))
  {
    var t := Pull(streams, s, i);
    if !AtEnd(streams, s, i) {
      var row := streams[i][s.pos[i]];
      forall h | h in s.seen
        ensures h.row in streams[h.col][..t.pos[h.col]]
      {
        assert streams[h.col][..s.pos[h.col]] <= streams[h.col][..t.pos[h.col]];
      }
      assert streams[i][..t.pos[i]][s.pos[i]] == row;
      if row.tid !in Tids(s.seen) {
        assert forall h :: h in t.seen <==> h in s.seen || h == Hit(row, i);
        assert Tids(t.seen) == Tids(s.seen) + {row.tid} by {
          assert Hit(row, i) in t.seen;
        }
        forall a, b | 0 <= a < b < |t.seen|
          ensures t.seen[a].row.tid != t.seen[b].row.tid
        {
          assert t.seen[a] in s.seen;
        }
      }
    }
  }

  lemma {:induction false} ReplayedSound(streams: Streams, s: State)
    requires Replayed(streams, s)
    ensures Sound(streams, s)
    decreases |s.log|
  {
    if s.log == [] {
    } else {
      var n := |s.log| - 1;
      var u := Replay(streams, s.log[..n]);
      ReplayedSound(streams, u);
      PullSound(streams, u, s.log[n]);
    }
  }

  /** A column's cursor and whether it has ended follow from how often it was read. */
  ghost predicate Counted(streams: Streams, s: State) {
    && WellFormed(streams, s)
    && (forall i :: 0 <= i < |streams| ==> s.pos[i] == Min(multiset(s.log)[i], |streams[i]|))
    && (forall i :: i in s.ended <==> 0 <= i < |streams| && multiset(s.log)[i] > |streams[i]|)
  }

  lemma PullCounted(streams: Streams, s: State, i: nat)
    requires Counted(streams, s) && i < |streams|
    ensures Counted(streams, Pull(streams, s, i))
  {
    hide Tids;
    var t := Pull(streams, s, i);
    forall j: nat
      ensures multiset(t.log)[j] == multiset(s.log)[j] + if j == i then 1 else 0
    {
    }
  }

  lemma {:induction false} ReplayedCounted(streams: Streams, s: State)
    requires Replayed(streams, s)
    ensures Counted(streams, s)
    decreases |s.log|
  {
    if s.log != [] {
      hide Counted, Pull;
      var n := |s.log| - 1;
      var u := Replay(streams, s.log[..n]);
      ReplayedCounted(streams, u);
      PullCounted(streams, u, s.log[n]);
    }
  }

  /** Rows still to be read, from stream i on. */
  function Left(streams: Streams, pos: seq<nat>, i: nat): nat
    requires |pos| == |streams| && i <= |streams|
    requires forall j :: 0 <= j < |streams| ==> pos[j] <= |streams[j]|
    decreases |streams| - i
  {
    if i == |streams| then 0 else |streams[i]| - pos[i] + Left(streams, pos, i + 1)
  }

  function Remaining(streams: Streams, s: State): nat
    requires WellFormed(streams, s)
  {
    Left(streams, s.pos, 0)
  }

  lemma {:induction false} LeftAfterRead(streams: Streams, pos: seq<nat>, c: nat, i: nat)
    requires |pos| == |streams| && i <= |streams| && c < |streams|
    requires forall j :: 0 <= j < |streams| ==> pos[j] <= |streams[j]|
    requires pos[c] < |streams[c]|
    ensures Left(streams, pos[c := pos[c] + 1], i) == Left(streams, pos, i) - (if i <= c then 1 else 0)
    decreases |streams| - i
  {
    if i < |streams| {
      LeftAfterRead(streams, pos, c, i + 1);
    }
  }

  lemma PullProgress(streams: Streams, s: State, i: nat)
    requires WellFormed(streams, s) && i < |streams|
    ensures AtEnd(streams, s, i) ==> i in Pull(streams, s, i).ended
    ensures Remaining(streams, Pull(streams, s, i))
         == Remaining(streams, s) - (if AtEnd(streams, s, i) then 0 else 1)
  {
    if !AtEnd(streams, s, i) {
      LeftAfterRead(streams, s.pos, i, 0);
    }
  }

  /** The rows seen so far whose score is no worse than x. */
  function NoWorse(seen: seq<Hit>, x: real): set<Row> {
    set h | h in seen && h.row.score <= x :: h.row
  }

  lemma {:induction false} NoWorseSize(seen: seq<Hit>, x: real)
    ensures |NoWorse(seen, x)| <= |seen|
  {
    if seen == [] {
      assert NoWorse(seen, x) == {};
    } else {
      var n := |seen| - 1;
      NoWorseSize(seen[..n], x);
      assert NoWorse(seen, x) <= NoWorse(seen[..n], x) + {seen[n].row};
      SubsetSize(NoWorse(seen, x), NoWorse(seen[..n], x) + {seen[n].row});
    }
  }

  /** The heap-free meaning of a drop: a first-seen row is rejected by the heap of the ef best
      rows exactly when ef rows seen before it score no worse. */
  predicate Rejected(ef: nat, seen: seq<Hit>, x: real) {
    |NoWorse(seen, x)| >= ef
  }

  /** The number of consecutive rejections at the end of `seen`. */
  function Streak(ef: nat, seen: seq<Hit>): nat {
    if seen == [] then 0
    else
      var n := |seen| - 1;
      if Rejected(ef, seen[..n], seen[n].row.score) then Streak(ef, seen[..n]) + 1 else 0
  }

  lemma StreakStep(ef: nat, seen: seq<Hit>, h: Hit)
    ensures Streak(ef, seen + [h]) == if Rejected(ef, seen, h.row.score) then Streak(ef, seen) + 1 else 0
  {
    assert (seen + [h])[..|seen|] == seen;
  }

  /** A larger heap drops fewer rows: the streak on the same rows is never longer. */
  lemma {:induction false} StreakShrinks(ef1: nat, ef2: nat, seen: seq<Hit>)
    requires ef1 <= ef2
    ensures Streak(ef1, seen) >= Streak(ef2, seen)
  {
    if seen != [] {
      StreakShrinks(ef1, ef2, seen[..|seen| - 1]);
    }
  }

  /** A heap that has not been filled rejects nothing. */
  lemma {:induction false} RoomLeft(ef: nat, seen: seq<Hit>)
    requires |seen| <= ef
    ensures Streak(ef, seen) == 0
  {
    if seen != [] {
      var n := |seen| - 1;
      NoWorseSize(seen[..n], seen[n].row.score);
    }
  }

  /** The row seen as number j had at least ef rows before it that score no worse. */
  predicate RejectedAt(ef: nat, seen: seq<Hit>, j: nat)
    requires j < |seen|
  {
    Rejected(ef, seen[..j], seen[j].row.score)
  }

  lemma RejectedBefore(ef: nat, seen: seq<Hit>, n: nat, j: nat)
    requires j < n <= |seen|
    ensures RejectedAt(ef, seen[..n], j) == RejectedAt(ef, seen, j)
  {
    assert seen[..n][..j] == seen[..j];
  }

  /** The rows counted by a streak are the last ones seen, and each was rejected; the row before
      the streak, if any, was accepted. */
  lemma {:induction false} StreakMeaning(ef: nat, seen: seq<Hit>)
    ensures Streak(ef, seen) <= |seen|
    ensures forall j :: |seen| - Streak(ef, seen) <= j < |seen| ==> RejectedAt(ef, seen, j)
    ensures Streak(ef, seen) < |seen| ==> !RejectedAt(ef, seen, |seen| - Streak(ef, seen) - 1)
  {
    if seen != [] {
      var n := |seen| - 1;
      StreakMeaning(ef, seen[..n]);
      assert RejectedAt(ef, seen, n) == Rejected(ef, seen[..n], seen[n].row.score);
      hide RejectedAt;
      forall j | 0 <= j < n
        ensures RejectedAt(ef, seen[..n], j) == RejectedAt(ef, seen, j)
      {
        RejectedBefore(ef, seen, n, j);
      }
    }
  }

  /** The rows before the j-th, counted by their place, that score no worse than it. */
  function NoWorseBefore(seen: seq<Hit>, j: nat): set<nat>
    requires j < |seen|
  {
    set i: nat | i < j && seen[i].row.score <= seen[j].row.score
  }

  function Places(seen: seq<Hit>, x: real): set<nat> {
    set i: nat | i < |seen| && seen[i].row.score <= x
  }

  lemma {:induction false} NoWorseCounts(seen: seq<Hit>, x: real)
    requires DistinctTids(seen)
    ensures |NoWorse(seen, x)| == |Places(seen, x)|
  {
    if seen == [] {
      assert NoWorse(seen, x) == {} && Places(seen, x) == {};
    } else {
      var n := |seen| - 1;
      NoWorseCounts(seen[..n], x);
      PlacesStep(seen[..n], seen[n], x);
      NoWorseStep(seen[..n], seen[n], x);
      assert seen == seen[..n] + [seen[n]];
    }
  }

  lemma PlacesStep(before: seq<Hit>, h: Hit, x: real)
    ensures |Places(before + [h], x)| == |Places(before, x)| + if h.row.score <= x then 1 else 0
  {
    var n := |before|;
    assert Places(before + [h], x) == Places(before, x) + if h.row.score <= x then {n} else {};
  }

  lemma NoWorseStep(before: seq<Hit>, h: Hit, x: real)
    requires h.row.tid !in Tids(before)
    ensures |NoWorse(before + [h], x)| == |NoWorse(before, x)| + if h.row.score <= x then 1 else 0
  {
    var seen, fewer := before + [h], NoWorse(before, x);
    assert seen[|before|] == h;
    if h.row.score <= x {
      assert h.row !in fewer;
      assert NoWorse(seen, x) == fewer + {h.row};
    } else {
      assert NoWorse(seen, x) == fewer;
    }
  }

  /** A rejected row has ef rows before it that score no worse, counted one by one. */
  lemma RejectedMeaning(ef: nat, seen: seq<Hit>, j: nat)
    requires DistinctTids(seen) && j < |seen|
    ensures RejectedAt(ef, seen, j) <==> |NoWorseBefore(seen, j)| >= ef
  {
    var x := seen[j].row.score;
    NoWorseCounts(seen[..j], x);
    assert NoWorseBefore(seen, j) == Places(seen[..j], x);
  }

  lemma PullStreak(streams: Streams, s: State, i: nat, ef: nat)
    requires WellFormed(streams, s) && i < |streams|
    ensures var t := Pull(streams, s, i);
            (t.seen == s.seen || Streak(ef, t.seen) <= Streak(ef, s.seen) + 1)
  {
    if !AtEnd(streams, s, i) {
      StreakStep(ef, s.seen, Hit(streams[i][s.pos[i]], i));
    }
  }

  /** Distinct hits are distinct rows, so sets of rows count hits. */
  lemma {:induction false} RowsSize(seen: seq<Hit>)
    requires DistinctTids(seen)
    ensures |Rows(seen)| == |seen|
  {
    if seen != [] {
      var n := |seen| - 1;
      var before := seen[..n];
      RowsSize(before);
      assert Rows(seen) == Rows(before) + {seen[n].row} by {
        assert forall h :: h in seen <==> h in before || h == seen[n];
      }
      assert seen[n].row !in Rows(before);
    }
  }
}
