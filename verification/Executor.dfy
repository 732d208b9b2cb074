/** The executor node itself: the state that execFagins updates in place, its loops under the
    three schedulers, and the set-returning function that hands out one row per call. */
module Executor {
  import opened RowIdentity
  import opened Ranking
  import opened Scans
  import opened Arithmetic
  import opened Schedulers
  import opened Runs
  import opened Heap
  import opened QuotaMethods
  import AdaptiveRuns

  /** How one read of a column ended. */
  datatype Read = EndOfColumn | Duplicate | FirstSeen(row: Row)

  function Keys(seen: seq<Hit>): set<Uint64> {
    set h | h in seen :: CastToUint64(h.row.tid)
  }

  lemma KeysDecide(seen: seq<Hit>, tid: ItemPointer)
    ensures CastToUint64(tid) in Keys(seen) <==> tid in Tids(seen)
  {
    if CastToUint64(tid) in Keys(seen) {
      var h :| h in seen && CastToUint64(h.row.tid) == CastToUint64(tid);
      assert h.row.tid == tid;
    }
  }

  lemma KeysStep(seen: seq<Hit>, h: Hit)
    ensures Keys(seen + [h]) == Keys(seen) + {CastToUint64(h.row.tid)}
    ensures h.row.tid !in Tids(seen) ==> h.row !in Rows(seen)
  {
    assert forall g :: g in seen + [h] <==> g in seen || g == h;
  }

  lemma SeenDistinct(streams: Streams, s: State)
    requires Replayed(streams, s)
    ensures DistinctTids(s.seen)
  {
    ReplayedSound(streams, s);
  }

  class FaginsState {
    const children: Streams
    const topk: nat
    const ef: nat
    const termCond: nat
    var pos: seq<nat>              // cursor of each child scan
    var finish: bool
    var procPq: multiset<Row>
    var seenSet: set<Uint64>
    var consecutiveDrops: nat      // a local of the first call
    var resultStack: seq<Row>      // its top is its last element
    ghost var scan: State          // the scan so far
    ghost var answer: seq<Row>     // all rows to hand out, best first
    ghost var given: nat           // how many of them have been handed out

    constructor (children: Streams, topk: nat, ef: nat, termCond: nat)
      ensures this.children == children && this.topk == topk && this.ef == ef && this.termCond == termCond
      ensures Fresh()
    {
      this.children, this.topk, this.ef, this.termCond := children, topk, ef, termCond;
      pos, finish, procPq, seenSet := seq(|children|, _ => 0), false, multiset{}, {};
      consecutiveDrops, resultStack := 0, [];
      scan, answer, given := Init(|children|), [], 0;
      new;
      InitReplayed(children);
      assert Members(procPq) == {};
    }

    /** Holds after every read: the heap holds the ef best of the rows seen so far, the seen set
        holds their keys, and the counter is the streak of rejections. */
    ghost predicate Reading()
      reads this
    {
      && Replayed(children, scan)
      && pos == scan.pos
      && seenSet == Keys(scan.seen)
      && consecutiveDrops == Streak(ef, scan.seen)
      && HoldsBest(procPq, ef, scan.seen)
      && resultStack == []
    }

    /** The next row of a child scan, or none when it is exhausted. */
    method ExecProcNode(i: nat) returns (slot: Option<Row>)
      requires WellFormed(children, scan) && pos == scan.pos && i < |children|
      modifies this`pos
      ensures AtEnd(children, scan, i) ==> slot == None && pos == old(pos)
      ensures !AtEnd(children, scan, i) ==>
                slot == Some(children[i][old(pos)[i]]) && pos == old(pos)[i := old(pos)[i] + 1]
    {
      if pos[i] < |children[i]| {
        slot := Some(children[i][pos[i]]);
        pos := pos[i := pos[i] + 1];
      } else {
        slot := None;
      }
    }

    /** Offer a first-seen row to the heap. */
    method Offer(row: Row, ghost h: Hit, ghost before: seq<Hit>)
      requires ef > 0 && HoldsBest(procPq, ef, before) && DistinctTids(before)
      requires h.row == row && row !in Rows(before)
      requires consecutiveDrops == Streak(ef, before)
      modifies this`procPq, this`consecutiveDrops
      ensures HoldsBest(procPq, ef, before + [h])
      ensures consecutiveDrops == Streak(ef, before + [h])
    {
      StreakStep(ef, before, h);
      consecutiveDrops := consecutiveDrops + 1;
      if |procPq| < ef {
        RoomDecides(procPq, ef, before, row.score);
        AcceptWithRoom(procPq, ef, before, h);
        procPq := procPq + multiset{row};
        consecutiveDrops := 0;
      } else {
        var top := Top(procPq);
        HeapDecides(procPq, ef, before, row.score, top);
        if top.score > row.score {
          AcceptInPlaceOfWorst(procPq, ef, before, h, top);
          procPq := procPq - multiset{top};
          procPq := procPq + multiset{row};
          consecutiveDrops := 0;
        } else {
          RejectKeeps(procPq, ef, before, h, top);
        }
      }
    }

    /** The body shared by all schedulers: read column i, drop a row seen before, offer a new
        one to the heap. */
    method ReadColumn(i: nat) returns (r: Read)
      requires Reading() && ef > 0 && i < |children|
      modifies this`pos, this`finish, this`procPq, this`seenSet, this`consecutiveDrops, this`scan
      ensures Reading()
      ensures scan == Pull(children, old(scan), i)
      ensures r.EndOfColumn? <==> AtEnd(children, old(scan), i)
      ensures finish == (old(finish) || r.EndOfColumn?)
      ensures !r.FirstSeen? ==> scan.seen == old(scan.seen)
      ensures r.FirstSeen? ==> scan.seen == old(scan.seen) + [Hit(r.row, i)]
    {
      hide Replay, Streak, HoldsBest, Sound, DistinctTids;
      ghost var s := scan;
      assert DistinctTids(s.seen) by { SeenDistinct(children, s); }
      PullReplayed(children, s, i);
      var slot := ExecProcNode(i);
      scan := Pull(children, s, i);
      match slot {
        case None =>
          finish := true;
          return EndOfColumn;
        case Some(row) =>
          var key := CastToUint64(row.tid);
          KeysDecide(s.seen, row.tid);
          if key in seenSet {
            return Duplicate;
          }
          ghost var h := Hit(row, i);
          KeysStep(s.seen, h);
          seenSet := seenSet + {key};
          Offer(row, h, s.seen);
          return FirstSeen(row);
      }
    }

    ghost function RunOf(policy: Policy): Config {
      Runs.Config(children, ef, termCond, policy)
    }

    // ---------- round robin ----------

    /** One row from each column, unless a column ends. */
    method ReadEachOnce(ghost c: Config)
      requires Reading() && !finish && scan.ended == {} && c == RunOf(RoundRobin) && Valid(c)
      modifies this`pos, this`finish, this`procPq, this`seenSet, this`consecutiveDrops, this`scan
      ensures Reading() && finish == (scan.ended != {})
      ensures scan == ScanRound(c, old(scan), 0, Ones(|children|))
    {
      hide Replay, Streak, Left, HoldsBest, Sound, Keys, AtEnd;
      ghost var qs := Ones(|children|);
      ghost var out := ScanRound(c, scan, 0, qs);
      var i := 0;
      while i < |children|
        invariant i <= |children| && Reading() && !finish && scan.ended == {}
        invariant ScanRound(c, scan, i, qs) == out
      {
        ghost var s := scan;
        var r := ReadColumn(i);
        OneRead(c, s, i);
        if r.EndOfColumn? {
          break;
        }
        i := i + 1;
      }
    }

    method ScanRoundRobin()
      requires Reading() && !finish && scan == Init(|children|) && Valid(RunOf(RoundRobin))
      modifies this`pos, this`finish, this`procPq, this`seenSet, this`consecutiveDrops, this`scan
      ensures Reading() && finish
      ensures Run(RunOf(RoundRobin)) == Finished(scan)
    {
      hide Replay, Streak, Left, Total, HoldsBest, Sound, Keys, ScanRound;
      ghost var c := RunOf(RoundRobin);
      ghost var plan := First;
      InitReplayed(children);
      while !finish
        invariant Reading() && Fits(plan, scan)
        invariant finish == Done(c, scan)
        invariant RunFrom(c, scan, plan) == Run(c)
        decreases !finish, Remaining(children, scan)
      {
        ghost var s := scan;
        ReadEachOnce(c);
        if consecutiveDrops >= termCond {
          finish := true;
        }
        TotalZero(Ones(|children|));
        RoundProgress(c, s, 0, Ones(|children|), 0);
        ReplayPrefix(children, s, scan);
        plan := Next(plan, s, scan);
      }
    }

    // ---------- rounds with quotas ----------

    /** Serve the quota of column i. First-seen rows are pushed on the local queue; while `record`
        is set they are also added to the column's score sum and count. */
    method ServeColumn(ghost c: Config, i: nat, nextRound: array<nat>,
                       scoreList: array<real>, countList: array<nat>, record: bool)
      returns (pushed: seq<Hit>)
      requires Reading() && c == RunOf(c.policy) && Valid(c) && Eager(c)
      requires i < |children| && !Dropped(c, scan) && finish == (scan.ended != {})
      requires nextRound.Length == scoreList.Length == countList.Length == |children|
      requires nextRound != countList
      requires record ==> Recorded(scoreList[..], countList[..], scan.seen)
      modifies this`pos, this`finish, this`procPq, this`seenSet, this`consecutiveDrops, this`scan
      modifies nextRound, scoreList, countList
      ensures Reading() && scan == ScanColumn(c, old(scan), i, old(nextRound[i]))
      ensures finish == (scan.ended != {})
      ensures scan.seen == old(scan.seen) + pushed
      ensures nextRound[..] == old(nextRound[..])[i := nextRound[i]]
      ensures nextRound[i] == 0 || finish || Dropped(c, scan)
      ensures if record then Recorded(scoreList[..], countList[..], scan.seen)
              else scoreList[..] == old(scoreList[..]) && countList[..] == old(countList[..])
    {
      hide Replay, Streak, Left, HoldsBest, Sound, Keys, Pull, Scores, Counts;
      pushed := [];
      ghost var out := ScanColumn(c, scan, i, nextRound[i]);
      while nextRound[i] > 0
        invariant Reading() && !Dropped(c, scan) && finish == (scan.ended != {})
        invariant ScanColumn(c, scan, i, nextRound[i]) == out
        invariant scan.seen == old(scan.seen) + pushed
        invariant nextRound[..] == old(nextRound[..])[i := nextRound[i]]
        invariant if record then Recorded(scoreList[..], countList[..], scan.seen)
                  else scoreList[..] == old(scoreList[..]) && countList[..] == old(countList[..])
        decreases nextRound[i]
      {
        ghost var s := scan;
        PullEnded(children, s, i);
        var r := ReadColumn(i);
        if r.EndOfColumn? {
          break;
        }
        if r.Duplicate? {
          nextRound[i] := nextRound[i] - 1;
          continue;
        }
        pushed := pushed + [Hit(r.row, i)];
        if record {
          RecordStep(scoreList[..], countList[..], s.seen, Hit(r.row, i));
          scoreList[i] := scoreList[i] + r.row.score;
          countList[i] := countList[i] + 1;
        }
        if consecutiveDrops >= termCond {
          break;
        }
        nextRound[i] := nextRound[i] - 1;
      }
    }

    /** Serve all quotas of a round, column by column. A column that ends does not keep the later
        columns of the round from being read. */
    method ServeQuotas(ghost c: Config, nextRound: array<nat>,
                       scoreList: array<real>, countList: array<nat>, record: bool)
      returns (pushed: seq<Hit>)
      requires Reading() && c == RunOf(c.policy) && Valid(c) && Eager(c)
      requires !Dropped(c, scan) && !finish && scan.ended == {}
      requires nextRound.Length == scoreList.Length == countList.Length == |children|
      requires nextRound != countList
      requires record ==> Recorded(scoreList[..], countList[..], scan.seen)
      modifies this`pos, this`finish, this`procPq, this`seenSet, this`consecutiveDrops, this`scan
      modifies nextRound, scoreList, countList
      ensures Reading() && scan == ScanRound(c, old(scan), 0, old(nextRound[..]))
      ensures finish == Done(c, scan)
      ensures scan.seen == old(scan.seen) + pushed
      ensures !finish ==> forall j :: 0 <= j < nextRound.Length ==> nextRound[j] == 0
      ensures if record then Recorded(scoreList[..], countList[..], scan.seen)
              else scoreList[..] == old(scoreList[..]) && countList[..] == old(countList[..])
    {
      hide Replay, Streak, Left, HoldsBest, Sound, Keys, Pull, Recorded, ScanColumn;
      ghost var qs := nextRound[..];
      ghost var out := ScanRound(c, scan, 0, qs);
      pushed := [];
      var i := 0;
      while i < |children|
        invariant i <= |children| && Reading() && !Dropped(c, scan) && finish == (scan.ended != {})
        invariant ScanRound(c, scan, i, qs) == out
        invariant scan.seen == old(scan.seen) + pushed
        invariant forall j :: i <= j < |children| ==> nextRound[j] == qs[j]
        invariant !finish ==> forall j :: 0 <= j < i ==> nextRound[j] == 0
        invariant if record then Recorded(scoreList[..], countList[..], scan.seen)
                  else scoreList[..] == old(scoreList[..]) && countList[..] == old(countList[..])
      {
        ghost var before := nextRound[..];
        ghost var s := scan;
        var more := ServeColumn(c, i, nextRound, scoreList, countList, record);
        assert s.ended <= scan.ended;
        assert forall j :: 0 <= j < |children| && j != i ==> nextRound[..][j] == before[j];
        pushed := pushed + more;
        if consecutiveDrops >= termCond {
          break;
        }
        i := i + 1;
      }
      if consecutiveDrops >= termCond {
        finish := true;
      }
    }

    // ---------- greedy ----------

    method ScanGreedy()
      requires Reading() && !finish && scan == Init(|children|) && Valid(RunOf(Greedy))
      modifies this`pos, this`finish, this`procPq, this`seenSet, this`consecutiveDrops, this`scan
      ensures Reading() && finish
      ensures Run(RunOf(Greedy)) == Finished(scan)
    {
      hide Replay, Streak, Left, Total, HoldsBest, Sound, Keys, ScanRound, GreedyColumn, Recorded, Quotas;
      ghost var c := RunOf(Greedy);
      ghost var plan := First;
      InitReplayed(children);
      var m := |children|;
      var nextRound := new nat[m](_ => 0);
      var scoreList := new real[m](_ => 0.0);
      var countList := new nat[m](_ => 0);
      var first, firstRound := true, true;
      NothingRecorded(scoreList[..], countList[..]);
      while !finish
        invariant Reading() && Fits(plan, scan)
        invariant finish == Done(c, scan)
        invariant RunFrom(c, scan, plan) == Run(c)
        invariant first == plan.First?
        invariant first ==> firstRound && scan.seen == []
        invariant Recorded(scoreList[..], countList[..], if first then [] else scan.seen[..plan.firstEnd])
        decreases !finish, Remaining(children, scan)
      {
        ghost var s := scan;
        if first {
          Fill(nextRound, 20);
          first := false;
          WarmUpQuotas(c, s, nextRound[..]);
        } else {
          LockOn(scoreList, countList, nextRound, scan.seen[..plan.firstEnd]);
          firstRound := false;
          LockedQuotas(c, s, plan, nextRound[..]);
        }
        ghost var qs := nextRound[..];
        TotalZero(qs);
        ghost var j :| 0 <= j < m && qs[j] > 0;
        var _ := ServeQuotas(c, nextRound, scoreList, countList, firstRound);
        RoundProgress(c, s, 0, qs, j);
        assert plan.Later? ==> scan.seen[..plan.firstEnd] == s.seen[..plan.firstEnd];
        assert scan.seen[..|scan.seen|] == scan.seen;
        plan := Next(plan, s, scan);
      }
    }

    // ---------- adaptive ----------

    /** The source divides by the columns' score sums and may spin, so this requires a run that
        does neither; AdaptiveRuns says which runs those are. */
    method ScanAdaptive(drain: seq<Hit> -> seq<Hit>)
      requires Reading() && !finish && scan == Init(|children|) && Valid(RunOf(Adaptive(topk, drain)))
      requires Run(RunOf(Adaptive(topk, drain))).Finished?
      modifies this`pos, this`finish, this`procPq, this`seenSet, this`consecutiveDrops, this`scan
      ensures Reading() && finish
      ensures Run(RunOf(Adaptive(topk, drain))) == Finished(scan)
    {
      hide Replay, Streak, Left, Total, HoldsBest, Sound, Keys, ScanRound, Recorded;
      hide Quotas, AdaptiveQuotas, Nonnegative, Within, Weighted;
      ghost var c := RunOf(Adaptive(topk, drain));
      ghost var plan := First;
      InitReplayed(children);
      var m := |children|;
      var localPq: seq<Hit> := [];
      var nextRound := new nat[m](_ => 0);
      var scoreList := new real[m](_ => 0.0);
      var weightList := new real[m](_ => 0.0);
      var countList := new nat[m](_ => 0);
      var first := true;
      NothingRecorded(scoreList[..], countList[..]);
      while !finish
        invariant Reading() && Fits(plan, scan)
        invariant finish == Done(c, scan)
        invariant RunFrom(c, scan, plan) == Run(c)
        invariant first == plan.First?
        invariant !first ==> localPq == scan.seen[plan.localStart..]
        invariant !finish ==> forall j :: 0 <= j < m ==> nextRound[j] == 0
        invariant Recorded(scoreList[..], countList[..], scan.seen)
        decreases !finish, Remaining(children, scan)
      {
        ghost var s := scan;
        if first {
          Fill(nextRound, 20);
          first := false;
          WarmUpQuotas(c, s, nextRound[..]);
        } else {
          NextQuotas(c, s, plan);
          ShareOut(drain(localPq), topk, scoreList, countList, weightList, nextRound, scan.seen);
        }
        ghost var qs := nextRound[..];
        TotalZero(qs);
        ghost var j :| 0 <= j < m && qs[j] > 0;
        localPq := ServeQuotas(c, nextRound, scoreList, countList, true);
        RoundProgress(c, s, 0, qs, j);
        assert localPq == scan.seen[|s.seen|..];
        plan := Next(plan, s, scan);
      }
    }

    // ---------- handing out the answer ----------

    /** Holds between calls once the scan is over: the stack holds the rest of the answer, the
        best row on top. */
    ghost predicate Serving()
      reads this
    {
      && finish && procPq == multiset{}
      && given <= |answer|
      && resultStack == Reverse(answer[given..])
    }

    ghost predicate Fresh()
      reads this
    {
      Reading() && !finish && scan == Init(|children|) && given == 0
    }

    /** Move the heap to the stack, worst row first. */
    method Drain() returns (ghost drained: seq<Row>)
      modifies this`procPq, this`resultStack
      ensures procPq == multiset{} && resultStack == old(resultStack) + drained
      ensures multiset(drained) == old(procPq)
      ensures Descending(drained)
    {
      hide IsWorst, Above;
      drained := [];
      AboveNone(procPq);
      while |procPq| > 0
        invariant procPq + multiset(drained) == old(procPq)
        invariant resultStack == old(resultStack) + drained
        invariant Above(drained, procPq)
        decreases |procPq|
      {
        var top := Top(procPq);
        AboveStep(drained, procPq, top);
        resultStack := resultStack + [top];
        procPq := procPq - multiset{top};
        drained := drained + [top];
      }
      assert procPq == multiset{};
      AboveDescends(drained, procPq);
    }

    /** What every scheduler leaves behind: the scan of the whole run. */
    method Scan(policy: Policy)
      requires Fresh() && Runnable(RunOf(policy)) && (policy.Adaptive? ==> policy.k == topk)
      modifies this`pos, this`finish, this`procPq, this`seenSet, this`consecutiveDrops, this`scan
      ensures Reading() && finish && Run(RunOf(policy)) == Finished(scan)
    {
      match policy {
        case RoundRobin => ScanRoundRobin();
        case Greedy => ScanGreedy();
        case Adaptive(_, drain) => ScanAdaptive(drain);
      }
    }

    /** The part of a call that the first call does and later calls skip: run the scan and stack
        up the ef best rows seen. */
    method Prepare(policy: Policy)
      requires Fresh() || Serving()
      requires Runnable(RunOf(policy)) && (policy.Adaptive? ==> policy.k == topk)
      modifies this
      ensures Serving() && given == old(given)
      ensures old(finish) ==> answer == old(answer)
      ensures !old(finish) ==> KBest(answer, Rows(Run(RunOf(policy)).s.seen), ef)
    {
      hide Replay, Streak, Left, HoldsBest, Sound, Keys, KBest, Run, DistinctTids, Descending, Valid;
      if !finish {
        Scan(policy);
        SeenDistinct(children, scan);
        ghost var heap := procPq;
        ghost var drained := Drain();
        DrainedIsBest(heap, ef, scan.seen, drained);
        answer := Reverse(drained);
        assert answer[given..] == answer;
        assert resultStack == Reverse(answer[given..]);
      } else {
        ghost var drained := Drain();
        assert drained == [];
      }
    }

    /** One call of the node. The first call runs the scan; every call, the first included, hands
        out the best row not yet given. */
    method ExecFagins(policy: Policy) returns (slot: Option<Row>)
      requires Fresh() || Serving()
      requires Runnable(RunOf(policy)) && (policy.Adaptive? ==> policy.k == topk)
      modifies this
      ensures Serving()
      ensures old(finish) ==> answer == old(answer)
      ensures !old(finish) ==> KBest(answer, Rows(Run(RunOf(policy)).s.seen), ef)
      ensures given == Min(old(given) + 1, |answer|)
      ensures slot == if old(given) < |answer| then Some(answer[old(given)]) else None
    {
      hide KBest, Run;
      Prepare(policy);
      if |resultStack| == 0 {
        return None;
      }
      var n := |resultStack| - 1;
      slot := Some(resultStack[n]);
      resultStack := resultStack[..n];
      assert resultStack == Reverse(answer[given + 1..]);
      given := given + 1;
    }
  }

  /** The runs that end: all of them except those of the adaptive scheduler that divide by zero
      or spin. */
  ghost predicate Runnable(c: Config) {
    Valid(c) && (c.policy.Adaptive? ==> Run(c).Finished?)
  }

  /** Adaptive runs that end: at most 2k columns, and a warm-up round that ends the run or leaves every
      column with a positive score sum. */
  lemma AdaptiveRunnable(c: Config)
    requires Valid(c) && c.policy.Adaptive? && c.Cols() <= 2 * c.policy.k
    ensures Done(c, AdaptiveRuns.Warm(c)) || Weighted(AdaptiveRuns.Warm(c).seen, c.Cols()) ==> Runnable(c)
  {
    AdaptiveRuns.AdaptiveFinishes(c);
  }

  function EffectiveEf(k: nat, ef: nat): (r: nat)
    ensures r > 0 && r >= k
    ensures 0 < ef && k <= ef ==> r == ef
    ensures ef == 0 ==> r == if k <= 64 then 64 else k
    ensures r == k || r == ef || (ef == 0 && r == 64)
  {
    var ef := if ef == 0 then 64 else ef;
    if ef < k then k else ef
  }

  function EffectiveTermCond(termCond: nat): (r: nat)
    ensures r > 0
    ensures termCond > 0 ==> r == termCond
    ensures termCond == 0 ==> r == 50
  {
    if termCond == 0 then 50 else termCond
  }

  /** Successive calls of the set-returning function: one row per call, at most k of them. */
  method CallUntilDone(node: FaginsState, k: nat, policy: Policy) returns (rows: seq<Row>)
    requires node.Fresh() && Runnable(node.RunOf(policy)) && k <= node.ef
    requires policy.Adaptive? ==> policy.k == node.topk
    modifies node
    ensures KBest(rows, Rows(Run(node.RunOf(policy)).s.seen), k)
  {
    hide Replay, Streak, Left, HoldsBest, Sound, Keys, KBest, Run;
    ghost var c := node.RunOf(policy);
    rows := [];
    var callCntr := 0;
    while callCntr < k
      invariant callCntr <= k && |rows| == callCntr
      invariant callCntr == 0 ==> node.Fresh()
      invariant callCntr > 0 ==> node.Serving() && node.given == callCntr && rows == node.answer[..callCntr]
      invariant callCntr > 0 ==> KBest(node.answer, Rows(Run(c).s.seen), node.ef)
    {
      var slot := node.ExecFagins(policy);
      if slot.None? {
        break;
      }
      rows := rows + [slot.value];
      callCntr := callCntr + 1;
    }
    if k == 0 {
      NoneWanted(Rows(Run(c).s.seen));
    } else {
      PrefixIsBest(node.answer, Rows(Run(c).s.seen), node.ef, k);
      assert rows == node.answer[..Min(k, |node.answer|)];
    }
  }

  lemma NoneWanted(rows: set<Row>)
    ensures KBest([], rows, 0)
  {
  }

  /** The topk function: with the parameters it settles on, it returns min(k, |seen|) rows in
      nondecreasing score, the k best of all rows the run has seen. */
  method Topk(streams: Streams, k: nat, ef: nat, termCond: nat, policy: Policy)
    returns (rows: seq<Row>, ghost c: Config)
    requires |streams| > 0 && (policy.Adaptive? ==> policy.k == k)
    requires k > 0 ==> Runnable(Runs.Config(streams, EffectiveEf(k, ef), EffectiveTermCond(termCond), policy))
    ensures c == Runs.Config(streams, EffectiveEf(k, ef), EffectiveTermCond(termCond), policy)
    ensures k == 0 ==> rows == []
    ensures k > 0 ==> KBest(rows, Rows(Run(c).s.seen), k)
  {
    if k == 0 {
      return [], Runs.Config(streams, EffectiveEf(k, ef), EffectiveTermCond(termCond), policy);
    }
    var node := new FaginsState(streams, k, EffectiveEf(k, ef), EffectiveTermCond(termCond));
    c := node.RunOf(policy);
    rows := CallUntilDone(node, k, policy);
  }

  /** The multicol_topk function: its heap is bounded by k itself. */
  method MulticolTopk(streams: Streams, k: nat, termCond: nat) returns (rows: seq<Row>)
    requires |streams| > 0
    ensures k == 0 ==> rows == []
    ensures k > 0 ==>
              var c := Runs.Config(streams, k, EffectiveTermCond(termCond), RoundRobin);
              KBest(rows, Rows(Run(c).s.seen), k)
  {
    if k == 0 {
      return [];
    }
    var node := new FaginsState(streams, k, k, EffectiveTermCond(termCond));
    rows := CallUntilDone(node, k, RoundRobin);
  }

  lemma NothingRecorded(scores: seq<real>, counts: seq<nat>)
    requires forall i :: 0 <= i < |scores| ==> scores[i] == 0.0
    requires forall i :: 0 <= i < |counts| ==> counts[i] == 0
    ensures Recorded(scores, counts, [])
  {
  }

  lemma WarmUpQuotas(c: Config, s: State, qs: seq<nat>)
    requires Valid(c) && Replayed(c.streams, s) && Eager(c)
    requires |qs| == c.Cols() && forall i :: 0 <= i < |qs| ==> qs[i] == 20
    ensures RoundQuotas(c, s, First) == Some(qs)
    ensures Total(qs) > 0
  {
    assert qs == WarmUp(c.Cols());
    TotalZero(qs);
    assert qs[0] > 0;
  }

  lemma LockedQuotas(c: Config, s: State, plan: Plan, qs: seq<nat>)
    requires Valid(c) && Replayed(c.streams, s) && Fits(plan, s) && c.policy.Greedy? && plan.Later?
    requires qs == Locked(GreedyColumn(s.seen[..plan.firstEnd], c.Cols()), c.Cols())
    ensures RoundQuotas(c, s, plan) == Some(qs)
    ensures Total(qs) > 0
  {
    TotalZero(qs);
    assert qs[GreedyColumn(s.seen[..plan.firstEnd], c.Cols())] > 0;
  }

  /** A run that finishes has defined, positive quotas in every later round. */
  lemma NextQuotas(c: Config, s: State, plan: Plan)
    requires Valid(c) && Replayed(c.streams, s) && Fits(plan, s)
    requires c.policy.Adaptive? && plan.Later?
    ensures !Done(c, s) && RunFrom(c, s, plan).Finished? ==>
              && Nonnegative(s.seen) && Weighted(s.seen, c.Cols())
              && var order := c.policy.drain(s.seen[plan.localStart..]);
              && Nonnegative(order) && Within(order, c.Cols())
              && var qs := AdaptiveQuotas(Front(order, c.policy.k), s.seen, c.policy.k, c.Cols());
              RoundQuotas(c, s, plan) == Some(qs) && Total(qs) > 0
  {
    SeenOk(c, s);
    DrainKeeps(c.policy.drain, s.seen[plan.localStart..], c.Cols());
  }

  lemma PullEnded(streams: Streams, s: State, i: nat)
    requires WellFormed(streams, s) && i < |streams|
    ensures Pull(streams, s, i).ended == s.ended + if AtEnd(streams, s, i) then {i} else {}
  {
  }
}
