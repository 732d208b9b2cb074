/** From the index to the answer: labels packed when an index is built, unpacked by the ordered index
    scans, ranked, deduplicated and reduced to the k best rows by the executor. */
module Pipeline {
  import opened RowIdentity
  import opened Ranking
  import opened Scans
  import opened Schedulers
  import opened Runs
  import opened Stopping
  import opened Executor
  import opened IndexScan

  /** The rank score of a row depends on the row only. */
  type Rank = ItemPointer -> real

  /** The rows that a result iterator stands for, in its order. */
  function StreamOf(results: seq<Result>, rank: Rank): (rows: seq<Row>)
    ensures |rows| == |results|
  {
    seq(|results|, j requires 0 <= j < |results| =>
      var tid := DecodeLabel(results[j].number); Row(tid, rank(tid)))
  }

  function StreamsOf(indexes: seq<seq<Result>>, rank: Rank): (streams: Streams)
    ensures |streams| == |indexes|
  {
    seq(|indexes|, i requires 0 <= i < |indexes| => StreamOf(indexes[i], rank))
  }

  function TableRows(table: set<ItemPointer>, rank: Rank): set<Row> {
    set tid | tid in table :: Row(tid, rank(tid))
  }

  /** What iterating over an index yields: labels of rows of the table. */
  ghost predicate LabelsOf(results: seq<Result>, table: set<ItemPointer>) {
    forall j :: 0 <= j < |results| ==> exists tid :: tid in table && results[j].number == PackLabel(tid)
  }

  /** ... and, if the search reaches everything, the labels of all of them. */
  ghost predicate AllLabelsOf(results: seq<Result>, table: set<ItemPointer>) {
    forall tid :: tid in table ==> exists j :: 0 <= j < |results| && results[j].number == PackLabel(tid)
  }

  lemma {:induction false} CountingUp(s: seq<nat>, n: nat)
    requires forall t, u :: 0 <= t < u < |s| ==> s[t] < s[u]
    requires forall j: nat :: j in s <==> j < n
    ensures |s| == n && forall t :: 0 <= t < n ==> s[t] == t
  {
    assert |s| > 0 ==> s[0] in s;
    if n > 0 {
      assert n - 1 in s;
      var last := |s| - 1;
      var t :| 0 <= t < |s| && s[t] == n - 1;
      assert s[last] in s;
      assert t == last;
      var front := s[..last];
      forall j: nat
        ensures j in front <==> j < n - 1
      {
        if j < n - 1 {
          assert j in s;
          var u :| 0 <= u < |s| && s[u] == j;
          assert front[u] == j;
        }
      }
      CountingUp(front, n - 1);
    }
  }

  /** All requests of an ordered scan of an index: its rows, each with its rank score. */
  method ReadIndex(results: seq<Result>, rank: Rank) returns (rows: seq<Row>)
    ensures rows == StreamOf(results, rank)
  {
    var scan := new Scan.Hnsw(OrderBy, results);
    var tuples, indices := scan.ScanAll();
    CountingUp(indices, |results|);
    rows := seq(|tuples|, j requires 0 <= j < |tuples| => Row(tuples[j].0, rank(tuples[j].0)));
  }

  method ReadIndexes(indexes: seq<seq<Result>>, rank: Rank) returns (streams: Streams)
    ensures streams == StreamsOf(indexes, rank)
  {
    streams := [];
    for i := 0 to |indexes|
      invariant |streams| == i
      invariant forall j :: 0 <= j < i ==> streams[j] == StreamOf(indexes[j], rank)
    {
      var rows := ReadIndex(indexes[i], rank);
      streams := streams + [rows];
    }
  }

  /** Unpacking and ranking the labels of the table gives the rows of the table. */
  lemma StreamsListTable(indexes: seq<seq<Result>>, rank: Rank, table: set<ItemPointer>, i: nat)
    requires i < |indexes| && AllLabelsOf(indexes[i], table)
    requires forall j :: 0 <= j < |indexes| ==> LabelsOf(indexes[j], table)
    ensures IsTable(TableRows(table, rank))
    ensures ReadsWhole(StreamsOf(indexes, rank), TableRows(table, rank), i)
  {
    var streams, rows := StreamsOf(indexes, rank), TableRows(table, rank);
    forall j, r: Row | 0 <= j < |streams| && r in streams[j]
      ensures r in rows
    {
      var p :| 0 <= p < |indexes[j]| && StreamOf(indexes[j], rank)[p] == r;
      assert LabelsOf(indexes[j], table);
      var tid :| tid in table && indexes[j][p].number == PackLabel(tid);
      assert DecodeLabel(PackLabel(tid)) == tid;
    }
    forall r: Row | r in rows
      ensures r in streams[i]
    {
      var tid :| tid in table && r == Row(tid, rank(tid));
      var p :| 0 <= p < |indexes[i]| && indexes[i][p].number == PackLabel(tid);
      assert DecodeLabel(PackLabel(tid)) == tid;
      assert streams[i][p] == r;
    }
  }

  /** What the executor runs on, with the defaults for ef and termCond filled in. */
  function ConfigOver(indexes: seq<seq<Result>>, rank: Rank, k: nat, ef: nat, termCond: nat, policy: Policy): Config {
    Config(StreamsOf(indexes, rank), EffectiveEf(k, ef), EffectiveTermCond(termCond), policy)
  }

  /** The whole way: if some index whose search reaches the whole table runs out, the rows returned
      have the k best rank scores of the table. */
  method TopkOverIndexes(indexes: seq<seq<Result>>, rank: Rank, k: nat, ef: nat, termCond: nat, policy: Policy)
    returns (rows: seq<Row>)
    requires |indexes| > 0 && (policy.Adaptive? ==> policy.k == k)
    requires k > 0 ==> Runnable(ConfigOver(indexes, rank, k, ef, termCond, policy))
    ensures k == 0 ==> rows == []
    ensures k > 0 ==> KBest(rows, Rows(Run(ConfigOver(indexes, rank, k, ef, termCond, policy)).s.seen), k)
    ensures forall table, i ::
              && k > 0 && 0 <= i < |indexes|
              && i in Run(ConfigOver(indexes, rank, k, ef, termCond, policy)).s.ended
              && (forall j :: 0 <= j < |indexes| ==> LabelsOf(indexes[j], table)) && AllLabelsOf(indexes[i], table) ==>
                Exact(rows, TableRows(table, rank), k)
  {
    hide KBest, Run, Exact, Replay;
    var streams := ReadIndexes(indexes, rank);
    ghost var c;
    rows, c := Topk(streams, k, ef, termCond, policy);
    forall table, i |
      && k > 0 && 0 <= i < |indexes| && i in Run(c).s.ended
      && (forall j :: 0 <= j < |indexes| ==> LabelsOf(indexes[j], table)) && AllLabelsOf(indexes[i], table)
      ensures Exact(rows, TableRows(table, rank), k)
    {
      StreamsListTable(indexes, rank, table, i);
      ExactOnExhaustion(c, TableRows(table, rank), i, k, rows);
    }
  }
}
