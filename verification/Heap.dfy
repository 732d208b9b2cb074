/** The bounded max-heap of the executor: a bag of rows of which the worst can be looked up and
    removed. Which of several worst rows comes out is left open. */
module Heap {
  import opened Ranking
  import opened Scans

  ghost predicate IsWorst(top: Row, pq: multiset<Row>) {
    top in pq && forall r :: r in pq ==> r.score <= top.score
  }

  lemma {:induction false} WorstExists(pq: multiset<Row>)
    requires |pq| > 0
    ensures exists top :: IsWorst(top, pq)
    decreases |pq|
  {
    var x :| x in pq;
    var rest := pq - multiset{x};
    assert pq == rest + multiset{x};
    if |rest| == 0 {
      assert rest == multiset{};
      assert IsWorst(x, pq);
    } else {
      WorstExists(rest);
      var y :| IsWorst(y, rest);
      if x.score <= y.score {
        assert IsWorst(y, pq);
      } else {
        assert IsWorst(x, pq);
      }
    }
  }

  method Top(pq: multiset<Row>) returns (top: Row)
    requires |pq| > 0
    ensures IsWorst(top, pq)
  {
    assert exists t :: t in pq && forall r :: r in pq ==> r.score <= t.score by {
      WorstExists(pq);
      var t :| IsWorst(t, pq);
    }
    top :| top in pq && forall r :: r in pq ==> r.score <= top.score;
  }

  function Members(pq: multiset<Row>): set<Row> {
    set r | r in pq
  }

  /** The heap holds min(ef, |seen|) distinct seen rows, and no seen row outside it scores better
      than a row inside it. */
  ghost predicate HoldsBest(pq: multiset<Row>, ef: nat, seen: seq<Hit>) {
    && |pq| == Min(ef, |seen|)
    && pq == multiset(Members(pq))
    && Members(pq) <= Rows(seen)
    && forall r, x :: r in pq && x in Rows(seen) && x !in pq ==> r.score <= x.score
  }

  /** The heap's test has a heap-free meaning. */
  lemma HeapDecides(pq: multiset<Row>, ef: nat, seen: seq<Hit>, x: real, top: Row)
    requires HoldsBest(pq, ef, seen) && |pq| == ef && IsWorst(top, pq)
    ensures top.score > x <==> !Rejected(ef, seen, x)
  {
    var s := Members(pq);
    assert |s| == ef;
    if top.score > x {
      forall r | r in NoWorse(seen, x) ensures r in s - {top} {
        assert r in Rows(seen);
      }
      SubsetSize(NoWorse(seen, x), s - {top});
    } else {
      forall r | r in s ensures r in NoWorse(seen, x) {
        assert r in Rows(seen);
      }
      SubsetSize(s, NoWorse(seen, x));
    }
  }

  lemma RoomDecides(pq: multiset<Row>, ef: nat, seen: seq<Hit>, x: real)
    requires HoldsBest(pq, ef, seen) && |pq| < ef
    ensures !Rejected(ef, seen, x)
  {
    NoWorseSize(seen, x);
  }

  lemma RowsStep(seen: seq<Hit>, h: Hit)
    ensures Rows(seen + [h]) == Rows(seen) + {h.row}
  {
    assert forall g :: g in seen + [h] <==> g in seen || g == h;
  }

  lemma AcceptWithRoom(pq: multiset<Row>, ef: nat, seen: seq<Hit>, h: Hit)
    requires HoldsBest(pq, ef, seen) && |pq| < ef
    requires DistinctTids(seen) && h.row !in Rows(seen)
    ensures HoldsBest(pq + multiset{h.row}, ef, seen + [h])
  {
    RowsStep(seen, h);
    RowsSize(seen);
    SubsetSize(Members(pq), Rows(seen));
    assert Members(pq + multiset{h.row}) == Members(pq) + {h.row};
  }

  lemma AcceptInPlaceOfWorst(pq: multiset<Row>, ef: nat, seen: seq<Hit>, h: Hit, top: Row)
    requires HoldsBest(pq, ef, seen) && |pq| == ef && IsWorst(top, pq)
    requires h.row !in Rows(seen) && h.row.score < top.score
    ensures HoldsBest(pq - multiset{top} + multiset{h.row}, ef, seen + [h])
  {
    RowsStep(seen, h);
    var out := pq - multiset{top} + multiset{h.row};
    assert pq[top] == 1 && pq[h.row] == 0;
    assert Members(out) == Members(pq) - {top} + {h.row};
    assert forall r :: r in out ==> r.score <= top.score;
  }

  lemma RejectKeeps(pq: multiset<Row>, ef: nat, seen: seq<Hit>, h: Hit, top: Row)
    requires HoldsBest(pq, ef, seen) && |pq| == ef && IsWorst(top, pq)
    requires top.score <= h.row.score
    ensures HoldsBest(pq, ef, seen + [h])
  {
    RowsStep(seen, h);
  }

  ghost predicate Descending(rows: seq<Row>) {
    forall i, j :: 0 <= i < j < |rows| ==> rows[i].score >= rows[j].score
  }

  /** The rows drained so far are in order, and none scores better than a row still in the heap. */
  ghost predicate Above(drained: seq<Row>, pq: multiset<Row>) {
    && Descending(drained)
    && forall i, r :: 0 <= i < |drained| && r in pq ==> drained[i].score >= r.score
  }

  lemma AboveNone(pq: multiset<Row>)
    ensures Above([], pq)
  {
  }

  lemma AboveDescends(drained: seq<Row>, pq: multiset<Row>)
    requires Above(drained, pq)
    ensures Descending(drained)
  {
  }

  lemma AboveStep(drained: seq<Row>, pq: multiset<Row>, top: Row)
    requires Above(drained, pq) && IsWorst(top, pq)
    ensures top in pq
    ensures Above(drained + [top], pq - multiset{top})
    ensures pq - multiset{top} + multiset(drained + [top]) == pq + multiset(drained)
  {
    assert multiset(drained + [top]) == multiset(drained) + multiset{top};
  }

  /** Rows handed out worst last, on top of a stack, are the best rows, best first. */
  function Reverse(rows: seq<Row>): (out: seq<Row>)
    ensures |out| == |rows|
    ensures forall i :: 0 <= i < |rows| ==> out[i] == rows[|rows| - 1 - i]
  {
    seq(|rows|, i requires 0 <= i < |rows| => rows[|rows| - 1 - i])
  }

  lemma {:induction false} ReverseBag(rows: seq<Row>)
    ensures multiset(Reverse(rows)) == multiset(rows)
  {
    if rows != [] {
      var n := |rows| - 1;
      ReverseBag(rows[..n]);
      assert rows == rows[..n] + [rows[n]];
      assert Reverse(rows) == [rows[n]] + Reverse(rows[..n]);
    }
  }

  lemma {:induction false} BagOfDistinct(rows: seq<Row>)
    requires forall r :: multiset(rows)[r] <= 1
    ensures Distinct(rows)
  {
    if rows != [] {
      var n := |rows| - 1;
      var before := rows[..n];
      assert rows == before + [rows[n]];
      assert multiset(rows) == multiset(before) + multiset{rows[n]};
      assert forall r :: multiset(before)[r] <= multiset(rows)[r];
      assert multiset(rows)[rows[n]] <= 1;
      BagOfDistinct(before);
      forall i, j | 0 <= i < j < |rows|
        ensures rows[i] != rows[j]
      {
        assert rows[i] == before[i] && before[i] in before;
      }
    }
  }

  /** The drained heap is the best-first list of the ef best rows, and its first k entries are
      the k best. */
  lemma DrainedIsBest(pq: multiset<Row>, ef: nat, seen: seq<Hit>, stack: seq<Row>)
    requires HoldsBest(pq, ef, seen) && DistinctTids(seen)
    requires multiset(stack) == pq
    requires Descending(stack)
    ensures KBest(Reverse(stack), Rows(seen), ef)
  {
    var ans := Reverse(stack);
    ReverseBag(stack);
    RowsSize(seen);
    assert |ans| == |multiset(ans)| == |pq|;
    BagOfDistinct(ans);
    forall r
      ensures r in ans <==> r in pq
    {
      assert r in ans <==> r in multiset(ans);
    }
  }
}
