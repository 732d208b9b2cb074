/** The n smallest of a stream of distances, and counting how many of them are closer than a
    given distance. A max-heap of plain numbers is fully described by its sorted contents. */
module Nearest {

  /** A distance heap: its contents in ascending order; the top is the last one. */
  type Queue = seq<real>

  ghost predicate Ordered(q: seq<real>) {
    forall i, j :: 0 <= i < j < |q| ==> q[i] <= q[j]
  }

  function Push(q: Queue, x: real): (r: Queue)
    ensures |r| == |q| + 1
  {
    if q == [] || q[|q| - 1] <= x then q + [x]
    else Push(q[..|q| - 1], x) + [q[|q| - 1]]
  }

  function Pop(q: Queue): Queue
    requires q != []
  {
    q[..|q| - 1]
  }

  function Top(q: Queue): real
    requires q != []
  {
    q[|q| - 1]
  }

  function Sort(ds: seq<real>): (q: Queue)
    ensures |q| == |ds|
  {
    if ds == [] then [] else Push(Sort(ds[..|ds| - 1]), ds[|ds| - 1])
  }

  predicate Within(d: real, x: real, strict: bool) {
    if strict then d < x else d <= x
  }

  /** How many of the distances are closer than x, or no farther than x. */
  function Closer(ds: seq<real>, x: real, strict: bool): nat {
    if ds == [] then 0
    else Closer(ds[..|ds| - 1], x, strict) + if Within(ds[|ds| - 1], x, strict) then 1 else 0
  }

  lemma {:induction false} PushOrdered(q: Queue, x: real)
    requires Ordered(q)
    ensures Ordered(Push(q, x))
    ensures forall i :: 0 <= i < |q| + 1 ==> Push(q, x)[i] <= x || (q != [] && Push(q, x)[i] <= Top(q))
  {
    if q != [] && Top(q) > x {
      PushOrdered(Pop(q), x);
    }
  }

  lemma {:induction false} PushCloser(q: Queue, y: real, x: real, strict: bool)
    ensures Closer(Push(q, y), x, strict) == Closer(q, x, strict) + if Within(y, x, strict) then 1 else 0
  {
    if q == [] || Top(q) <= y {
      assert (q + [y])[..|q|] == q;
    } else {
      PushCloser(Pop(q), y, x, strict);
      var r := Push(Pop(q), y);
      assert (r + [Top(q)])[..|r|] == r;
    }
  }

  lemma {:induction false} SortCorrect(ds: seq<real>, x: real, strict: bool)
    ensures Ordered(Sort(ds))
    ensures Closer(Sort(ds), x, strict) == Closer(ds, x, strict)
  {
    if ds != [] {
      var before, y := ds[..|ds| - 1], ds[|ds| - 1];
      SortCorrect(before, x, strict);
      PushOrdered(Sort(before), y);
      PushCloser(Sort(before), y, x, strict);
    }
  }

  lemma {:induction false} CloserBound(ds: seq<real>, x: real, strict: bool)
    ensures Closer(ds, x, strict) <= |ds|
    ensures (forall i :: 0 <= i < |ds| ==> !Within(ds[i], x, strict)) ==> Closer(ds, x, strict) == 0
  {
    if ds != [] {
      CloserBound(ds[..|ds| - 1], x, strict);
    }
  }

  /** The places at which such a distance stands. */
  function CloserPlaces(ds: seq<real>, x: real, strict: bool): set<nat> {
    set i: nat | i < |ds| && (ds[i] < x || (!strict && ds[i] == x))
  }

  lemma {:induction false} CloserCounts(ds: seq<real>, x: real, strict: bool)
    ensures Closer(ds, x, strict) == |CloserPlaces(ds, x, strict)|
  {
    if ds == [] {
      assert CloserPlaces(ds, x, strict) == {};
    } else {
      var n := |ds| - 1;
      CloserCounts(ds[..n], x, strict);
      assert CloserPlaces(ds, x, strict)
          == CloserPlaces(ds[..n], x, strict) + if Within(ds[n], x, strict) then {n} else {};
    }
  }

  /** In an ordered list the first j + 1 entries are closer than x exactly when the entry at j is. */
  lemma {:induction false} CloserOrdered(q: Queue, j: nat, x: real, strict: bool)
    requires Ordered(q) && j < |q|
    ensures Within(q[j], x, strict) <==> Closer(q, x, strict) > j
  {
    var n := |q| - 1;
    CloserBound(q[..n], x, strict);
    if j < n {
      CloserOrdered(q[..n], j, x, strict);
    } else if j > 0 {
      CloserOrdered(q[..n], j - 1, x, strict);
    }
  }

  /** The cap smallest distances, in order. */
  function Smallest(ds: seq<real>, cap: nat): (q: Queue)
    ensures |q| == if |ds| < cap then |ds| else cap
  {
    if |ds| < cap then Sort(ds) else Sort(ds)[..cap]
  }

  /** A full heap's top decides how many distances of the whole stream are closer than x. */
  lemma TopDecides(ds: seq<real>, cap: nat, x: real, strict: bool)
    requires cap > 0
    ensures (|Smallest(ds, cap)| == cap && Within(Top(Smallest(ds, cap)), x, strict)) <==> Closer(ds, x, strict) >= cap
  {
    SortCorrect(ds, x, strict);
    CloserBound(ds, x, strict);
    if |ds| >= cap {
      CloserOrdered(Sort(ds), cap - 1, x, strict);
    }
  }

  lemma {:induction false} PushFront(s: Queue, cap: nat, x: real)
    requires Ordered(s) && 0 < cap <= |s| && x <= s[cap - 1]
    ensures Push(s, x)[..cap] == Push(s[..cap - 1], x)
  {
    var n := |s| - 1;
    if s[n] > x {
      if cap <= n {
        PushFront(s[..n], cap, x);
        assert s[..n][..cap - 1] == s[..cap - 1];
      }
    } else {
      assert s[cap - 1] == x;
      assert cap > 1 ==> s[..cap - 1][cap - 2] == s[cap - 2] <= x;
      assert Push(s[..cap - 1], x) == s[..cap - 1] + [x];
    }
  }

  /** One more distance: a heap with room takes it; a full heap replaces its top by it. */
  lemma SmallestStep(ds: seq<real>, cap: nat, x: real)
    requires cap > 0
    ensures var q := Smallest(ds, cap);
            && (|q| < cap ==> Smallest(ds + [x], cap) == Push(q, x))
            && (|q| == cap && x <= Top(q) ==> Smallest(ds + [x], cap) == Push(Pop(q), x))
  {
    var q, s := Smallest(ds, cap), Sort(ds);
    assert (ds + [x])[..|ds|] == ds;
    assert Sort(ds + [x]) == Push(s, x);
    assert Ordered(s) by { SortCorrect(ds, x, true); }
    hide Sort, Push, Ordered;
    if |q| < cap {
      assert Push(s, x)[..|s| + 1] == Push(s, x);
    } else if x <= Top(q) {
      PushFront(s, cap, x);
      assert Pop(q) == s[..cap - 1];
    }
  }
}
