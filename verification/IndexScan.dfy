/** The index scans with relaxed monotonicity: a state machine whose fields survive from one
    tuple request to the next, over an arbitrary stream of (distance, label) results. */
module IndexScan {
  import opened RowIdentity
  import opened Ranking
  import opened Nearest

  datatype Result = Result(dist: real, number: Uint64)

  datatype Key = Range(radius: real) | OrderBy

  /** What differs between the two index types: how many consecutive results out of range end a
      range scan, after how many queued distances a range scan gives up before its first hit, and
      after how many closer results an ordered scan counts as in order. */
  datatype Kind = Kind(distanceThreshold: nat, queueThreshold: Option<nat>, inorderSize: Option<nat>)

  const HNSW: Kind := Kind(3, Some(50), Some(86))
  const SPTAG: Kind := Kind(5, None, None)

  predicate ValidKind(kind: Kind) {
    && kind.distanceThreshold > 0
    && (kind.queueThreshold.Some? ==> kind.queueThreshold.value > 0)
    && (kind.inorderSize.Some? ==> kind.inorderSize.value > 0)
  }

  // ---------- heap-free meaning of a range scan ----------

  /** At least queueThreshold earlier results are no farther than result i. */
  predicate GivesUp(kind: Kind, ds: seq<real>, i: nat)
    requires i < |ds|
  {
    kind.queueThreshold.Some? && Closer(ds[..i], ds[i], false) >= kind.queueThreshold.value
  }

  ghost predicate NoHitBefore(ds: seq<real>, radius: real, i: nat)
    requires i <= |ds|
  {
    forall h :: 0 <= h < i ==> ds[h] > radius
  }

  /** A run of distanceThreshold results out of range that starts at a. */
  ghost predicate RunAt(kind: Kind, ds: seq<real>, radius: real, a: nat) {
    && a + kind.distanceThreshold <= |ds|
    && forall i :: a <= i < a + kind.distanceThreshold ==> ds[i] > radius
  }

  /** The scan is over before it looks at result j: it gave up on a result before the first hit,
      or a full run of results out of range followed a hit. */
  ghost predicate OverBefore(kind: Kind, ds: seq<real>, radius: real, j: nat)
    requires j <= |ds|
  {
    || (exists i :: 0 <= i < j && NoHitBefore(ds, radius, i) && GivesUp(kind, ds, i))
    || (exists a :: 0 <= a <= j - kind.distanceThreshold && RunAt(kind, ds, radius, a) && !NoHitBefore(ds, radius, a))
  }

  /** The results a range scan hands out. */
  ghost predicate Emitted(kind: Kind, ds: seq<real>, radius: real, j: nat) {
    j < |ds| && ds[j] <= radius && !OverBefore(kind, ds, radius, j)
  }

  /** The give-up test never discards the first hit: every earlier result is farther than it. */
  lemma FirstHitKept(kind: Kind, ds: seq<real>, radius: real, j: nat)
    requires ValidKind(kind) && j < |ds| && NoHitBefore(ds, radius, j) && ds[j] <= radius
    ensures !GivesUp(kind, ds, j)
  {
    CloserBound(ds[..j], ds[j], false);
  }

  /** On a stream in order of distance the scan is exact: it returns every row in range. */
  lemma ExactWhenMonotone(kind: Kind, ds: seq<real>, radius: real, j: nat)
    requires ValidKind(kind) && Ordered(ds) && j < |ds|
    ensures Emitted(kind, ds, radius, j) <==> ds[j] <= radius
  {
    if ds[j] <= radius {
      assert forall i :: 0 <= i <= j ==> ds[i] <= radius;
      FirstHitKept(kind, ds, radius, 0);
      assert forall i :: 0 < i <= j ==> !NoHitBefore(ds, radius, i);
      forall a: nat | a < j
        ensures !RunAt(kind, ds, radius, a)
      {
        assert ds[a] <= radius;
      }
    }
  }

  /** One more result leaves the scan going unless it completes a run or fails the give-up test. */
  lemma StillGoing(kind: Kind, ds: seq<real>, radius: real, n: nat, i: nat)
    requires ValidKind(kind) && n < |ds| && !OverBefore(kind, ds, radius, n)
    requires NoHitBefore(ds, radius, n) ==> !GivesUp(kind, ds, n)
    requires || NoHitBefore(ds, radius, n) || ds[n] <= radius
             || (i < n && ds[n - 1 - i] <= radius && i + 1 < kind.distanceThreshold)
    ensures !OverBefore(kind, ds, radius, n + 1)
    ensures NoHitBefore(ds, radius, n + 1) <==> NoHitBefore(ds, radius, n) && ds[n] > radius
  {
    var thr := kind.distanceThreshold;
    assert forall a: nat :: a == n + 1 - thr && RunAt(kind, ds, radius, a) ==> NoHitBefore(ds, radius, a);
  }

  lemma GaveUp(kind: Kind, ds: seq<real>, radius: real, n: nat)
    requires ValidKind(kind) && n < |ds| && NoHitBefore(ds, radius, n) && GivesUp(kind, ds, n)
    ensures forall j :: n <= j ==> !Emitted(kind, ds, radius, j)
  {
    forall j | n <= j < |ds|
      ensures !Emitted(kind, ds, radius, j)
    {
      if j == n && ds[n] <= radius {
        FirstHitKept(kind, ds, radius, n);
      }
    }
  }

  lemma RanOut(kind: Kind, ds: seq<real>, radius: real, n: nat)
    requires kind.distanceThreshold < n <= |ds|
    requires forall i :: n - kind.distanceThreshold <= i < n ==> ds[i] > radius
    requires ds[n - kind.distanceThreshold - 1] <= radius
    ensures forall j :: n <= j ==> !Emitted(kind, ds, radius, j)
  {
    var a := n - kind.distanceThreshold;
    assert RunAt(kind, ds, radius, a) && !NoHitBefore(ds, radius, a);
    forall j | n <= j < |ds|
      ensures !Emitted(kind, ds, radius, j)
    {
      assert a <= j - kind.distanceThreshold;
    }
  }

  // ---------- heap-free meaning of an ordered scan ----------

  /** Result i has at least inorderSize strictly closer predecessors. */
  predicate OutOfTurn(kind: Kind, ds: seq<real>, i: nat)
    requires i < |ds|
  {
    kind.inorderSize.Some? && Closer(ds[..i], ds[i], true) >= kind.inorderSize.value
  }

  ghost predicate InOrderBy(kind: Kind, ds: seq<real>, n: nat)
    requires n <= |ds|
  {
    exists i :: 0 <= i < n && OutOfTurn(kind, ds, i)
  }

  // ---------- the two kinds in numbers ----------

  /** The earlier results that are no farther than result i. */
  function NoFarther(ds: seq<real>, i: nat): set<nat>
    requires i < |ds|
  {
    set h: nat | h < i && ds[h] <= ds[i]
  }

  function Nearer(ds: seq<real>, i: nat): set<nat>
    requires i < |ds|
  {
    set h: nat | h < i && ds[h] < ds[i]
  }

  lemma EarlierCounts(ds: seq<real>, i: nat)
    requires i < |ds|
    ensures Closer(ds[..i], ds[i], false) == |NoFarther(ds, i)|
    ensures Closer(ds[..i], ds[i], true) == |Nearer(ds, i)|
  {
    CloserCounts(ds[..i], ds[i], false);
    CloserCounts(ds[..i], ds[i], true);
    assert NoFarther(ds, i) == CloserPlaces(ds[..i], ds[i], false);
    assert Nearer(ds, i) == CloserPlaces(ds[..i], ds[i], true);
  }

  /** n results in a row that are out of range. */
  ghost predicate OutOfRange(ds: seq<real>, radius: real, a: nat, n: nat) {
    a + n <= |ds| && forall i :: a <= i < a + n ==> ds[i] > radius
  }

  /** A range scan of an HNSW index returns the results in range up to the end of the scan: three results
      in a row out of range after one in range, or, before any in range, a result with 50 earlier ones no
      farther. */
  lemma HnswReturns(ds: seq<real>, radius: real, j: nat)
    requires j < |ds|
    ensures Emitted(HNSW, ds, radius, j) <==>
              && ds[j] <= radius
              && (forall a :: 0 <= a <= j - 3 && OutOfRange(ds, radius, a, 3) ==> NoHitBefore(ds, radius, a))
              && (forall i :: 0 <= i < j && |NoFarther(ds, i)| >= 50 ==> !NoHitBefore(ds, radius, i))
  {
    forall i | 0 <= i < j
      ensures GivesUp(HNSW, ds, i) <==> |NoFarther(ds, i)| >= 50
    {
      EarlierCounts(ds, i);
    }
    assert forall a: nat :: RunAt(HNSW, ds, radius, a) <==> OutOfRange(ds, radius, a, 3);
    hide GivesUp, RunAt, OutOfRange, NoHitBefore;
  }

  /** A range scan of an SPTAG index ends at five results in a row out of range after one in range, and
      at nothing else. */
  lemma SptagReturns(ds: seq<real>, radius: real, j: nat)
    requires j < |ds|
    ensures Emitted(SPTAG, ds, radius, j) <==>
              && ds[j] <= radius
              && forall a :: 0 <= a <= j - 5 && OutOfRange(ds, radius, a, 5) ==> NoHitBefore(ds, radius, a)
  {
    assert forall a: nat :: RunAt(SPTAG, ds, radius, a) <==> OutOfRange(ds, radius, a, 5);
    hide RunAt, OutOfRange, NoHitBefore;
  }

  /** An ordered scan of an HNSW index counts as in order from a result with 86 closer predecessors on;
      one of an SPTAG index never does. */
  lemma InOrderInNumbers(ds: seq<real>, n: nat)
    requires n <= |ds|
    ensures InOrderBy(HNSW, ds, n) <==> exists i :: 0 <= i < n && |Nearer(ds, i)| >= 86
    ensures !InOrderBy(SPTAG, ds, n)
  {
    forall i | 0 <= i < n
      ensures OutOfTurn(HNSW, ds, i) <==> |Nearer(ds, i)| >= 86
    {
      EarlierCounts(ds, i);
    }
    hide OutOfTurn;
    assert forall i :: 0 <= i < n ==> !OutOfTurn(SPTAG, ds, i) by { NeverOutOfTurn(ds, n); }
  }

  lemma NeverOutOfTurn(ds: seq<real>, n: nat)
    requires n <= |ds|
    ensures forall i :: 0 <= i < n ==> !OutOfTurn(SPTAG, ds, i)
  {
  }

  // ---------- the scan ----------

  function Distances(results: seq<Result>): (ds: seq<real>)
    ensures |ds| == |results| && forall i :: 0 <= i < |ds| ==> ds[i] == results[i].dist
  {
    seq(|results|, i requires 0 <= i < |results| => results[i].dist)
  }

  /** A range scan inside a request, about to look at result n: the scan is not over, the last i
      results were out of range, and while there was no hit the queue holds the nearest results. */
  ghost predicate Looking(kind: Kind, ds: seq<real>, radius: real, n: nat, inRange: bool, i: nat, q: Queue) {
    && ValidKind(kind) && i <= n <= |ds|
    && !OverBefore(kind, ds, radius, n)
    && inRange == !NoHitBefore(ds, radius, n)
    && (forall h :: n - i <= h < n ==> ds[h] > radius)
    && (inRange ==> i < n && ds[n - i - 1] <= radius && i < kind.distanceThreshold)
    && (!inRange && kind.queueThreshold.Some? ==> q == Smallest(ds[..n], kind.queueThreshold.value))
  }

  lemma QueueIs(kind: Kind, ds: seq<real>, radius: real, n: nat, i: nat, q: Queue)
    requires Looking(kind, ds, radius, n, false, i, q) && kind.queueThreshold.Some?
    ensures q == Smallest(ds[..n], kind.queueThreshold.value)
  {
  }

  /** The queue after result n has passed the give-up test. */
  ghost predicate Passed(kind: Kind, ds: seq<real>, n: nat, inRange: bool, q: Queue)
    requires n < |ds|
  {
    !inRange && kind.queueThreshold.Some? ==>
      !GivesUp(kind, ds, n) && q == Smallest(ds[..n + 1], kind.queueThreshold.value)
  }

  lemma LookOn(kind: Kind, ds: seq<real>, radius: real, n: nat, inRange: bool, i: nat, q: Queue, q': Queue)
    requires Looking(kind, ds, radius, n, inRange, i, q) && n < |ds| && Passed(kind, ds, n, inRange, q')
    requires ds[n] > radius && !(inRange && i + 1 >= kind.distanceThreshold)
    ensures Looking(kind, ds, radius, n + 1, inRange, i + 1, q')
  {
    hide OverBefore, Closer, Smallest;
    StillGoing(kind, ds, radius, n, i);
  }

  lemma HitFound(kind: Kind, ds: seq<real>, radius: real, n: nat, inRange: bool, i: nat, q: Queue, q': Queue)
    requires Looking(kind, ds, radius, n, inRange, i, q) && n < |ds| && Passed(kind, ds, n, inRange, q')
    requires ds[n] <= radius
    ensures Looking(kind, ds, radius, n + 1, true, 0, q')
    ensures Emitted(kind, ds, radius, n)
  {
    hide OverBefore, Closer, Smallest;
    StillGoing(kind, ds, radius, n, i);
  }

  lemma RunComplete(kind: Kind, ds: seq<real>, radius: real, n: nat, i: nat, q: Queue)
    requires Looking(kind, ds, radius, n, true, i, q) && n < |ds|
    requires ds[n] > radius && i + 1 >= kind.distanceThreshold
    ensures forall j :: n <= j ==> !Emitted(kind, ds, radius, j)
  {
    hide OverBefore, Closer, Smallest;
    RanOut(kind, ds, radius, n + 1);
  }

  lemma TestFailed(kind: Kind, ds: seq<real>, radius: real, n: nat, i: nat, q: Queue)
    requires Looking(kind, ds, radius, n, false, i, q) && n < |ds| && GivesUp(kind, ds, n)
    ensures forall j :: n <= j ==> !Emitted(kind, ds, radius, j)
  {
    GaveUp(kind, ds, radius, n);
  }

  class Scan {
    const kind: Kind
    var key: Key
    var results: seq<Result>       // what the result iterator yields
    var first: bool
    var next: nat                  // iterator position
    var hasRangeFilter: bool
    var inRange: bool
    var range: real
    var distanceQueue: Queue
    var xsInorder: bool

    constructor Hnsw(key: Key, results: seq<Result>)
      ensures kind == HNSW && this.key == key && this.results == results && first && Valid()
    {
      kind, this.key, this.results, first := HNSW, key, results, true;
      next, hasRangeFilter, inRange, range, distanceQueue, xsInorder := 0, false, false, 0.0, [], false;
    }

    constructor Sptag(key: Key, results: seq<Result>)
      ensures kind == SPTAG && this.key == key && this.results == results && first && Valid()
    {
      kind, this.key, this.results, first := SPTAG, key, results, true;
      next, hasRangeFilter, inRange, range, distanceQueue, xsInorder := 0, false, false, 0.0, [], false;
    }

    /** Between two requests that both return a tuple. */
    ghost predicate Valid()
      reads this
    {
      ValidKind(kind) && (!first ==> Started() && (if key.Range? then RangeState() else OrderState()))
    }

    ghost predicate Started()
      reads this
    {
      && next <= |results|
      && hasRangeFilter == key.Range?
      && (key.Range? ==> range == key.radius)
    }

    ghost predicate RangeState()
      reads this
      requires Started() && key.Range?
    {
      Looking(kind, Distances(results), range, next, inRange, 0, distanceQueue)
    }

    ghost predicate OrderState()
      reads this
      requires Started() && key.OrderBy?
    {
      var ds := Distances(results);
      && xsInorder == InOrderBy(kind, ds, next)
      && (!xsInorder && kind.inorderSize.Some? ==> distanceQueue == Smallest(ds[..next], kind.inorderSize.value))
    }

    /** A rescan forgets everything but the kind of index, wherever the scan stands. */
    method Rescan(key: Key, results: seq<Result>)
      requires ValidKind(kind)
      modifies this
      ensures Valid() && first && this.key == key && this.results == results
    {
      first := true;
      this.key, this.results := key, results;
    }

    method Start()
      requires Valid()
      modifies this`first, this`next, this`hasRangeFilter, this`inRange, this`range, this`distanceQueue, this`xsInorder
      ensures Valid() && !first
      ensures if old(first) then next == 0 && (key.OrderBy? ==> !xsInorder)
              else next == old(next) && xsInorder == old(xsInorder)
    {
      if first {
        next, distanceQueue := 0, [];
        match key {
          case Range(radius) =>
            hasRangeFilter := true;
            inRange := false;
            range := radius;
          case OrderBy =>
            hasRangeFilter := false;
        }
        xsInorder := false;
        first := false;
      }
    }

    /** The next result of the iterator, decoded. */
    method Emit(j: nat) returns (tuple: (ItemPointer, real))
      requires j < |results|
      ensures tuple == (DecodeLabel(results[j].number), results[j].dist)
    {
      tuple := (DecodeLabel(results[j].number), results[j].dist);
    }

    /** The queue test of a range scan before its first hit: whether the scan goes on. */
    method KeepLooking(dist: real) returns (ok: bool)
      requires ValidKind(kind) && Started() && key.Range? && next < |results| && dist == results[next].dist
      requires !inRange && kind.queueThreshold.Some?
      requires distanceQueue == Smallest(Distances(results)[..next], kind.queueThreshold.value)
      modifies this`distanceQueue
      ensures ok == !GivesUp(kind, Distances(results), next)
      ensures ok ==> distanceQueue == Smallest(Distances(results)[..next + 1], kind.queueThreshold.value)
    {
      var cap := kind.queueThreshold.value;
      ghost var ds := Distances(results);
      TopDecides(ds[..next], cap, dist, false);
      SmallestStep(ds[..next], cap, dist);
      assert ds[..next + 1] == ds[..next] + [dist];
      if |distanceQueue| < cap || Nearest.Top(distanceQueue) > dist {
        if |distanceQueue| == cap {
          distanceQueue := Pop(distanceQueue);
        }
        distanceQueue := Push(distanceQueue, dist);
        return true;
      }
      return false;
    }

    /** A request of a range scan: the next result in range, unless the scan is over. */
    method NextInRange() returns (tuple: Option<(ItemPointer, real)>)
      requires Valid() && !first && key.Range?
      modifies this`next, this`inRange, this`distanceQueue
      ensures Started()
      ensures tuple.Some? ==>
                && Valid() && old(next) < next
                && Emitted(kind, Distances(results), range, next - 1)
                && (forall j :: old(next) <= j < next - 1 ==> !Emitted(kind, Distances(results), range, j))
                && tuple.value == (DecodeLabel(results[next - 1].number), results[next - 1].dist)
      ensures tuple.None? ==> forall j :: old(next) <= j ==> !Emitted(kind, Distances(results), range, j)
    {
      hide OverBefore, Closer, RunAt, Smallest, NoHitBefore, Looking, GivesUp;
      ghost var ds := Distances(results);
      var i := 0;
      while true
        invariant Started() && old(next) <= next
        invariant Looking(kind, ds, range, next, inRange, i, distanceQueue)
        invariant forall j :: old(next) <= j < next ==> ds[j] > range
        decreases |results| - next
      {
        if next == |results| {
          return None;
        }
        ghost var n, q := next, distanceQueue;
        var dist := results[next].dist;
        if !inRange && kind.queueThreshold.Some? {
          QueueIs(kind, ds, range, next, i, q);
          var ok := KeepLooking(dist);
          if !ok {
            next := next + 1;
            TestFailed(kind, ds, range, n, i, q);
            return None;
          }
        }
        next := next + 1;
        if dist > range {
          i := i + 1;
          if inRange && i >= kind.distanceThreshold {
            RunComplete(kind, ds, range, n, i - 1, q);
            return None;
          }
          LookOn(kind, ds, range, n, inRange, i - 1, q, distanceQueue);
        } else {
          HitFound(kind, ds, range, n, inRange, i, q, distanceQueue);
          inRange := true;
          var t := Emit(next - 1);
          return Some(t);
        }
      }
    }

    /** The queue test of an ordered scan. */
    method NoteDistance(dist: real)
      requires Valid() && !first && key.OrderBy? && next < |results| && dist == results[next].dist
      modifies this`xsInorder, this`distanceQueue
      ensures xsInorder == (old(xsInorder) || OutOfTurn(kind, Distances(results), next))
      ensures !xsInorder && kind.inorderSize.Some? ==>
                distanceQueue == Smallest(Distances(results)[..next + 1], kind.inorderSize.value)
    {
      hide Closer, Smallest, InOrderBy;
      ghost var ds := Distances(results);
      if !xsInorder && kind.inorderSize.Some? {
        var cap := kind.inorderSize.value;
        TopDecides(ds[..next], cap, dist, true);
        SmallestStep(ds[..next], cap, dist);
        assert ds[..next + 1] == ds[..next] + [dist];
        if |distanceQueue| == cap && Nearest.Top(distanceQueue) < dist {
          xsInorder := true;
        } else {
          if |distanceQueue| == cap {
            distanceQueue := Pop(distanceQueue);
          }
          distanceQueue := Push(distanceQueue, dist);
        }
      }
    }

    /** A request of an ordered scan: the next result, whatever its distance. */
    method NextInOrder() returns (tuple: Option<(ItemPointer, real)>)
      requires Valid() && !first && key.OrderBy?
      modifies this`next, this`xsInorder, this`distanceQueue
      ensures Valid()
      ensures if old(next) == |results| then tuple.None? && next == old(next)
              else
                && tuple == Some((DecodeLabel(results[old(next)].number), results[old(next)].dist))
                && next == old(next) + 1
    {
      hide Closer, Smallest;
      if next == |results| {
        return None;
      }
      NoteDistance(results[next].dist);
      next := next + 1;
      var t := Emit(next - 1);
      return Some(t);
    }

    /** One request for a tuple. */
    method GetTuple() returns (tuple: Option<(ItemPointer, real)>)
      requires Valid()
      modifies this`first, this`next, this`hasRangeFilter, this`inRange, this`range, this`distanceQueue, this`xsInorder
      ensures !first && Started()
      ensures tuple.Some? ==>
                && Valid() && Asked(old(first), old(next)) < next
                && tuple.value == (DecodeLabel(results[next - 1].number), results[next - 1].dist)
      ensures key.OrderBy? ==> Valid()
      ensures key.OrderBy? && tuple.Some? ==> next == Asked(old(first), old(next)) + 1
      ensures key.OrderBy? && tuple.None? ==> next == Asked(old(first), old(next)) == |results|
      ensures key.Range? && tuple.Some? ==>
                && Emitted(kind, Distances(results), key.radius, next - 1)
                && forall j :: Asked(old(first), old(next)) <= j < next - 1 ==>
                     !Emitted(kind, Distances(results), key.radius, j)
      ensures key.Range? && tuple.None? ==>
                forall j :: Asked(old(first), old(next)) <= j ==> !Emitted(kind, Distances(results), key.radius, j)
    {
      hide Emitted;
      Start();
      if hasRangeFilter {
        tuple := NextInRange();
      } else {
        tuple := NextInOrder();
      }
    }

    /** All requests of a scan, up to the one that returns no tuple. */
    method ScanAll() returns (tuples: seq<(ItemPointer, real)>, ghost indices: seq<nat>)
      requires Valid() && first
      modifies this`first, this`next, this`hasRangeFilter, this`inRange, this`range, this`distanceQueue, this`xsInorder
      ensures |tuples| == |indices|
      ensures forall t :: 0 <= t < |tuples| ==>
                && indices[t] < |results|
                && tuples[t] == (DecodeLabel(results[indices[t]].number), results[indices[t]].dist)
      ensures forall t, u :: 0 <= t < u < |indices| ==> indices[t] < indices[u]
      ensures key.OrderBy? ==> forall j: nat :: j in indices <==> j < |results|
      ensures key.OrderBy? ==> xsInorder == InOrderBy(kind, Distances(results), |results|)
      ensures key.Range? ==> forall j: nat :: j in indices <==> Emitted(kind, Distances(results), key.radius, j)
    {
      hide Emitted;
      tuples, indices := [], [];
      while true
        invariant Valid() && |tuples| == |indices|
        invariant first ==> indices == []
        invariant forall t :: 0 <= t < |tuples| ==>
                    && indices[t] < Asked(first, next) <= |results|
                    && tuples[t] == (DecodeLabel(results[indices[t]].number), results[indices[t]].dist)
        invariant forall t, u :: 0 <= t < u < |indices| ==> indices[t] < indices[u]
        invariant key.OrderBy? ==> forall j: nat :: j in indices <==> j < Asked(first, next)
        invariant key.Range? ==> forall j: nat :: j in indices <==>
                    j < Asked(first, next) && Emitted(kind, Distances(results), key.radius, j)
        decreases |results| - Asked(first, next)
      {
        var tuple := GetTuple();
        if tuple.None? {
          return;
        }
        tuples := tuples + [tuple.value];
        indices := indices + [next - 1];
      }
    }
  }

  /** Where the iterator stands when a request comes in. */
  function Asked(first: bool, next: nat): nat {
    if first then 0 else next
  }
}
