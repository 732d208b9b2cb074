/** Range selectivity: the share of vectors within a radius, computed by a sorted two-pointer sweep
    over many radii and by a counting loop over sampled vectors. */
module Selectivity {
  import opened Nearest

  /** The share of the distances that are within the radius. */
  function Share(ds: seq<real>, radius: real): real
    requires ds != []
  {
    Closer(ds, radius, false) as real / |ds| as real
  }

  lemma {:induction false} CloserGrows(ds: seq<real>, r1: real, r2: real)
    requires r1 <= r2
    ensures Closer(ds, r1, false) <= Closer(ds, r2, false)
  {
    if ds != [] {
      CloserGrows(ds[..|ds| - 1], r1, r2);
    }
  }

  lemma QuotientGrows(a: nat, b: nat, n: nat)
    requires a <= b <= n && n > 0
    ensures 0.0 <= a as real / n as real <= b as real / n as real <= 1.0
  {
    var x, y := a as real / n as real, b as real / n as real;
    assert x * n as real == a as real && y * n as real == b as real;
  }

  /** A selectivity lies in [0, 1] and does not decrease with the radius. */
  lemma ShareMonotone(ds: seq<real>, r1: real, r2: real)
    requires ds != [] && r1 <= r2
    ensures 0.0 <= Share(ds, r1) <= Share(ds, r2) <= 1.0
  {
    CloserGrows(ds, r1, r2);
    CloserBound(ds, r2, false);
    QuotientGrows(Closer(ds, r1, false), Closer(ds, r2, false), |ds|);
  }

  /** The share of n distances is the number of places that hold one up to the radius, over n. */
  lemma ShareMeaning(ds: seq<real>, radius: real)
    requires ds != []
    ensures Share(ds, radius) * |ds| as real == |set i: nat | i < |ds| && ds[i] <= radius| as real
  {
    CloserCounts(ds, radius, false);
    assert (set i: nat | i < |ds| && ds[i] <= radius) == CloserPlaces(ds, radius, false);
  }

  /** In an ordered list, the index of the first entry beyond x counts the entries up to x. */
  lemma FirstBeyond(q: seq<real>, i: nat, x: real)
    requires Ordered(q) && i <= |q|
    requires i < |q| ==> q[i] > x
    requires i > 0 ==> q[i - 1] <= x
    ensures Closer(q, x, false) == i
  {
    CloserBound(q, x, false);
    if i < |q| {
      CloserOrdered(q, i, x, false);
    }
    if i > 0 {
      CloserOrdered(q, i - 1, x, false);
    }
  }

  /** The sweep: one pass over the sorted distances serves all radii. The cardinalities it leaves out
      at the end are those of radii that take in the whole table. */
  method Cardinalities(table: seq<real>, radii: seq<real>) returns (cards: seq<nat>)
    requires Ordered(table) && Ordered(radii)
    ensures |cards| <= |radii| && (cards != [] ==> table != [])
    ensures forall h :: 0 <= h < |cards| ==> cards[h] == Closer(table, radii[h], false)
    ensures forall h :: |cards| <= h < |radii| ==> Closer(table, radii[h], false) == |table|
  {
    hide Closer;
    cards := [];
    var j := 0;
    for i := 0 to |table|
      invariant j == |cards| <= |radii| && (i == 0 ==> j == 0)
      invariant forall h :: 0 <= h < j ==> cards[h] == Closer(table, radii[h], false)
      invariant i > 0 && j < |radii| ==> table[i - 1] <= radii[j]
    {
      while j < |radii| && table[i] > radii[j]
        invariant j == |cards| <= |radii|
        invariant forall h :: 0 <= h < j ==> cards[h] == Closer(table, radii[h], false)
        invariant i > 0 && j < |radii| ==> table[i - 1] <= radii[j]
        decreases |radii| - j
      {
        FirstBeyond(table, i, radii[j]);
        cards := cards + [i];
        j := j + 1;
      }
      if j == |radii| {
        break;
      }
    }
    forall h | j <= h < |radii|
      ensures Closer(table, radii[h], false) == |table|
    {
      FirstBeyond(table, |table|, radii[h]);
    }
  }

  /** The selectivity of every radius. With no distances at all the padding makes every entry 1. */
  method Sweep(distances: seq<real>, radii: seq<real>) returns (selectivities: seq<real>)
    requires Ordered(radii)
    ensures |selectivities| == |radii|
    ensures forall j :: 0 <= j < |radii| ==>
              selectivities[j] == if distances == [] then 1.0 else Share(distances, radii[j])
  {
    hide Closer;
    var table := Sort(distances);
    SortCorrect(distances, 0.0, false);
    var cards := Cardinalities(table, radii);
    forall j | 0 <= j < |radii|
      ensures Closer(table, radii[j], false) == Closer(distances, radii[j], false)
    {
      SortCorrect(distances, radii[j], false);
    }
    selectivities := [];
    for h := 0 to |cards|
      invariant |selectivities| == h
      invariant forall g :: 0 <= g < h ==> selectivities[g] == Share(distances, radii[g])
    {
      selectivities := selectivities + [cards[h] as real / |table| as real];
    }
    selectivities := selectivities + seq(|radii| - |cards|, _ => 1.0);
  }
}
