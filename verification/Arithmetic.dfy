/** Sums, proportional shares and their rounding, over exact reals. */
module Arithmetic {

  function Sum(xs: seq<real>): real {
    if xs == [] then 0.0 else Sum(xs[..|xs| - 1]) + xs[|xs| - 1]
  }

  function Total(qs: seq<nat>): nat {
    if qs == [] then 0 else Total(qs[..|qs| - 1]) + qs[|qs| - 1]
  }

  /** C++'s conversion int(0.5 + x) for x >= 0. */
  function Round(x: real): nat
    requires x >= 0.0
  {
    (0.5 + x).Floor
  }

  ghost predicate Positive(xs: seq<real>) {
    forall i :: 0 <= i < |xs| ==> xs[i] > 0.0
  }

  lemma SumEmpty()
    ensures Sum([]) == 0.0
  {
  }

  lemma SumExtend(xs: seq<real>, x: real)
    ensures Sum(xs + [x]) == Sum(xs) + x
  {
    assert (xs + [x])[..|xs|] == xs;
  }

  lemma {:induction false} SumPositive(xs: seq<real>)
    requires Positive(xs)
    ensures Sum(xs) >= 0.0
    ensures xs != [] ==> Sum(xs) > 0.0
  {
    if xs != [] {
      SumPositive(xs[..|xs| - 1]);
    }
  }

  lemma {:induction false} SumUpdate(xs: seq<real>, c: nat, d: real)
    requires c < |xs|
    ensures Sum(xs[c := xs[c] + d]) == Sum(xs) + d
  {
    var n := |xs| - 1;
    var ys := xs[c := xs[c] + d];
    if c == n {
      assert ys[..n] == xs[..n];
    } else {
      assert ys[..n] == xs[..n][c := xs[c] + d];
      SumUpdate(xs[..n], c, d);
    }
  }

  lemma {:induction false} TotalUpdate(qs: seq<nat>, c: nat, d: nat)
    requires c < |qs|
    ensures Total(qs[c := qs[c] + d]) == Total(qs) + d
  {
    var n := |qs| - 1;
    var rs := qs[c := qs[c] + d];
    if c == n {
      assert rs[..n] == qs[..n];
    } else {
      assert rs[..n] == qs[..n][c := qs[c] + d];
      TotalUpdate(qs[..n], c, d);
    }
  }

  lemma {:induction false} TotalZero(qs: seq<nat>)
    ensures Total(qs) == 0 <==> forall i :: 0 <= i < |qs| ==> qs[i] == 0
  {
    if qs != [] {
      TotalZero(qs[..|qs| - 1]);
    }
  }

  lemma {:induction false} TotalBounds(qs: seq<nat>, i: nat)
    requires i < |qs|
    ensures qs[i] <= Total(qs)
  {
    var n := |qs| - 1;
    if i < n {
      TotalBounds(qs[..n], i);
    }
  }

  lemma {:induction false} TotalAdd(ps: seq<nat>, rs: seq<nat>, qs: seq<nat>)
    requires |ps| == |rs| == |qs|
    requires forall i :: 0 <= i < |qs| ==> qs[i] == ps[i] + rs[i]
    ensures Total(qs) == Total(ps) + Total(rs)
  {
    if qs != [] {
      var n := |qs| - 1;
      TotalAdd(ps[..n], rs[..n], qs[..n]);
    }
  }

  /** Weight w of total s as a share of n. */
  function Share(n: nat, w: real, s: real): real
    requires s > 0.0
  {
    n as real * w / s
  }

  /** Each weight's share of n; the shares are proportional to the weights. */
  function Shares(n: nat, ws: seq<real>): (xs: seq<real>)
    requires Positive(ws)
    ensures |xs| == |ws|
  {
    SumPositive(ws);
    seq(|ws|, i requires 0 <= i < |ws| => Share(n, ws[i], Sum(ws)))
  }

  lemma ShareScales(n: nat, a: real, b: real, s: real)
    requires s > 0.0
    ensures Share(n, a + b, s) == Share(n, a, s) + Share(n, b, s)
    ensures Share(n, 0.0, s) == 0.0
    ensures Share(n, s, s) == n as real
    ensures a >= 0.0 ==> Share(n, a, s) >= 0.0
  {
  }

  lemma {:induction false} SharesOfPrefix(n: nat, ws: seq<real>, s: real, xs: seq<real>)
    requires s > 0.0 && |xs| == |ws|
    requires forall i :: 0 <= i < |ws| ==> xs[i] == Share(n, ws[i], s)
    ensures Sum(xs) == Share(n, Sum(ws), s)
  {
    if ws != [] {
      var l := |ws| - 1;
      SharesOfPrefix(n, ws[..l], s, xs[..l]);
      ShareScales(n, Sum(ws[..l]), ws[l], s);
    } else {
      ShareScales(n, 0.0, 0.0, s);
    }
  }

  /** The shares add up to n. */
  lemma SharesAddUp(n: nat, ws: seq<real>)
    requires Positive(ws) && ws != []
    ensures Sum(Shares(n, ws)) == n as real
    ensures forall i :: 0 <= i < |ws| ==> Shares(n, ws)[i] >= 0.0
  {
    SumPositive(ws);
    var s := Sum(ws);
    SharesOfPrefix(n, ws, s, Shares(n, ws));
    ShareScales(n, 0.0, 0.0, s);
    forall i | 0 <= i < |ws| ensures Shares(n, ws)[i] >= 0.0 {
      ShareScales(n, ws[i], 0.0, s);
    }
  }

  /** Shares of n rounded to whole numbers. */
  function Apportion(n: nat, ws: seq<real>): (qs: seq<nat>)
    requires Positive(ws)
    ensures |qs| == |ws|
  {
    if ws == [] then [] else
      SharesAddUp(n, ws);
      seq(|ws|, i requires 0 <= i < |ws| => Round(Shares(n, ws)[i]))
  }

  lemma {:induction false} RoundingError(xs: seq<real>, qs: seq<nat>)
    requires |qs| == |xs|
    requires forall i :: 0 <= i < |xs| ==> xs[i] >= 0.0 && qs[i] == Round(xs[i])
    ensures Total(qs) as real <= Sum(xs) + 0.5 * |xs| as real
    ensures Total(qs) as real >= Sum(xs) - 0.5 * |xs| as real
    ensures xs != [] ==> Total(qs) as real > Sum(xs) - 0.5 * |xs| as real
  {
    if xs != [] {
      var n := |xs| - 1;
      RoundingError(xs[..n], qs[..n]);
    }
  }

  /** Rounding loses or gains at most one half per share. */
  lemma ApportionBounds(n: nat, ws: seq<real>)
    requires Positive(ws) && ws != []
    ensures n as real - 0.5 * |ws| as real < Total(Apportion(n, ws)) as real <= n as real + 0.5 * |ws| as real
  {
    SharesAddUp(n, ws);
    RoundingError(Shares(n, ws), Apportion(n, ws));
  }

  /** A larger weight never gets a smaller share. */
  lemma ApportionMonotone(n: nat, ws: seq<real>, i: nat, j: nat)
    requires Positive(ws) && i < |ws| && j < |ws| && ws[i] <= ws[j]
    ensures Apportion(n, ws)[i] <= Apportion(n, ws)[j]
  {
    SharesAddUp(n, ws);
    SumPositive(ws);
    ShareScales(n, ws[i], ws[j] - ws[i], Sum(ws));
    ShareScales(n, ws[j] - ws[i], 0.0, Sum(ws));
    assert Shares(n, ws)[i] == Share(n, ws[i], Sum(ws)) && Shares(n, ws)[j] == Share(n, ws[j], Sum(ws));
  }
}
