/** Sums, means and co-moments of finite sequences, and the recurrence that updates them online. */
module Moments {

  function Sum(s: seq<real>): real {
    if s == [] then 0.0 else Sum(s[..|s| - 1]) + s[|s| - 1]
  }

  /** The mean, and 0 before the first value. */
  function Mean(s: seq<real>): real {
    if s == [] then 0.0 else Sum(s) / |s| as real
  }

  /** The sum of the products of deviations from a and from b. */
  function Deviations(xs: seq<real>, ys: seq<real>, a: real, b: real): real
    requires |xs| == |ys|
  {
    if xs == [] then 0.0
    else
      var last := |xs| - 1;
      Deviations(xs[..last], ys[..last], a, b) + (xs[last] - a) * (ys[last] - b)
  }

  /** The sum of the products of deviations from the means; n - 1 times the sample covariance. */
  function CoMoment(xs: seq<real>, ys: seq<real>): real
    requires |xs| == |ys|
  {
    Deviations(xs, ys, Mean(xs), Mean(ys))
  }

  /** The products of deviations themselves. */
  function Products(xs: seq<real>, ys: seq<real>, a: real, b: real): (s: seq<real>)
    requires |xs| == |ys|
    ensures |s| == |xs| && forall i :: 0 <= i < |s| ==> s[i] == Term(xs[i], ys[i], a, b)
  {
    seq(|xs|, i requires 0 <= i < |xs| => Term(xs[i], ys[i], a, b))
  }

  lemma {:induction false} DeviationsSum(xs: seq<real>, ys: seq<real>, a: real, b: real)
    requires |xs| == |ys|
    ensures Deviations(xs, ys, a, b) == Sum(Products(xs, ys, a, b))
  {
    hide Term;
    if xs != [] {
      var last := |xs| - 1;
      DeviationsSum(xs[..last], ys[..last], a, b);
      DeviationsLast(xs, ys, a, b);
      assert Products(xs, ys, a, b)[..last] == Products(xs[..last], ys[..last], a, b);
    }
  }

  /** A sum of products of deviations from a and b, in terms of the sums of the products and of the values. */
  ghost predicate Expanded(deviations: real, products: real, sx: real, sy: real, n: real, a: real, b: real) {
    deviations == products - b * sx - a * sy + n * (a * b)
  }

  function Term(x: real, y: real, a: real, b: real): real {
    (x - a) * (y - b)
  }

  lemma {:induction false} DeviationsExpand(xs: seq<real>, ys: seq<real>, a: real, b: real)
    requires |xs| == |ys|
    ensures Expanded(Deviations(xs, ys, a, b), Deviations(xs, ys, 0.0, 0.0), Sum(xs), Sum(ys), |xs| as real, a, b)
  {
    hide *;
    if xs == [] {
      NoDeviations(a, b);
    } else {
      var last := |xs| - 1;
      DeviationsExpand(xs[..last], ys[..last], a, b);
      DeviationsLast(xs, ys, a, b);
      DeviationsLast(xs, ys, 0.0, 0.0);
      SumLast(xs);
      SumLast(ys);
      ExpandTerm(Deviations(xs[..last], ys[..last], a, b), Deviations(xs[..last], ys[..last], 0.0, 0.0),
        Sum(xs[..last]), Sum(ys[..last]), last as real, xs[last], ys[last], a, b);
    }
  }

  lemma NoDeviations(a: real, b: real)
    ensures Expanded(Deviations([], [], a, b), Deviations([], [], 0.0, 0.0), Sum([]), Sum([]), 0.0, a, b)
  {
  }

  lemma DeviationsLast(xs: seq<real>, ys: seq<real>, a: real, b: real)
    requires |xs| == |ys| > 0
    ensures var last := |xs| - 1;
            Deviations(xs, ys, a, b) == Deviations(xs[..last], ys[..last], a, b) + Term(xs[last], ys[last], a, b)
  {
  }

  lemma SumLast(s: seq<real>)
    requires s != []
    ensures Sum(s) == Sum(s[..|s| - 1]) + s[|s| - 1]
  {
  }

  lemma ExpandTerm(d: real, p: real, sx: real, sy: real, n: real, x: real, y: real, a: real, b: real)
    requires Expanded(d, p, sx, sy, n, a, b)
    ensures Expanded(d + Term(x, y, a, b), p + Term(x, y, 0.0, 0.0), sx + x, sy + y, n + 1.0, a, b)
  {
    assert Term(x, y, a, b) == x * y - b * x - a * y + a * b;
    assert b * (sx + x) == b * sx + b * x && a * (sy + y) == a * sy + a * y;
    assert (n + 1.0) * (a * b) == n * (a * b) + a * b;
  }

  ghost predicate Averages(m: real, n: real, sum: real) {
    m * n == sum
  }

  lemma MeanAverages(s: seq<real>)
    ensures Averages(Mean(s), |s| as real, Sum(s))
  {
    MeanTimes(s);
  }

  lemma MeanTimes(s: seq<real>)
    ensures Mean(s) * |s| as real == Sum(s)
  {
    if s != [] {
      Cancel(Sum(s), |s| as real);
    }
  }

  lemma Cancel(a: real, n: real)
    requires n > 0.0
    ensures a / n * n == a
  {
  }

  lemma SumNext(s: seq<real>, x: real)
    ensures Sum(s + [x]) == Sum(s) + x
  {
    assert (s + [x])[..|s|] == s;
  }

  lemma DeviationsNext(xs: seq<real>, ys: seq<real>, x: real, y: real, a: real, b: real)
    requires |xs| == |ys|
    ensures Deviations(xs + [x], ys + [y], a, b) == Deviations(xs, ys, a, b) + Term(x, y, a, b)
  {
    assert (xs + [x])[..|xs|] == xs && (ys + [y])[..|ys|] == ys;
  }

  /** How both filters update a running mean when the n-th value is x. */
  function NextMean(m: real, n: real, x: real): real
    requires n > 0.0
  {
    m + (x - m) / n
  }

  /** How they update a co-moment; dx and dy are the deviations of the n-th pair from the old means. */
  function NextCoMoment(c: real, n: real, dx: real, dy: real): real
    requires n > 0.0
  {
    c + (n - 1.0) / n * dx * dy
  }

  /** The mean after one value more. */
  lemma MeanNext(s: seq<real>, x: real)
    ensures Mean(s + [x]) == NextMean(Mean(s), (|s| + 1) as real, x)
  {
    var n := |s| as real;
    hide NextMean;
    MeanTimes(s);
    SumNext(s, x);
    assert Mean(s + [x]) == (Sum(s) + x) / (n + 1.0);
    hide Mean, Sum;
    NextQuotient(Mean(s), n, x, Sum(s));
  }

  lemma NextQuotient(m: real, n: real, x: real, sum: real)
    requires n >= 0.0 && m * n == sum
    ensures (sum + x) / (n + 1.0) == NextMean(m, n + 1.0, x)
  {
    var q := (x - m) / (n + 1.0);
    Cancel(x - m, n + 1.0);
    assert (m + q) * (n + 1.0) == sum + x;
  }

  /** The co-moment after one pair more. */
  lemma CoMomentNext(xs: seq<real>, ys: seq<real>, x: real, y: real)
    requires |xs| == |ys|
    ensures CoMoment(xs + [x], ys + [y]) ==
            NextCoMoment(CoMoment(xs, ys), (|xs| + 1) as real, x - Mean(xs), y - Mean(ys))
  {
    var n := (|xs| + 1) as real;
    hide *;
    Flatten(xs, ys);
    Flatten(xs + [x], ys + [y]);
    DeviationsNext(xs, ys, x, y, 0.0, 0.0);
    MeanNext(xs, x);
    MeanNext(ys, y);
    CoMomentStep(Deviations(xs, ys, 0.0, 0.0), n, Mean(xs), Mean(ys), x, y, CoMoment(xs, ys),
      CoMoment(xs + [x], ys + [y]));
  }

  /** A co-moment as the sum of products less n times the product of the means. */
  ghost predicate Flattened(coMoment: real, products: real, n: real, mx: real, my: real) {
    coMoment == products - n * (mx * my)
  }

  lemma Flatten(xs: seq<real>, ys: seq<real>)
    requires |xs| == |ys|
    ensures Flattened(CoMoment(xs, ys), Deviations(xs, ys, 0.0, 0.0), |xs| as real, Mean(xs), Mean(ys))
  {
    CoMomentIs(xs, ys);
    hide *;
    DeviationsExpand(xs, ys, Mean(xs), Mean(ys));
    MeanAverages(xs);
    MeanAverages(ys);
    FlattenTerms(CoMoment(xs, ys), Deviations(xs, ys, 0.0, 0.0), Mean(xs), Mean(ys), |xs| as real, Sum(xs), Sum(ys));
  }

  lemma CoMomentIs(xs: seq<real>, ys: seq<real>)
    requires |xs| == |ys|
    ensures CoMoment(xs, ys) == Deviations(xs, ys, Mean(xs), Mean(ys))
  {
    hide Deviations, Mean;
  }

  lemma FlattenTerms(c: real, p: real, mx: real, my: real, n: real, sx: real, sy: real)
    requires Averages(mx, n, sx) && Averages(my, n, sy) && Expanded(c, p, sx, sy, n, mx, my)
    ensures Flattened(c, p, n, mx, my)
  {
    assert my * sx == n * (mx * my);
    assert mx * sy == n * (mx * my);
  }

  lemma CoMomentStep(p: real, n: real, mx: real, my: real, x: real, y: real, c: real, next: real)
    requires n >= 1.0 && Flattened(c, p, n - 1.0, mx, my)
    requires Flattened(next, p + Term(x, y, 0.0, 0.0), n, NextMean(mx, n, x), NextMean(my, n, y))
    ensures next == NextCoMoment(c, n, x - mx, y - my)
  {
    var d, e := (x - mx) / n, (y - my) / n;
    assert n * d == x - mx && n * e == y - my;
    Scaled(n, d, e, x - mx, y - my);
    StepIdentity(p, n, mx, my, d, e);
  }

  lemma Scaled(n: real, d: real, e: real, dx: real, dy: real)
    requires n >= 1.0 && n * d == dx && n * e == dy
    ensures (n - 1.0) / n * dx * dy == n * (n - 1.0) * (d * e)
  {
    var r := (n - 1.0) / n;
    assert r * n == n - 1.0;
    assert r * dx == (r * n) * d;
    assert r * dx * dy == (n - 1.0) * d * dy;
    assert (n - 1.0) * d * dy == n * (n - 1.0) * (d * e);
  }

  lemma StepIdentity(p: real, n: real, mx: real, my: real, d: real, e: real)
    ensures p + (mx + n * d) * (my + n * e) - n * ((mx + d) * (my + e)) ==
            p - (n - 1.0) * (mx * my) + n * (n - 1.0) * (d * e)
  {
  }

  lemma {:induction false} DeviationsSymmetric(xs: seq<real>, ys: seq<real>, a: real, b: real)
    requires |xs| == |ys|
    ensures Deviations(xs, ys, a, b) == Deviations(ys, xs, b, a)
  {
    if xs != [] {
      var last := |xs| - 1;
      DeviationsSymmetric(xs[..last], ys[..last], a, b);
    }
  }

  lemma CoMomentSymmetric(xs: seq<real>, ys: seq<real>)
    requires |xs| == |ys|
    ensures CoMoment(xs, ys) == CoMoment(ys, xs)
  {
    DeviationsSymmetric(xs, ys, Mean(xs), Mean(ys));
  }
}
