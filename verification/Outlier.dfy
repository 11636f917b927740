/** The statistical method of `filters.outlier`: rows whose mean neighbour distance is not below a global
    threshold, computed by three running recurrences.
 */
module Outlier {
  import opened Arithmetic
  import opened Options
  import opened Moments
  import opened RowChunks
  import opened Dispersion

  /** What the filter reads: for every row the squared distances of its meanK + 1 nearest points, the row
      itself first. */
  datatype Query = Query(sqrDists: seq<seq<real>>, meanK: nat, multiplier: real, sqrt: real -> real) {
    ghost predicate Valid() {
      && (forall i :: 0 <= i < |sqrDists| ==> |sqrDists[i]| == meanK + 1)
      && forall v: real :: v >= 0.0 ==> Root(v) >= 0.0 && Times(Root(v), Root(v)) == v
    }

    function Root(v: real): real {
      sqrt(v)
    }
  }

  /** The distances of a row to its neighbours, without itself. */
  function Distances(query: Query, i: nat): (s: seq<real>)
    requires query.Valid() && i < |query.sqrDists|
    ensures |s| == query.meanK
  {
    seq(query.meanK, j requires 0 <= j < query.meanK => query.Root(query.sqrDists[i][j + 1]))
  }

  function MeanDistances(query: Query): (s: seq<real>)
    requires query.Valid()
    ensures |s| == |query.sqrDists|
  {
    seq(|query.sqrDists|, i requires 0 <= i < |query.sqrDists| => Mean(Distances(query, i)))
  }

  /** The sample variance; a single value has none, because it divides by 0. */
  function Variance(s: seq<real>): Option<real>
    requires s != []
  {
    if |s| == 1 then None else Some(CoMoment(s, s) / (|s| as real - 1.0))
  }

  /** Mean plus a multiple of the standard deviation, which is no number without a variance. */
  function Threshold(query: Query): Option<real>
    requires query.Valid() && query.sqrDists != []
  {
    var means := MeanDistances(query);
    var v := Variance(means);
    if v.None? then None else Some(Mean(means) + Times(query.multiplier, query.Root(v.value)))
  }

  /** Nothing is below a threshold that is no number. */
  predicate Inlier(query: Query, i: nat)
    requires query.Valid() && i < |query.sqrDists|
  {
    Threshold(query).Some? && MeanDistances(query)[i] < Threshold(query).value
  }

  predicate Increasing(s: seq<nat>) {
    forall a, b :: 0 <= a < b < |s| ==> s[a] < s[b]
  }

  /** Both lists are in row order and every row is in exactly one of them. */
  ghost predicate Partitions(query: Query, n: nat, inliers: seq<nat>, outliers: seq<nat>)
    requires query.Valid() && n <= |query.sqrDists|
  {
    && Increasing(inliers) && Increasing(outliers)
    && (forall i: nat :: i in inliers <==> i < n && Inlier(query, i))
    && (forall i: nat :: i in outliers <==> i < n && !Inlier(query, i))
  }

  lemma PartitionsNext(query: Query, n: nat, inliers: seq<nat>, outliers: seq<nat>)
    requires query.Valid() && n < |query.sqrDists| && Partitions(query, n, inliers, outliers)
    ensures Inlier(query, n) ==> Partitions(query, n + 1, inliers + [n], outliers)
    ensures !Inlier(query, n) ==> Partitions(query, n + 1, inliers, outliers + [n])
  {
    hide Inlier;
    assert forall a :: 0 <= a < |inliers| ==> inliers[a] in inliers;
    assert forall a :: 0 <= a < |outliers| ==> outliers[a] in outliers;
  }

  /** The inner loop of one row. */
  method RowMean(query: Query, i: nat) returns (distance: real)
    requires query.Valid() && i < |query.sqrDists|
    ensures distance == Mean(Distances(query, i))
  {
    hide Mean;
    ghost var ds := Distances(query, i);
    distance := 0.0;
    var j := 1;
    MeanOfNone();
    assert ds[..0] == [];
    while j < query.meanK + 1
      invariant 1 <= j <= query.meanK + 1
      invariant distance == Mean(ds[..j - 1])
    {
      var delta := query.Root(query.sqrDists[i][j]) - distance;
      distance := distance + delta / j as real;
      MeanNext(ds[..j - 1], ds[j - 1]);
      assert ds[..j] == ds[..j - 1] + [ds[j - 1]];
      j := j + 1;
    }
    assert ds[..query.meanK] == ds;
  }

  lemma MeanRow(query: Query, i: nat)
    requires query.Valid() && i < |query.sqrDists|
    ensures MeanDistances(query)[i] == Mean(Distances(query, i))
  {
  }

  lemma MeanOfNone()
    ensures Mean([]) == 0.0 && CoMoment([], []) == 0.0
  {
  }

  /** The workers run in any order and each writes its own rows. */
  method MeanRows(query: Query, workers: nat, distances: array<real>)
    requires query.Valid() && distances.Length == |query.sqrDists| && workers > 0
    modifies distances
    ensures distances[..] == MeanDistances(query)
  {
    hide Begin, End, Mean, MeanDistances;
    var rows := distances.Length;
    ghost var means := MeanDistances(query);
    var pending := WorkerSet(workers);
    while pending != {}
      invariant pending <= WorkerSet(workers)
      invariant forall w, i :: 0 <= w < workers && w !in pending && 0 <= i < rows && Owns(rows, workers, w, i) ==>
        distances[i] == means[i]
      decreases pending
    {
      var w :| w in pending;
      RangeInRows(rows, workers, w);
      var i := Begin(rows, workers, w);
      while i < End(rows, workers, w)
        invariant Begin(rows, workers, w) <= i <= End(rows, workers, w)
        invariant forall v, r :: 0 <= v < workers && v !in pending && 0 <= r < rows && Owns(rows, workers, v, r) ==>
          distances[r] == means[r]
        invariant forall r :: Begin(rows, workers, w) <= r < i ==> distances[r] == means[r]
      {
        distances[i] := RowMean(query, i);
        MeanRow(query, i);
        i := i + 1;
      }
      pending := pending - {w};
    }
    AllOwned(rows, workers);
    forall i | 0 <= i < rows ensures distances[i] == means[i] {
      assert Owned(rows, workers, i);
    }
  }

  /** The two online moments, with the counters n1 and n of the loop. */
  method OnlineMoments(distances: array<real>) returns (n: nat, m1: real, m2: real)
    ensures n == distances.Length && m1 == Mean(distances[..]) && m2 == CoMoment(distances[..], distances[..])
  {
    hide Mean, CoMoment, NextMean, NextCoMoment;
    n, m1, m2 := 0, 0.0, 0.0;
    MeanOfNone();
    assert distances[..0] == [];
    while n < distances.Length
      invariant 0 <= n <= distances.Length
      invariant m1 == Mean(distances[..n]) && m2 == CoMoment(distances[..n], distances[..n])
    {
      var d := distances[n];
      ghost var seen := distances[..n];
      var n1 := n;
      n := n + 1;
      MeanNext(seen, d);
      CoMomentNext(seen, seen, d, d);
      assert distances[..n] == seen + [d];
      m1, m2 := OnlineStep(d, m1, m2, n, n1);
    }
    assert distances[..n] == distances[..];
  }

  /** The body of the loop. */
  method OnlineStep(d: real, m1: real, m2: real, n: nat, n1: nat) returns (next1: real, next2: real)
    requires n == n1 + 1
    ensures next1 == NextMean(m1, n as real, d) && next2 == NextCoMoment(m2, n as real, d - m1, d - m1)
  {
    var delta := d - m1;
    var deltaN := delta / n as real;
    next1 := m1 + deltaN;
    next2 := m2 + delta * deltaN * n1 as real;
    ScaledDelta(delta, n as real, n1 as real);
  }

  lemma ScaledDelta(delta: real, n: real, n1: real)
    requires n > 0.0 && n1 == n - 1.0
    ensures delta * (delta / n) * n1 == (n - 1.0) / n * delta * delta
  {
    var q, r := delta / n, n1 / n;
    assert q * n == delta && r * n == n1;
    assert r * delta == r * (q * n) == q * (r * n) == q * n1;
  }

  /** `processStatistical`. */
  method ProcessStatistical(query: Query, workers: nat) returns (inliers: seq<nat>, outliers: seq<nat>)
    requires query.Valid() && query.sqrDists != [] && workers > 0
    ensures Partitions(query, |query.sqrDists|, inliers, outliers)
  {
    hide Mean, CoMoment, Partitions, MeanDistances, Threshold, Times;
    var np := |query.sqrDists|;
    var distances := new real[np](_ => 0.0);
    MeanRows(query, workers, distances);
    var n, m1, m2 := OnlineMoments(distances);
    var variance := if n == 1 then None else Some(m2 / (n as real - 1.0));
    var threshold := if variance.None? then None else Some(m1 + Times(query.multiplier, query.Root(variance.value)));
    assert variance == Variance(MeanDistances(query));
    ThresholdFound(query, variance);
    assert variance.Some? ==> threshold.value == Threshold(query).value;
    inliers, outliers := [], [];
    NoRows(query);
    var i := 0;
    while i < np
      invariant 0 <= i <= np && distances[..] == MeanDistances(query)
      invariant Partitions(query, i, inliers, outliers)
    {
      PartitionsNext(query, i, inliers, outliers);
      assert distances[..][i] == distances[i];
      if threshold.Some? && distances[i] < threshold.value {
        inliers := inliers + [i];
      } else {
        outliers := outliers + [i];
      }
      i := i + 1;
    }
  }

  lemma ThresholdFound(query: Query, variance: Option<real>)
    requires query.Valid() && query.sqrDists != [] && Variance(MeanDistances(query)) == variance
    ensures Threshold(query).Some? == variance.Some?
    ensures variance.Some? ==>
      Threshold(query).value == Mean(MeanDistances(query)) + Times(query.multiplier, query.Root(variance.value))
  {
  }

  lemma NoRows(query: Query)
    requires query.Valid()
    ensures Partitions(query, 0, [], [])
  {
  }

  /** `run` marks the outliers, unless there is no inlier. */
  method Run(query: Query, workers: nat, noise: int, classification: array<int>)
    returns (ghost mu: seq<real>, ghost mean: real, ghost sd: real)
    requires query.Valid() && classification.Length == |query.sqrDists| && workers > 0
    modifies classification
    ensures classification.Length <= 1 ==>
      forall i :: 0 <= i < classification.Length ==> classification[i] == old(classification[i])
    ensures classification.Length > 1 ==>
      && Statistics(query.sqrDists, mu, mean, sd) && |mu| == classification.Length
      && forall i :: 0 <= i < classification.Length ==>
        classification[i] == if Far(mu, mean, sd, query.multiplier, i) then noise else old(classification[i])
    ensures forall i :: 0 <= i < classification.Length ==>
      classification[i] == if i in Marked(query) then noise else old(classification[i])
    ensures query.multiplier >= 0.0 && query.sqrDists != [] ==>
      |Marked(query)| as real * (query.multiplier * query.multiplier) <= |query.sqrDists| as real - 1.0
  {
    hide Inlier, Threshold, Statistics, Far;
    if classification.Length > 1 {
      mu, mean, sd := MarkedMeaning(query);
    } else {
      mu, mean, sd := [], 0.0, 0.0;
      SingleRow(query);
    }
    if query.multiplier >= 0.0 && query.sqrDists != [] {
      FewMarked(query);
    }
    if classification.Length == 0 {
      return;
    }
    var inliers, outliers := ProcessStatistical(query, workers);
    if inliers == [] {
      assert !AnyInlier(query);
      return;
    }
    assert inliers[0] in inliers;
    var k := 0;
    while k < |outliers|
      invariant 0 <= k <= |outliers|
      invariant forall i :: 0 <= i < classification.Length ==>
        classification[i] == if i in outliers[..k] then noise else old(classification[i])
    {
      assert outliers[k] in outliers;
      assert outliers[..k + 1] == outliers[..k] + [outliers[k]];
      classification[outliers[k]] := noise;
      k := k + 1;
    }
    assert outliers[..k] == outliers;
  }

  ghost predicate AnyInlier(query: Query)
    requires query.Valid()
  {
    exists i :: 0 <= i < |query.sqrDists| && Inlier(query, i)
  }

  ghost function Outliers(query: Query): set<nat>
    requires query.Valid()
  {
    set i: nat | i < |query.sqrDists| && !Inlier(query, i)
  }

  /** The rows that a run marks. */
  ghost function Marked(query: Query): set<nat>
    requires query.Valid()
  {
    if AnyInlier(query) then Outliers(query) else {}
  }

  // ----- the statistics without the functions above

  /** ds are the roots of all but the first of the given squares. */
  ghost predicate Roots(sqr: seq<real>, ds: seq<real>) {
    |sqr| == |ds| + 1 && forall j :: 0 <= j < |ds| && sqr[j + 1] >= 0.0 ==> ds[j] >= 0.0 && ds[j] * ds[j] == sqr[j + 1]
  }

  ghost predicate RowAverage(sqr: seq<real>, m: real) {
    exists ds :: Roots(sqr, ds) && m == if ds == [] then 0.0 else Sum(ds) / |ds| as real
  }

  /** mu are the mean distances of the rows, mean is their mean, and sd is the root of the sum of their squared
      deviations by one less than their number. */
  ghost predicate Statistics(sqrDists: seq<seq<real>>, mu: seq<real>, mean: real, sd: real) {
    var n := |sqrDists|;
    && |mu| == n >= 2
    && (forall i :: 0 <= i < n ==> RowAverage(sqrDists[i], mu[i]))
    && mean == Sum(mu) / n as real
    && sd >= 0.0
    && sd * sd == Sum(seq(n, i requires 0 <= i < n => (mu[i] - mean) * (mu[i] - mean))) / (n as real - 1.0)
  }

  /** Row i is at least the multiplier of standard deviations above the mean, and another row is not. */
  ghost predicate Far(mu: seq<real>, mean: real, sd: real, multiplier: real, i: nat)
    requires i < |mu|
  {
    mean + multiplier * sd <= mu[i] && exists k :: 0 <= k < |mu| && mu[k] < mean + multiplier * sd
  }

  lemma RowAverageFound(query: Query, i: nat)
    requires query.Valid() && i < |query.sqrDists|
    ensures RowAverage(query.sqrDists[i], MeanDistances(query)[i])
  {
    var ds := Distances(query, i);
    forall j | 0 <= j < |ds| && query.sqrDists[i][j + 1] >= 0.0
      ensures ds[j] >= 0.0 && ds[j] * ds[j] == query.sqrDists[i][j + 1]
    {
      RootOf(query, query.sqrDists[i][j + 1]);
    }
    assert Roots(query.sqrDists[i], ds);
  }

  /** The mean distances, their mean and the root of their variance. */
  lemma StatisticsFound(query: Query) returns (mu: seq<real>, mean: real, sd: real)
    requires query.Valid() && |query.sqrDists| >= 2
    ensures Statistics(query.sqrDists, mu, mean, sd) && mu == MeanDistances(query)
    ensures Threshold(query).Some? && Threshold(query).value == mean + query.multiplier * sd
  {
    hide MeanDistances, CoMoment, Deviations, RowAverage, Sum;
    mu := MeanDistances(query);
    mean := Mean(mu);
    var v := Variance(mu).value;
    NoNegativeVariance(mu);
    sd := query.Root(v);
    RootOf(query, v);
    VarianceSum(mu);
    forall i | 0 <= i < |mu| ensures RowAverage(query.sqrDists[i], mu[i]) {
      RowAverageFound(query, i);
    }
    ThresholdFound(query, Some(v));
  }

  lemma VarianceSum(mu: seq<real>)
    requires |mu| >= 2
    ensures var n, mean := |mu|, Mean(mu);
            Variance(mu) == Some(Sum(seq(n, i requires 0 <= i < n => (mu[i] - mean) * (mu[i] - mean)))
                                 / (n as real - 1.0))
  {
    var n, mean := |mu|, Mean(mu);
    hide Mean, Deviations, Sum;
    CoMomentIs(mu, mu);
    hide CoMoment;
    DeviationsSum(mu, mu, mean, mean);
    var squares := seq(n, i requires 0 <= i < n => (mu[i] - mean) * (mu[i] - mean));
    forall i | 0 <= i < n ensures Products(mu, mu, mean, mean)[i] == squares[i] {
      assert Term(mu[i], mu[i], mean, mean) == (mu[i] - mean) * (mu[i] - mean);
    }
    assert Products(mu, mu, mean, mean) == squares;
  }

  lemma NoNegativeVariance(mu: seq<real>)
    requires |mu| >= 2
    ensures Variance(mu).Some? && Variance(mu).value >= 0.0
  {
    hide Mean, Deviations, Times;
    CoMomentIs(mu, mu);
    SpreadAtLeast(mu, Mean(mu), 0);
    Square(mu[0] - Mean(mu));
  }

  /** The rows that a run marks: those that are not below the threshold, if any row is below it. */
  lemma MarkedMeaning(query: Query) returns (mu: seq<real>, mean: real, sd: real)
    requires query.Valid() && |query.sqrDists| >= 2
    ensures Statistics(query.sqrDists, mu, mean, sd) && |mu| == |query.sqrDists|
    ensures forall i: nat :: i < |mu| ==>
      (i in Marked(query) <==> Far(mu, mean, sd, query.multiplier, i))
  {
    hide *;
    mu, mean, sd := StatisticsFound(query);
    forall i: nat | i < |mu| ensures i in Marked(query) <==> Far(mu, mean, sd, query.multiplier, i) {
      FarIs(mu, mean, sd, query.multiplier, Threshold(query).value, i);
      MarkedBy(query, i);
    }
  }

  lemma FarIs(mu: seq<real>, mean: real, sd: real, multiplier: real, t: real, i: nat)
    requires i < |mu| && t == mean + multiplier * sd
    ensures Far(mu, mean, sd, multiplier, i) <==> t <= mu[i] && exists k :: 0 <= k < |mu| && mu[k] < t
  {
  }

  lemma MarkedBy(query: Query, i: nat)
    requires query.Valid() && i < |query.sqrDists| && Threshold(query).Some?
    ensures var mu, t := MeanDistances(query), Threshold(query).value;
            i in Marked(query) <==> t <= mu[i] && exists k :: 0 <= k < |mu| && mu[k] < t
  {
    hide Threshold, MeanDistances;
    var mu, t := MeanDistances(query), Threshold(query).value;
    assert forall k: nat :: k < |mu| ==> (Inlier(query, k) <==> mu[k] < t);
  }

  lemma SingleRow(query: Query)
    requires query.Valid() && |query.sqrDists| <= 1
    ensures Marked(query) == {}
  {
    if |query.sqrDists| == 1 {
      assert Threshold(query).None?;
    }
  }

  // ----- what the threshold can and cannot do

  /** With rows that differ, the threshold is the mean plus the multiplier times a positive root. */
  lemma Reach(query: Query) returns (r: real)
    requires query.Valid() && !AllEqual(MeanDistances(query))
    ensures r >= 0.0 && Times(r, r) > 0.0 && query.sqrDists != []
    ensures Threshold(query).Some? && Threshold(query).value == Mean(MeanDistances(query)) + Times(query.multiplier, r)
    ensures CoMoment(MeanDistances(query), MeanDistances(query)) == Times(Times(r, r), |query.sqrDists| as real - 1.0)
  {
    hide *;
    var s := MeanDistances(query);
    var v := PositiveVariance(s);
    ThresholdFound(query, Variance(s));
    r := query.Root(v);
    RootOf(query, v);
  }

  lemma RootOf(query: Query, v: real)
    requires query.Valid() && v >= 0.0
    ensures query.Root(v) >= 0.0 && Times(query.Root(v), query.Root(v)) == v
  {
  }

  lemma PositiveVariance(s: seq<real>) returns (v: real)
    requires !AllEqual(s)
    ensures v > 0.0 && s != [] && Variance(s) == Some(v) && CoMoment(s, s) == Times(v, |s| as real - 1.0)
  {
    hide Mean, Deviations, Times;
    var i := BelowMean(s);
    PositiveSpread(s, Mean(s), i);
    var c, n := CoMoment(s, s), |s| as real - 1.0;
    hide CoMoment;
    v := Variance(s).value;
    QuotientPositive(c, n);
    TimesQuotient(c, n);
  }

  lemma TimesQuotient(c: real, n: real)
    requires n > 0.0
    ensures Times(c / n, n) == c
  {
  }

  lemma EqualVariance(s: seq<real>)
    requires |s| > 1 && AllEqual(s)
    ensures Variance(s).Some? && Variance(s).value == 0.0 && Mean(s) == s[0]
  {
    hide Times, Deviations, Sum;
    var n := |s| as real;
    SumConstant(s, s[0]);
    QuotientTimes(n, s[0]);
    assert Mean(s) == s[0];
    ZeroQuotient(n - 1.0);
  }

  lemma QuotientTimes(n: real, a: real)
    requires n > 0.0
    ensures Times(n, a) / n == a
  {
  }

  lemma ZeroQuotient(n: real)
    requires n > 0.0
    ensures 0.0 / n == 0.0
  {
  }

  lemma EqualThreshold(query: Query)
    requires query.Valid() && query.sqrDists != [] && AllEqual(MeanDistances(query))
    ensures Threshold(query).Some? ==> Threshold(query).value == MeanDistances(query)[0]
  {
    var s := MeanDistances(query);
    hide Mean, MeanDistances, CoMoment, Times;
    if |s| > 1 {
      EqualVariance(s);
      hide Variance, Threshold;
      ThresholdFound(query, Variance(s));
      RootOf(query, 0.0);
      NoReach(query.multiplier, query.Root(0.0));
    }
  }

  lemma NoReach(multiplier: real, r: real)
    requires Times(r, r) == 0.0
    ensures Times(multiplier, r) == 0.0
  {
    Square(r);
  }

  /** With a multiplier that is not negative the filter keeps something, and so marks what it does not keep,
      exactly when the rows differ. */
  lemma SomeInlierIff(query: Query)
    requires query.Valid() && query.multiplier >= 0.0
    ensures AnyInlier(query) <==> !AllEqual(MeanDistances(query))
  {
    hide Mean, MeanDistances, CoMoment, Threshold, Variance, Times;
    var s := MeanDistances(query);
    if !AllEqual(s) {
      var r := Reach(query);
      var i := BelowMean(s);
      Nonnegative(query.multiplier, r);
      assert Inlier(query, i);
    } else if |s| > 0 {
      EqualThreshold(query);
    }
  }

  lemma Nonnegative(a: real, b: real)
    requires a >= 0.0 && b >= 0.0
    ensures Times(a, b) >= 0.0
  {
  }

  /** Chebyshev's bound: if there is an inlier, few rows are outliers, however the points lie. */
  lemma FewOutliers(query: Query)
    requires query.Valid() && query.multiplier >= 0.0 && AnyInlier(query)
    ensures |Outliers(query)| as real * (query.multiplier * query.multiplier) <= |query.sqrDists| as real - 1.0
  {
    hide *;
    var m, n := query.multiplier, |query.sqrDists| as real - 1.0;
    SomeInlierIff(query);
    var r := Reach(query);
    Nonnegative(m, r);
    OutliersReach(query, Times(m, r));
    Chebyshev(|Outliers(query)| as real, m, r, n);
  }

  lemma OutliersReach(query: Query, reach: real)
    requires query.Valid() && query.sqrDists != [] && reach >= 0.0
    requires Threshold(query).Some? && Threshold(query).value == Mean(MeanDistances(query)) + reach
    ensures CoMoment(MeanDistances(query), MeanDistances(query)) >= Times(|Outliers(query)| as real,
      Times(reach, reach))
  {
    var s := MeanDistances(query);
    CoMomentIs(s, s);
    hide Mean, MeanDistances, Threshold, CoMoment, Deviations, Times;
    FarRows(s, Mean(s), reach, Outliers(query));
  }

  /** So a run marks few rows, whatever it is given: none if there is no inlier. */
  lemma FewMarked(query: Query)
    requires query.Valid() && query.multiplier >= 0.0 && query.sqrDists != []
    ensures |Marked(query)| as real * (query.multiplier * query.multiplier) <= |query.sqrDists| as real - 1.0
  {
    hide Outliers, AnyInlier;
    if AnyInlier(query) {
      FewOutliers(query);
    } else {
      assert |Marked(query)| == 0;
    }
  }
}
