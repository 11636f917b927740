/** `filters.optimalneighborhood`: the neighbourhood size with the least eigenentropy, over covariances that
    two loops update one neighbour at a time.
 */
module OptimalNeighborhood {
  import opened Options
  import opened Moments

  datatype Point3 = Point3(x: real, y: real, z: real)

  datatype Matrix = Matrix(xx: real, xy: real, xz: real, yx: real, yy: real, yz: real, zx: real, zy: real, zz: real)

  /** What the eigen decomposition of a matrix leads to; the entropy is no number if an eigenvalue is 0. */
  datatype Entropy = Value(value: real) | NotANumber | Failed

  function Xs(ps: seq<Point3>): (s: seq<real>)
    ensures |s| == |ps|
  {
    seq(|ps|, i requires 0 <= i < |ps| => ps[i].x)
  }

  function Ys(ps: seq<Point3>): (s: seq<real>)
    ensures |s| == |ps|
  {
    seq(|ps|, i requires 0 <= i < |ps| => ps[i].y)
  }

  function Zs(ps: seq<Point3>): (s: seq<real>)
    ensures |s| == |ps|
  {
    seq(|ps|, i requires 0 <= i < |ps| => ps[i].z)
  }

  lemma Axes(ps: seq<Point3>, q: Point3)
    ensures Xs(ps + [q]) == Xs(ps) + [q.x]
    ensures Ys(ps + [q]) == Ys(ps) + [q.y]
    ensures Zs(ps + [q]) == Zs(ps) + [q.z]
  {
  }

  /** The co-moments of every pair of axes. */
  function Scatter(ps: seq<Point3>): Matrix {
    var xs, ys, zs := Xs(ps), Ys(ps), Zs(ps);
    Matrix(CoMoment(xs, xs), CoMoment(xs, ys), CoMoment(xs, zs),
           CoMoment(ys, xs), CoMoment(ys, ys), CoMoment(ys, zs),
           CoMoment(zs, xs), CoMoment(zs, ys), CoMoment(zs, zs))
  }

  function Divided(b: Matrix, d: real): Matrix
    requires d != 0.0
  {
    Matrix(b.xx / d, b.xy / d, b.xz / d, b.yx / d, b.yy / d, b.yz / d, b.zx / d, b.zy / d, b.zz / d)
  }

  /** The sample covariance; a single point has none, because it divides by 0. */
  function SampleCovariance(ps: seq<Point3>): Option<Matrix>
    requires ps != []
  {
    if |ps| == 1 then None else Some(Divided(Scatter(ps), (|ps| - 1) as real))
  }

  /** The running mean and the matrix B. */
  datatype Running = Running(mx: real, my: real, mz: real, b: Matrix)

  ghost predicate Summarizes(run: Running, ps: seq<Point3>) {
    run.mx == Mean(Xs(ps)) && run.my == Mean(Ys(ps)) && run.mz == Mean(Zs(ps)) && run.b == Scatter(ps)
  }

  lemma SummarizesNothing()
    ensures Summarizes(Running(0.0, 0.0, 0.0, Matrix(0.0, 0.0, 0.0, 0.0, 0.0, 0.0, 0.0, 0.0, 0.0)), [])
  {
  }

  /** The matrix B after the n-th neighbour, which deviates from the old means by dx, dy and dz. */
  ghost predicate Updated(b: Matrix, next: Matrix, n: real, dx: real, dy: real, dz: real)
    requires n > 0.0
  {
    && next.xx == NextCoMoment(b.xx, n, dx, dx) && next.yy == NextCoMoment(b.yy, n, dy, dy)
    && next.zz == NextCoMoment(b.zz, n, dz, dz) && next.xy == NextCoMoment(b.xy, n, dx, dy)
    && next.xz == NextCoMoment(b.xz, n, dx, dz) && next.zy == NextCoMoment(b.zy, n, dy, dz)
    && next.yx == next.xy && next.zx == next.xz && next.yz == next.zy
  }

  /** The six updates together give the co-moments of one point more. */
  lemma ScatterNext(ps: seq<Point3>, q: Point3)
    ensures Updated(Scatter(ps), Scatter(ps + [q]), (|ps| + 1) as real,
              q.x - Mean(Xs(ps)), q.y - Mean(Ys(ps)), q.z - Mean(Zs(ps)))
  {
    var xs, ys, zs := Xs(ps), Ys(ps), Zs(ps);
    hide Mean, CoMoment, NextCoMoment, Xs, Ys, Zs;
    Axes(ps, q);
    CoMomentNext(xs, xs, q.x, q.x);
    CoMomentNext(ys, ys, q.y, q.y);
    CoMomentNext(zs, zs, q.z, q.z);
    CoMomentNext(xs, ys, q.x, q.y);
    CoMomentNext(xs, zs, q.x, q.z);
    CoMomentNext(ys, zs, q.y, q.z);
    ScatterSymmetric(ps);
    ScatterSymmetric(ps + [q]);
  }

  lemma ScatterSymmetric(ps: seq<Point3>)
    ensures Scatter(ps).xy == Scatter(ps).yx && Scatter(ps).xz == Scatter(ps).zx && Scatter(ps).yz == Scatter(ps).zy
  {
    var xs, ys, zs := Xs(ps), Ys(ps), Zs(ps);
    hide CoMoment, Xs, Ys, Zs;
    CoMomentSymmetric(xs, ys);
    CoMomentSymmetric(xs, zs);
    CoMomentSymmetric(ys, zs);
  }

  /** The new running means and the new matrix are those of one point more. */
  lemma SummarizesNext(run: Running, ps: seq<Point3>, q: Point3, next: Running)
    requires Summarizes(run, ps)
    requires var n := (|ps| + 1) as real;
             && next.mx == NextMean(run.mx, n, q.x)
             && next.my == NextMean(run.my, n, q.y)
             && next.mz == NextMean(run.mz, n, q.z)
             && Updated(run.b, next.b, n, q.x - run.mx, q.y - run.my, q.z - run.mz)
    ensures Summarizes(next, ps + [q])
  {
    var xs, ys, zs := Xs(ps), Ys(ps), Zs(ps);
    hide Mean, NextMean, NextCoMoment, Scatter, Xs, Ys, Zs;
    Axes(ps, q);
    MeanNext(xs, q.x);
    MeanNext(ys, q.y);
    MeanNext(zs, q.z);
    ScatterNext(ps, q);
    ScatterSymmetric(ps);
    UpdatedUnique(run.b, next.b, Scatter(ps + [q]), (|ps| + 1) as real, q.x - run.mx, q.y - run.my, q.z - run.mz);
  }

  lemma UpdatedUnique(b: Matrix, next: Matrix, other: Matrix, n: real, dx: real, dy: real, dz: real)
    requires n > 0.0 && Updated(b, next, n, dx, dy, dz) && Updated(b, other, n, dx, dy, dz)
    ensures next == other
  {
    hide NextCoMoment;
  }

  /** The body of both loops: k neighbours are in, q is the next one. */
  method AddNeighbor(run: Running, q: Point3, k: nat, ghost ps: seq<Point3>) returns (next: Running)
    requires |ps| == k && Summarizes(run, ps)
    ensures Summarizes(next, ps + [q])
  {
    var dx, dy, dz := q.x - run.mx, q.y - run.my, q.z - run.mz;
    var n := (k + 1) as real;
    var mx, my, mz := run.mx + dx / n, run.my + dy / n, run.mz + dz / n;
    hide Summarizes;
    var b := UpdateMatrix(run.b, n, dx, dy, dz);
    next := Running(mx, my, mz, b);
    hide Updated;
    SummarizesNext(run, ps, q, next);
  }

  /** The statements that update B. */
  method UpdateMatrix(b0: Matrix, n: real, dx: real, dy: real, dz: real) returns (b: Matrix)
    requires n > 0.0
    ensures Updated(b0, b, n, dx, dy, dz)
  {
    hide NextCoMoment, Added;
    var s := (n - 1.0) / n;
    b := b0;
    b := b.(xx := Added(b.xx, s, dx, dx));
    b := b.(yy := Added(b.yy, s, dy, dy));
    b := b.(zz := Added(b.zz, s, dz, dz));
    var xy, xz, zy := Added(b.xy, s, dx, dy), Added(b.xz, s, dx, dz), Added(b.zy, s, dy, dz);
    b := b.(yx := xy, xy := xy);
    b := b.(zx := xz, xz := xz);
    b := b.(yz := zy, zy := zy);
    AddedNext(n);
  }

  function Added(c: real, s: real, d: real, e: real): real {
    c + s * d * e
  }

  lemma AddedNext(n: real)
    requires n > 0.0
    ensures forall c, d, e :: Added(c, (n - 1.0) / n, d, e) == NextCoMoment(c, n, d, e)
  {
  }

  /** The entropy of the k nearest neighbours. */
  function EntropyOf(entropy: Option<Matrix> -> Entropy, ps: seq<Point3>, k: nat): Entropy
    requires 1 <= k <= |ps|
  {
    entropy(SampleCovariance(ps[..k]))
  }

  /** Among the sizes in [from, to), kopt is the first with the least entropy; it is 0 if no size has
      an entropy below the highest double. */
  ghost predicate Optimal(entropy: Option<Matrix> -> Entropy, highest: real, ps: seq<Point3>, from: nat, to: nat,
    kopt: nat)
    requires 1 <= from && to <= |ps| + 1
  {
    if kopt == 0 then
      forall k :: from <= k < to && EntropyOf(entropy, ps, k).Value? ==> EntropyOf(entropy, ps, k).value >= highest
    else
      && from <= kopt < to && EntropyOf(entropy, ps, kopt).Value?
      && EntropyOf(entropy, ps, kopt).value < highest
      && (forall k :: from <= k < to && EntropyOf(entropy, ps, k).Value? ==>
            EntropyOf(entropy, ps, k).value >= EntropyOf(entropy, ps, kopt).value)
      && (forall k :: from <= k < kopt && EntropyOf(entropy, ps, k).Value? ==>
            EntropyOf(entropy, ps, k).value > EntropyOf(entropy, ps, kopt).value)
  }

  lemma OptimalUnique(entropy: Option<Matrix> -> Entropy, highest: real, ps: seq<Point3>, from: nat, to: nat, j: nat,
    k: nat)
    requires 1 <= from && to <= |ps| + 1
    requires Optimal(entropy, highest, ps, from, to, j) && Optimal(entropy, highest, ps, from, to, k)
    ensures j == k
  {
    hide EntropyOf;
  }

  /** The entropy that a later size has to fall below. */
  ghost function Least(entropy: Option<Matrix> -> Entropy, highest: real, ps: seq<Point3>, kopt: nat): real
    requires kopt <= |ps|
  {
    if kopt > 0 && EntropyOf(entropy, ps, kopt).Value? then EntropyOf(entropy, ps, kopt).value else highest
  }

  lemma OptimalNext(entropy: Option<Matrix> -> Entropy, highest: real, ps: seq<Point3>, from: nat, k: nat, kopt: nat)
    requires 1 <= from <= k <= |ps| && kopt < k && Optimal(entropy, highest, ps, from, k, kopt)
    ensures var e := EntropyOf(entropy, ps, k);
            var lower := e.Value? && e.value < Least(entropy, highest, ps, kopt);
            Optimal(entropy, highest, ps, from, k + 1, if lower then k else kopt)
  {
    hide EntropyOf;
  }

  // ----- the same without the functions above

  /** c is the sample covariance of xs and ys: the sum of the products of their deviations from their means,
      by one less than their number. */
  ghost predicate Covariance(xs: seq<real>, ys: seq<real>, c: real) {
    var n := |xs|;
    && n == |ys| >= 2
    && var mx, my := Sum(xs) / n as real, Sum(ys) / n as real;
       c == Sum(seq(n, i requires 0 <= i < n => (xs[i] - mx) * (ys[i] - my))) / (n as real - 1.0)
  }

  ghost predicate CovarianceMatrix(ps: seq<Point3>, m: Matrix) {
    var xs := seq(|ps|, i requires 0 <= i < |ps| => ps[i].x);
    var ys := seq(|ps|, i requires 0 <= i < |ps| => ps[i].y);
    var zs := seq(|ps|, i requires 0 <= i < |ps| => ps[i].z);
    && Covariance(xs, xs, m.xx) && Covariance(xs, ys, m.xy) && Covariance(xs, zs, m.xz)
    && Covariance(ys, xs, m.yx) && Covariance(ys, ys, m.yy) && Covariance(ys, zs, m.yz)
    && Covariance(zs, xs, m.zx) && Covariance(zs, ys, m.zy) && Covariance(zs, zs, m.zz)
  }

  /** es[k] is the entropy of the covariance of the first k points, of no matrix for k = 1. */
  ghost predicate Entropies(entropy: Option<Matrix> -> Entropy, ps: seq<Point3>, es: seq<Entropy>) {
    && |es| == |ps| + 1
    && (|ps| > 0 ==> es[1] == entropy(None))
    && forall k :: 2 <= k <= |ps| ==> CovarianceEntropy(entropy, ps[..k], es[k])
  }

  ghost predicate CovarianceEntropy(entropy: Option<Matrix> -> Entropy, ps: seq<Point3>, e: Entropy) {
    exists m :: CovarianceMatrix(ps, m) && e == entropy(Some(m))
  }

  /** Of the sizes from kMin to kMax, kopt is the first one of the least entropy, or 0 if none has an entropy
      below the highest. */
  predicate FirstLeast(es: seq<Entropy>, highest: real, kMin: nat, kMax: nat, kopt: nat)
    requires kMax < |es|
  {
    && (kopt == 0 ==> forall k :: kMin <= k <= kMax && es[k].Value? ==> highest <= es[k].value)
    && (kopt > 0 ==>
      && kMin <= kopt <= kMax && es[kopt].Value? && es[kopt].value < highest
      && (forall k :: kMin <= k < kopt && es[k].Value? ==> es[kopt].value < es[k].value)
      && (forall k :: kopt < k <= kMax && es[k].Value? ==> es[kopt].value <= es[k].value))
  }

  lemma CovarianceFound(xs: seq<real>, ys: seq<real>)
    requires |xs| == |ys| >= 2
    ensures Covariance(xs, ys, CoMoment(xs, ys) / (|xs| - 1) as real)
  {
    var n := |xs|;
    var mx, my := Mean(xs), Mean(ys);
    hide Deviations, Sum;
    CoMomentIs(xs, ys);
    hide CoMoment;
    DeviationsSum(xs, ys, mx, my);
    var products := seq(n, i requires 0 <= i < n => (xs[i] - mx) * (ys[i] - my));
    forall i | 0 <= i < n ensures Products(xs, ys, mx, my)[i] == products[i] {
      assert Term(xs[i], ys[i], mx, my) == (xs[i] - mx) * (ys[i] - my);
    }
    assert Products(xs, ys, mx, my) == products;
  }

  lemma SampleCovarianceMeaning(ps: seq<Point3>)
    requires |ps| >= 2
    ensures SampleCovariance(ps).Some? && CovarianceMatrix(ps, SampleCovariance(ps).value)
  {
    hide CoMoment, Covariance;
    var xs, ys, zs := Xs(ps), Ys(ps), Zs(ps);
    CovarianceFound(xs, xs);
    CovarianceFound(xs, ys);
    CovarianceFound(xs, zs);
    CovarianceFound(ys, xs);
    CovarianceFound(ys, ys);
    CovarianceFound(ys, zs);
    CovarianceFound(zs, xs);
    CovarianceFound(zs, ys);
    CovarianceFound(zs, zs);
  }

  /** The entropies of all sizes. */
  lemma EntropiesFound(entropy: Option<Matrix> -> Entropy, ps: seq<Point3>) returns (es: seq<Entropy>)
    ensures Entropies(entropy, ps, es) && |es| == |ps| + 1
    ensures forall k :: 1 <= k <= |ps| ==> es[k] == EntropyOf(entropy, ps, k)
  {
    hide CovarianceMatrix;
    es := seq(|ps| + 1, k requires 0 <= k <= |ps| => if k == 0 then NotANumber else EntropyOf(entropy, ps, k));
    forall k | 2 <= k <= |ps| ensures CovarianceEntropy(entropy, ps[..k], es[k]) {
      SampleCovarianceMeaning(ps[..k]);
      assert es[k] == entropy(Some(SampleCovariance(ps[..k]).value));
    }
    if ps != [] {
      assert SampleCovariance(ps[..1]) == None;
    }
  }

  lemma OptimalMeaning(entropy: Option<Matrix> -> Entropy, highest: real, ps: seq<Point3>, es: seq<Entropy>,
    kMin: nat, kopt: nat)
    requires 1 <= kMin && |es| == |ps| + 1 && Optimal(entropy, highest, ps, kMin, |ps| + 1, kopt)
    requires forall k :: 1 <= k <= |ps| ==> es[k] == EntropyOf(entropy, ps, k)
    ensures FirstLeast(es, highest, kMin, |ps|, kopt)
  {
    hide EntropyOf;
  }

  /** The decomposition fails for some size. */
  ghost predicate Fails(entropy: Option<Matrix> -> Entropy, ps: seq<Point3>, from: nat, to: nat)
    requires 1 <= from && to <= |ps| + 1
  {
    exists k :: from <= k < to && EntropyOf(entropy, ps, k).Failed?
  }

  /** One point: ps are its neighbours, nearest first. The result is None if a decomposition fails. */
  method Optimize(entropy: Option<Matrix> -> Entropy, highest: real, ps: seq<Point3>, dists: seq<real>, kMin: nat,
    kMax: nat)
    returns (result: Option<(nat, real)>, ghost es: seq<Entropy>)
    requires |ps| == |dists| == kMax && 1 <= kMin <= kMax + 1
    ensures Entropies(entropy, ps, es) && |es| == kMax + 1
    ensures result.None? <==> exists k :: kMin <= k <= kMax && es[k].Failed?
    ensures result.Some? ==> FirstLeast(es, highest, kMin, kMax, result.value.0)
    ensures result.None? <==> Fails(entropy, ps, kMin, kMax + 1)
    ensures result.Some? ==>
      && result.value.0 <= kMax && Optimal(entropy, highest, ps, kMin, kMax + 1, result.value.0)
      && result.value.1 == if result.value.0 == 0 then 0.0 else dists[result.value.0 - 1]
  {
    hide Summarizes, EntropyOf, Optimal, SampleCovariance, Entropies, FirstLeast;
    es := EntropiesFound(entropy, ps);
    NothingOptimal(entropy, highest, ps, kMin);
    var minentropy, kopt, ropt := highest, 0, 0.0;
    var run := Running(0.0, 0.0, 0.0, Matrix(0.0, 0.0, 0.0, 0.0, 0.0, 0.0, 0.0, 0.0, 0.0));
    SummarizesNothing();
    assert ps[..0] == [];
    var k := 0;
    while k < kMin - 1
      invariant 0 <= k <= kMin - 1
      invariant Summarizes(run, ps[..k])
    {
      run := AddNeighbor(run, ps[k], k, ps[..k]);
      assert ps[..k + 1] == ps[..k] + [ps[k]];
      k := k + 1;
    }
    while k < kMax
      invariant kMin - 1 <= k <= kMax
      invariant Summarizes(run, ps[..k])
      invariant !Fails(entropy, ps, kMin, k + 1)
      invariant kopt <= k && Optimal(entropy, highest, ps, kMin, k + 1, kopt)
      invariant minentropy == Least(entropy, highest, ps, kopt)
      invariant ropt == if kopt == 0 then 0.0 else dists[kopt - 1]
    {
      run := AddNeighbor(run, ps[k], k, ps[..k]);
      assert ps[..k + 1] == ps[..k] + [ps[k]];
      var n := (k + 1) as real;
      var e := entropy(if n == 1.0 then None else Some(Divided(run.b, n - 1.0)));
      EntropyFound(run, entropy, ps, k + 1);
      OptimalNext(entropy, highest, ps, kMin, k + 1, kopt);
      if e.Failed? {
        return None, es;
      }
      if e.Value? && e.value < minentropy {
        minentropy, kopt, ropt := e.value, k + 1, dists[k];
      }
      k := k + 1;
    }
    result := Some((kopt, ropt));
    OptimalMeaning(entropy, highest, ps, es, kMin, kopt);
  }

  lemma NothingOptimal(entropy: Option<Matrix> -> Entropy, highest: real, ps: seq<Point3>, from: nat)
    requires 1 <= from <= |ps| + 1
    ensures Optimal(entropy, highest, ps, from, from, 0)
  {
  }

  lemma EntropyFound(run: Running, entropy: Option<Matrix> -> Entropy, ps: seq<Point3>, k: nat)
    requires 1 <= k <= |ps| && Summarizes(run, ps[..k])
    ensures EntropyOf(entropy, ps, k) == entropy(if k == 1 then None else Some(Divided(run.b, k as real - 1.0)))
  {
  }

  /** What `filter` reads: for every row its kMax nearest neighbours and their squared distances. A view of
      fewer points leaves id 0 and distance 0 at the end of each list. */
  datatype Query = Query(ids: seq<seq<nat>>, dists: seq<seq<real>>, kMin: nat, kMax: nat) {
    ghost predicate Valid(view: seq<Point3>) {
      && |ids| == |dists| == |view| && 1 <= kMin <= kMax + 1
      && forall i :: 0 <= i < |view| ==> && |ids[i]| == |dists[i]| == kMax
                                         && forall k :: 0 <= k < kMax ==> ids[i][k] < |view|
    }
  }

  function Neighborhood(query: Query, view: seq<Point3>, i: nat): (ps: seq<Point3>)
    requires query.Valid(view) && i < |view|
    ensures |ps| == query.kMax
  {
    seq(query.kMax, k requires 0 <= k < query.kMax => view[query.ids[i][k]])
  }

  /** Row i holds its optimal size and the radius of that neighbourhood. */
  ghost predicate RowOptimal(query: Query, view: seq<Point3>, entropy: Option<Matrix> -> Entropy, highest: real,
    sqrt: real -> real, i: nat, knn: nat, radius: real)
    requires query.Valid(view) && i < |view|
  {
    && knn <= query.kMax
    && Optimal(entropy, highest, Neighborhood(query, view, i), query.kMin, query.kMax + 1, knn)
    && radius == sqrt(if knn == 0 then 0.0 else query.dists[i][knn - 1])
  }

  /** The same in terms of the view: the neighbours, the entropies of their covariances and the first least. */
  ghost predicate RowChosen(query: Query, view: seq<Point3>, entropy: Option<Matrix> -> Entropy, highest: real,
    sqrt: real -> real, i: nat, knn: nat, radius: real)
    requires query.Valid(view) && i < |view|
  {
    && (exists ps, es ::
      && |ps| == query.kMax && (forall k :: 0 <= k < |ps| ==> ps[k] == view[query.ids[i][k]])
      && Entropies(entropy, ps, es) && FirstLeast(es, highest, query.kMin, query.kMax, knn))
    && knn <= query.kMax
    && radius == sqrt(if knn == 0 then 0.0 else query.dists[i][knn - 1])
  }

  lemma RowMeaning(query: Query, view: seq<Point3>, entropy: Option<Matrix> -> Entropy, highest: real,
    sqrt: real -> real, i: nat, knn: nat, radius: real, es: seq<Entropy>)
    requires query.Valid(view) && i < |view| && knn <= query.kMax
    requires Entropies(entropy, Neighborhood(query, view, i), es)
    requires FirstLeast(es, highest, query.kMin, query.kMax, knn)
    requires radius == sqrt(if knn == 0 then 0.0 else query.dists[i][knn - 1])
    ensures RowChosen(query, view, entropy, highest, sqrt, i, knn, radius)
  {
    hide FirstLeast;
    var ps := Neighborhood(query, view, i);
    assert |ps| == query.kMax && forall k :: 0 <= k < |ps| ==> ps[k] == view[query.ids[i][k]];
  }

  ghost predicate RowFails(query: Query, view: seq<Point3>, entropy: Option<Matrix> -> Entropy, i: nat)
    requires query.Valid(view) && i < |view|
  {
    Fails(entropy, Neighborhood(query, view, i), query.kMin, query.kMax + 1)
  }

  /** `filter` stops with an error at the first row where a decomposition fails. */
  method Filter(query: Query, view: seq<Point3>, entropy: Option<Matrix> -> Entropy, highest: real, sqrt: real -> real,
                knn: array<nat>, radius: array<real>) returns (done: nat)
    requires query.Valid(view) && knn.Length == radius.Length == |view|
    modifies knn, radius
    ensures done <= |view|
    ensures forall i :: 0 <= i < done ==> RowOptimal(query, view, entropy, highest, sqrt, i, knn[i], radius[i])
    ensures forall i :: 0 <= i < done ==> RowChosen(query, view, entropy, highest, sqrt, i, knn[i], radius[i])
    ensures forall i :: done <= i < |view| ==> knn[i] == old(knn[i]) && radius[i] == old(radius[i])
    ensures done < |view| ==> RowFails(query, view, entropy, done)
    ensures forall i :: 0 <= i < done ==> !RowFails(query, view, entropy, i)
  {
    hide Optimal, Fails, Neighborhood, Entropies, FirstLeast, RowChosen;
    done := 0;
    while done < |view|
      invariant 0 <= done <= |view|
      invariant forall i :: 0 <= i < done ==> RowOptimal(query, view, entropy, highest, sqrt, i, knn[i], radius[i])
      invariant forall i :: 0 <= i < done ==> RowChosen(query, view, entropy, highest, sqrt, i, knn[i], radius[i])
      invariant forall i :: done <= i < |view| ==> knn[i] == old(knn[i]) && radius[i] == old(radius[i])
      invariant forall i :: 0 <= i < done ==> !RowFails(query, view, entropy, i)
    {
      var result;
      ghost var es;
      result, es := Optimize(entropy, highest, Neighborhood(query, view, done), query.dists[done], query.kMin,
        query.kMax);
      if result.None? {
        return;
      }
      knn[done], radius[done] := result.value.0, sqrt(result.value.1);
      RowMeaning(query, view, entropy, highest, sqrt, done, knn[done], radius[done], es);
      done := done + 1;
    }
  }
}
