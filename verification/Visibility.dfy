/** `isVisible` of the greedy projection filter: can X be seen from R past the segment S1-S2?
    Coordinates are exact reals. The two divisions by the determinant follow IEEE 754, so that the
    function has a result when the determinant is zero.
 */
module Visibility {

  datatype Vec = Vec(x: real, y: real)

  const ZERO := Vec(0.0, 0.0)

  datatype Double = Finite(r: real) | PosInf | NegInf | NaN {
    /** `this <= v` */
    predicate AtMost(v: real) {
      (Finite? && r <= v) || NegInf?
    }

    /** `this >= v` */
    predicate AtLeast(v: real) {
      (Finite? && r >= v) || PosInf?
    }
  }

  function Divide(n: real, d: real): Double {
    if d != 0.0 then Finite(n / d)
    else if n > 0.0 then PosInf
    else if n < 0.0 then NegInf
    else NaN
  }

  /** The intersection (x, y) of the two lines does not lie strictly between R and X. */
  predicate OutsideXR(X: Vec, R: Vec, x: Double, y: Double) {
    if X.x > R.x then x.AtMost(R.x) || x.AtLeast(X.x)
    else if X.x < R.x then x.AtLeast(R.x) || x.AtMost(X.x)
    else if X.y > R.y then y.AtMost(R.y) || y.AtLeast(X.y)
    else if X.y < R.y then y.AtLeast(R.y) || y.AtMost(X.y)
    else true
  }

  /** The same test on the path for R at the origin. */
  predicate OutsideX(X: Vec, x: Double, y: Double) {
    if X.x > 0.0 then x.AtMost(0.0) || x.AtLeast(X.x)
    else if X.x < 0.0 then x.AtLeast(0.0) || x.AtMost(X.x)
    else if X.y > 0.0 then y.AtMost(0.0) || y.AtLeast(X.y)
    else if X.y < 0.0 then y.AtLeast(0.0) || y.AtMost(X.y)
    else true
  }

  predicate OutsideS(S1: Vec, S2: Vec, x: Double, y: Double) {
    if S1.x > S2.x then x.AtMost(S2.x) || x.AtLeast(S1.x)
    else if S1.x < S2.x then x.AtLeast(S2.x) || x.AtMost(S1.x)
    else if S1.y > S2.y then y.AtMost(S2.y) || y.AtLeast(S1.y)
    else if S1.y < S2.y then y.AtLeast(S2.y) || y.AtMost(S1.y)
    else false
  }

  /** Equal, or infinite with either sign: dividing by a negative zero instead of a positive one swaps them. */
  predicate UpToSign(x: Double, y: Double) {
    x == y || (x.PosInf? && y.NegInf?) || (x.NegInf? && y.PosInf?)
  }

  /** The sign of a zero divisor does not change the outcome of a test. */
  lemma SignOfZero(X: Vec, S1: Vec, S2: Vec, R: Vec, x: Double, y: Double, x': Double, y': Double)
    requires UpToSign(x, x') && UpToSign(y, y')
    ensures OutsideXR(X, R, x, y) <==> OutsideXR(X, R, x', y')
    ensures OutsideX(X, x, y) <==> OutsideX(X, x', y')
    ensures OutsideS(S1, S2, x, y) <==> OutsideS(S1, S2, x', y')
  {
  }

  /** The line a*x + b*y + c == 0. */
  datatype Line = Line(a: real, b: real, c: real)

  function SegmentLine(S1: Vec, S2: Vec): Line {
    Line(S1.y - S2.y, S2.x - S1.x, S1.x * S2.y - S2.x * S1.y)
  }

  /** The line of sight; the terms of R are added only if R is not the origin. */
  function SightLine(X: Vec, R: Vec): Line {
    if R != ZERO then Line(-X.y + R.y, X.x - R.x, R.x * X.y - X.x * R.y) else Line(-X.y, X.x, 0.0)
  }

  function Div(l0: Line, l1: Line): real {
    l0.a * l1.b - l0.b * l1.a
  }

  function DividendX(l0: Line, l1: Line): real {
    l0.b * l1.c - l1.b * l0.c
  }

  function DividendY(l0: Line, l1: Line): real {
    l1.a * l0.c - l0.a * l1.c
  }

  function MeetX(l0: Line, l1: Line): Double {
    Divide(DividendX(l0, l1), Div(l0, l1))
  }

  function MeetY(l0: Line, l1: Line): Double {
    Divide(DividendY(l0, l1), Div(l0, l1))
  }

  predicate IsVisible(X: Vec, S1: Vec, S2: Vec, R: Vec) {
    var l0, l1 := SegmentLine(S1, S2), SightLine(X, R);
    var x, y := MeetX(l0, l1), MeetY(l0, l1);
    var outsideXR := if R == ZERO then OutsideX(X, x, y) else OutsideXR(X, R, x, y);
    outsideXR || OutsideS(S1, S2, x, y)
  }

  // ----- the geometric meaning

  function Minus(p: Vec, q: Vec): Vec {
    Vec(p.x - q.x, p.y - q.y)
  }

  function Cross(p: Vec, q: Vec): real {
    p.x * q.y - p.y * q.x
  }

  /** The point a share s of the way from a to b, on one axis. */
  function Along(a: real, b: real, s: real): real {
    a + s * (b - a)
  }

  /** p lies strictly between the ends of the segment from a to b. */
  ghost predicate Inside(p: Vec, a: Vec, b: Vec, s: real) {
    0.0 < s < 1.0 && p == Vec(Along(a.x, b.x, s), Along(a.y, b.y, s))
  }

  /** The open segments from R to X and from S1 to S2 share a point. */
  ghost predicate Blocked(X: Vec, S1: Vec, S2: Vec, R: Vec) {
    exists p: Vec, s: real, t: real :: Inside(p, R, X, s) && Inside(p, S1, S2, t)
  }

  /** Zero exactly when one of the segments is a point or the two are parallel. */
  function Determinant(X: Vec, S1: Vec, S2: Vec, R: Vec): real {
    Cross(Minus(X, R), Minus(S2, S1))
  }

  /** p lies on the line through R and X. */
  predicate OnLine(p: Vec, R: Vec, X: Vec) {
    Cross(Minus(p, R), Minus(X, R)) == 0.0
  }

  function GeneralSight(X: Vec, R: Vec): Line {
    Line(R.y - X.y, X.x - R.x, R.x * X.y - X.x * R.y)
  }

  /** The code without the special path for R at the origin. */
  predicate GeneralPath(X: Vec, S1: Vec, S2: Vec, R: Vec) {
    var l0, l1 := SegmentLine(S1, S2), GeneralSight(X, R);
    var x, y := MeetX(l0, l1), MeetY(l0, l1);
    OutsideXR(X, R, x, y) || OutsideS(S1, S2, x, y)
  }

  /** The path for R at the origin agrees with the general one. */
  lemma PathsAgree(X: Vec, S1: Vec, S2: Vec, R: Vec)
    ensures IsVisible(X, S1, S2, R) <==> GeneralPath(X, S1, S2, R)
  {
    hide MeetX, MeetY, OutsideS, SegmentLine;
    assert SightLine(X, R) == GeneralSight(X, R);
  }

  // ----- with a determinant

  /** How far along its segment each line meets the other. */
  function SightParam(X: Vec, S1: Vec, S2: Vec, R: Vec): real
    requires Determinant(X, S1, S2, R) != 0.0
  {
    Cross(Minus(S1, R), Minus(S2, S1)) / Determinant(X, S1, S2, R)
  }

  function SegmentParam(X: Vec, S1: Vec, S2: Vec, R: Vec): real
    requires Determinant(X, S1, S2, R) != 0.0
  {
    Cross(Minus(S1, R), Minus(X, R)) / Determinant(X, S1, S2, R)
  }

  lemma CoefficientDivision(X: Vec, S1: Vec, S2: Vec, R: Vec)
    ensures Div(SegmentLine(S1, S2), GeneralSight(X, R)) == -Determinant(X, S1, S2, R)
  {
  }

  /** The numerators, written from either segment. */
  lemma Numerators(X: Vec, S1: Vec, S2: Vec, R: Vec)
    ensures var l0, l1 := SegmentLine(S1, S2), GeneralSight(X, R);
            var det := Determinant(X, S1, S2, R);
            var s, t := Cross(Minus(S1, R), Minus(S2, S1)), Cross(Minus(S1, R), Minus(X, R));
            && -DividendX(l0, l1) == R.x * det + s * (X.x - R.x) == S1.x * det + t * (S2.x - S1.x)
            && -DividendY(l0, l1) == R.y * det + s * (X.y - R.y) == S1.y * det + t * (S2.y - S1.y)
  {
  }

  lemma DivideOut(n: real, base: real, k: real, m: real, det: real)
    requires det != 0.0 && -n == base * det + k * m
    ensures n / -det == base + k / det * m
  {
    var q := k / det;
    assert q * det == k;
    assert -n == (base + q * m) * det by {
      assert (base + q * m) * det == base * det + (q * det) * m;
    }
    CancelNegated(n, base + q * m, det);
  }

  lemma CancelNegated(n: real, v: real, det: real)
    requires det != 0.0 && -n == v * det
    ensures n / -det == v
  {
  }

  /** The computed intersection, written along either segment. */
  lemma MeetPoint(X: Vec, S1: Vec, S2: Vec, R: Vec)
    requires Determinant(X, S1, S2, R) != 0.0
    ensures var l0, l1 := SegmentLine(S1, S2), GeneralSight(X, R);
            var s, t := SightParam(X, S1, S2, R), SegmentParam(X, S1, S2, R);
            && MeetX(l0, l1) == Finite(Along(R.x, X.x, s)) == Finite(Along(S1.x, S2.x, t))
            && MeetY(l0, l1) == Finite(Along(R.y, X.y, s)) == Finite(Along(S1.y, S2.y, t))
  {
    hide *;
    var l0, l1 := SegmentLine(S1, S2), GeneralSight(X, R);
    var det := Determinant(X, S1, S2, R);
    var sn, tn := Cross(Minus(S1, R), Minus(S2, S1)), Cross(Minus(S1, R), Minus(X, R));
    Dividends(X, S1, S2, R);
    Quotients(X, S1, S2, R);
    MeetOn(DividendX(l0, l1), R.x, X.x, sn, det);
    MeetOn(DividendX(l0, l1), S1.x, S2.x, tn, det);
    MeetOn(DividendY(l0, l1), R.y, X.y, sn, det);
    MeetOn(DividendY(l0, l1), S1.y, S2.y, tn, det);
  }

  /** The dividend n belongs to the point k / det of the way from a to b. */
  ghost predicate Splits(n: real, a: real, b: real, k: real, det: real) {
    -n == a * det + k * (b - a)
  }

  lemma Dividends(X: Vec, S1: Vec, S2: Vec, R: Vec)
    ensures var l0, l1 := SegmentLine(S1, S2), GeneralSight(X, R);
            var det := Determinant(X, S1, S2, R);
            var s, t := Cross(Minus(S1, R), Minus(S2, S1)), Cross(Minus(S1, R), Minus(X, R));
            && Splits(DividendX(l0, l1), R.x, X.x, s, det) && Splits(DividendX(l0, l1), S1.x, S2.x, t, det)
            && Splits(DividendY(l0, l1), R.y, X.y, s, det) && Splits(DividendY(l0, l1), S1.y, S2.y, t, det)
  {
    hide DividendX, DividendY, SegmentLine, GeneralSight, Determinant, Cross, Minus;
    Numerators(X, S1, S2, R);
  }

  /** The intersection and the parameters are the quotients of the code. */
  lemma Quotients(X: Vec, S1: Vec, S2: Vec, R: Vec)
    requires Determinant(X, S1, S2, R) != 0.0
    ensures var l0, l1 := SegmentLine(S1, S2), GeneralSight(X, R);
            var det := Determinant(X, S1, S2, R);
            && MeetX(l0, l1) == Divide(DividendX(l0, l1), -det) && MeetY(l0, l1) == Divide(DividendY(l0, l1), -det)
            && SightParam(X, S1, S2, R) == Cross(Minus(S1, R), Minus(S2, S1)) / det
            && SegmentParam(X, S1, S2, R) == Cross(Minus(S1, R), Minus(X, R)) / det
  {
    hide SegmentLine, GeneralSight, Determinant, Cross, Div, DividendX, DividendY;
    CoefficientDivision(X, S1, S2, R);
  }

  lemma MeetOn(n: real, a: real, b: real, k: real, det: real)
    requires det != 0.0 && Splits(n, a, b, k, det)
    ensures Divide(n, -det) == Finite(Along(a, b, k / det))
  {
    DivideOut(n, a, k, b - a, det);
  }

  /** The comparisons of the code ask whether a share lies outside (0, 1). */
  lemma BeyondEnds(a: real, b: real, s: real)
    ensures a < b ==> (Along(a, b, s) <= a || Along(a, b, s) >= b <==> !(0.0 < s < 1.0))
    ensures b < a ==> (Along(a, b, s) >= a || Along(a, b, s) <= b <==> !(0.0 < s < 1.0))
  {
    var p := Share(s, b - a);
    var q := Share(1.0 - s, b - a);
    Shares(s, b - a);
    SharesBeyond(a, b, s, p, q);
  }

  lemma Share(s: real, delta: real) returns (p: real)
    ensures p == s * delta
    ensures delta > 0.0 ==> (s > 0.0 <==> p > 0.0)
    ensures delta < 0.0 ==> (s > 0.0 <==> p < 0.0)
  {
    p := s * delta;
  }

  lemma Shares(s: real, delta: real)
    ensures s * delta + (1.0 - s) * delta == delta
  {
  }

  /** p and q are the two parts of b - a. */
  lemma SharesBeyond(a: real, b: real, s: real, p: real, q: real)
    requires p + q == b - a
    requires a < b ==> (s > 0.0 <==> p > 0.0) && (s < 1.0 <==> q > 0.0)
    requires b < a ==> (s > 0.0 <==> p < 0.0) && (s < 1.0 <==> q < 0.0)
    ensures a < b ==> (a + p <= a || a + p >= b <==> !(0.0 < s < 1.0))
    ensures b < a ==> (a + p >= a || a + p <= b <==> !(0.0 < s < 1.0))
  {
  }

  /** Both tests of the code, in terms of the parameters. */
  lemma TestsMeaning(X: Vec, S1: Vec, S2: Vec, R: Vec)
    requires Determinant(X, S1, S2, R) != 0.0
    ensures var l0, l1 := SegmentLine(S1, S2), GeneralSight(X, R);
            && (OutsideXR(X, R, MeetX(l0, l1), MeetY(l0, l1)) <==> !(0.0 < SightParam(X, S1, S2, R) < 1.0))
            && (OutsideS(S1, S2, MeetX(l0, l1), MeetY(l0, l1)) <==> !(0.0 < SegmentParam(X, S1, S2, R) < 1.0))
  {
    var s, t := SightParam(X, S1, S2, R), SegmentParam(X, S1, S2, R);
    MeetPoint(X, S1, S2, R);
    SegmentsProper(X, S1, S2, R);
    hide *;
    OutsideXRMeaning(X, R, s);
    OutsideSMeaning(S1, S2, t);
  }

  lemma OutsideXRMeaning(X: Vec, R: Vec, s: real)
    requires X.x != R.x || X.y != R.y
    ensures OutsideXR(X, R, Finite(Along(R.x, X.x, s)), Finite(Along(R.y, X.y, s))) <==> !(0.0 < s < 1.0)
  {
    hide Along;
    BeyondEnds(R.x, X.x, s);
    BeyondEnds(R.y, X.y, s);
  }

  lemma OutsideSMeaning(S1: Vec, S2: Vec, t: real)
    requires S1.x != S2.x || S1.y != S2.y
    ensures OutsideS(S1, S2, Finite(Along(S1.x, S2.x, t)), Finite(Along(S1.y, S2.y, t))) <==> !(0.0 < t < 1.0)
  {
    hide Along;
    BeyondEnds(S1.x, S2.x, t);
    BeyondEnds(S1.y, S2.y, t);
  }

  lemma SegmentsProper(X: Vec, S1: Vec, S2: Vec, R: Vec)
    requires Determinant(X, S1, S2, R) != 0.0
    ensures (X.x != R.x || X.y != R.y) && (S1.x != S2.x || S1.y != S2.y)
  {
  }

  /** The open segments meet exactly when both parameters lie strictly between 0 and 1. */
  lemma BlockedParams(X: Vec, S1: Vec, S2: Vec, R: Vec)
    requires Determinant(X, S1, S2, R) != 0.0
    ensures Blocked(X, S1, S2, R) <==> 0.0 < SightParam(X, S1, S2, R) < 1.0 && 0.0 < SegmentParam(X, S1, S2, R) < 1.0
  {
    var s, t := SightParam(X, S1, S2, R), SegmentParam(X, S1, S2, R);
    hide Determinant, MeetX, MeetY, SegmentLine, GeneralSight, SightParam, SegmentParam, Along;
    if 0.0 < s < 1.0 && 0.0 < t < 1.0 {
      MeetPoint(X, S1, S2, R);
      var p := Vec(Along(R.x, X.x, s), Along(R.y, X.y, s));
      assert Inside(p, R, X, s) && Inside(p, S1, S2, t);
    }
    if Blocked(X, S1, S2, R) {
      var p: Vec, s': real, t': real :| Inside(p, R, X, s') && Inside(p, S1, S2, t');
      ParamsUnique(X, S1, S2, R, p, s', t');
    }
  }

  lemma ParamsUnique(X: Vec, S1: Vec, S2: Vec, R: Vec, p: Vec, s: real, t: real)
    requires Determinant(X, S1, S2, R) != 0.0
    requires p == Vec(Along(R.x, X.x, s), Along(R.y, X.y, s))
    requires p == Vec(Along(S1.x, S2.x, t), Along(S1.y, S2.y, t))
    ensures s == SightParam(X, S1, S2, R) && t == SegmentParam(X, S1, S2, R)
  {
    var det := Determinant(X, S1, S2, R);
    var d, e, w := Minus(X, R), Minus(S2, S1), Minus(S1, R);
    assert s * d.x == w.x + t * e.x && s * d.y == w.y + t * e.y;
    hide Cross, Along;
    CramerFirst(d, e, w, s, t);
    CramerSecond(d, e, w, s, t);
    Quotient(s, det, Cross(w, e));
    Quotient(t, det, Cross(w, d));
  }

  lemma Quotient(s: real, det: real, n: real)
    requires det != 0.0 && s * det == n
    ensures s == n / det
  {
  }

  lemma CramerFirst(d: Vec, e: Vec, w: Vec, s: real, t: real)
    requires s * d.x == w.x + t * e.x && s * d.y == w.y + t * e.y
    ensures s * Cross(d, e) == Cross(w, e)
  {
    assert s * Cross(d, e) == (s * d.x) * e.y - (s * d.y) * e.x;
    assert (w.x + t * e.x) * e.y - (w.y + t * e.y) * e.x == Cross(w, e);
  }

  lemma CramerSecond(d: Vec, e: Vec, w: Vec, s: real, t: real)
    requires s * d.x == w.x + t * e.x && s * d.y == w.y + t * e.y
    ensures t * Cross(d, e) == Cross(w, d)
  {
    assert t * Cross(d, e) == d.x * (t * e.y) - d.y * (t * e.x);
    assert d.x * (s * d.y - w.y) - d.y * (s * d.x - w.x) == Cross(w, d);
  }

  /** With a non-zero determinant the code answers exactly whether the open segments share a point. */
  lemma VisibleIffNotBlocked(X: Vec, S1: Vec, S2: Vec, R: Vec)
    requires Determinant(X, S1, S2, R) != 0.0
    ensures IsVisible(X, S1, S2, R) <==> !Blocked(X, S1, S2, R)
  {
    hide *;
    PathsAgree(X, S1, S2, R);
    TestsMeaning(X, S1, S2, R);
    BlockedParams(X, S1, S2, R);
    GeneralPathTests(X, S1, S2, R);
  }

  lemma GeneralPathTests(X: Vec, S1: Vec, S2: Vec, R: Vec)
    ensures var l0, l1 := SegmentLine(S1, S2), GeneralSight(X, R);
            var x, y := MeetX(l0, l1), MeetY(l0, l1);
            GeneralPath(X, S1, S2, R) <==> OutsideXR(X, R, x, y) || OutsideS(S1, S2, x, y)
  {
  }

  // ----- without a determinant

  lemma ZeroProduct(a: real, b: real)
    requires a * b == 0.0
    ensures a == 0.0 || b == 0.0
  {
  }

  /** A zero determinant makes the quotients infinite or undefined: the answer is then "not visible"
      exactly when the obstacle is a point or lies on the line of sight. */
  lemma ZeroDeterminant(X: Vec, S1: Vec, S2: Vec, R: Vec)
    requires Determinant(X, S1, S2, R) == 0.0
    ensures !IsVisible(X, S1, S2, R) <==> X != R && (S1 == S2 || OnLine(S1, R, X))
  {
    hide *;
    var nx, ny := NumeratorX(X, S1, S2, R), NumeratorY(X, S1, S2, R);
    var sn, tn := Cross(Minus(S1, R), Minus(S2, S1)), Cross(Minus(S1, R), Minus(X, R));
    PathsAgree(X, S1, S2, R);
    GeneralPathTests(X, S1, S2, R);
    NumeratorsFlat(X, S1, S2, R);
    Undefined(X, S1, S2, R, nx, ny);
    if X != R {
      Vanishing(X, S1, S2, R, nx, ny, sn, tn);
    }
  }

  function NumeratorX(X: Vec, S1: Vec, S2: Vec, R: Vec): real {
    DividendX(SegmentLine(S1, S2), GeneralSight(X, R))
  }

  function NumeratorY(X: Vec, S1: Vec, S2: Vec, R: Vec): real {
    DividendY(SegmentLine(S1, S2), GeneralSight(X, R))
  }

  lemma NumeratorsFlat(X: Vec, S1: Vec, S2: Vec, R: Vec)
    requires Determinant(X, S1, S2, R) == 0.0
    ensures var l0, l1 := SegmentLine(S1, S2), GeneralSight(X, R);
            var nx, ny := NumeratorX(X, S1, S2, R), NumeratorY(X, S1, S2, R);
            var sn, tn := Cross(Minus(S1, R), Minus(S2, S1)), Cross(Minus(S1, R), Minus(X, R));
            && MeetX(l0, l1) == Divide(nx, 0.0) && MeetY(l0, l1) == Divide(ny, 0.0)
            && -nx == sn * (X.x - R.x) == tn * (S2.x - S1.x)
            && -ny == sn * (X.y - R.y) == tn * (S2.y - S1.y)
  {
    CoefficientDivision(X, S1, S2, R);
    Numerators(X, S1, S2, R);
    hide Determinant, SegmentLine, GeneralSight, Cross, Div;
  }

  /** What the comparisons make of infinite or undefined quotients. */
  lemma Undefined(X: Vec, S1: Vec, S2: Vec, R: Vec, nx: real, ny: real)
    requires Determinant(X, S1, S2, R) == 0.0
    ensures OutsideXR(X, R, Divide(nx, 0.0), Divide(ny, 0.0)) || OutsideS(S1, S2, Divide(nx, 0.0), Divide(ny, 0.0)) <==>
            X == R || (if X.x != R.x then nx != 0.0 else ny != 0.0)
  {
    var dx, dy, ex, ey := X.x - R.x, X.y - R.y, S2.x - S1.x, S2.y - S1.y;
    assert dx * ey == dy * ex;
    if dx != 0.0 && ex == 0.0 {
      ZeroProduct(dx, ey);
    }
    if dx == 0.0 && dy != 0.0 {
      ZeroProduct(dy, ex);
    }
  }

  lemma Vanishing(X: Vec, S1: Vec, S2: Vec, R: Vec, nx: real, ny: real, sn: real, tn: real)
    requires X != R
    requires sn == Cross(Minus(S1, R), Minus(S2, S1)) && tn == Cross(Minus(S1, R), Minus(X, R))
    requires -nx == sn * (X.x - R.x) == tn * (S2.x - S1.x)
    requires -ny == sn * (X.y - R.y) == tn * (S2.y - S1.y)
    ensures (if X.x != R.x then nx == 0.0 else ny == 0.0) <==> S1 == S2 || OnLine(S1, R, X)
  {
    if (if X.x != R.x then nx == 0.0 else ny == 0.0) {
      ZeroProduct(sn, if X.x != R.x then X.x - R.x else X.y - R.y);
      assert tn * (S2.x - S1.x) == 0.0 && tn * (S2.y - S1.y) == 0.0;
      ZeroProduct(tn, S2.x - S1.x);
      ZeroProduct(tn, S2.y - S1.y);
    }
  }

  /** The answer of the code on every input. */
  lemma Characterization(X: Vec, S1: Vec, S2: Vec, R: Vec)
    ensures !IsVisible(X, S1, S2, R) <==>
            X != R && (if Determinant(X, S1, S2, R) != 0.0 then Blocked(X, S1, S2, R) else S1 == S2 || OnLine(S1, R, X))
  {
    if Determinant(X, S1, S2, R) != 0.0 {
      VisibleIffNotBlocked(X, S1, S2, R);
      SegmentsProper(X, S1, S2, R);
    } else {
      ZeroDeterminant(X, S1, S2, R);
    }
  }

  /** On a common line the code answers "not visible" whatever the order of the points: here the
      obstacle lies behind the point looked at, for instance at a, b, c = 1, 2, 3. */
  lemma BehindOnTheSameLine(a: real, b: real, c: real)
    requires 0.0 < a <= b < c
    ensures !IsVisible(Vec(a, 0.0), Vec(b, 0.0), Vec(c, 0.0), ZERO)
    ensures !Blocked(Vec(a, 0.0), Vec(b, 0.0), Vec(c, 0.0), ZERO)
  {
    hide IsVisible, Blocked;
    var X, S1, S2 := Vec(a, 0.0), Vec(b, 0.0), Vec(c, 0.0);
    assert Determinant(X, S1, S2, ZERO) == 0.0 && OnLine(S1, ZERO, X);
    ZeroDeterminant(X, S1, S2, ZERO);
    NotBlockedBehind(X, S1, S2);
  }

  lemma NotBlockedBehind(X: Vec, S1: Vec, S2: Vec)
    requires 0.0 < X.x <= S1.x < S2.x
    ensures !Blocked(X, S1, S2, ZERO)
  {
    forall p: Vec, s: real, t: real | Inside(p, ZERO, X, s) ensures !Inside(p, S1, S2, t) {
      SharesApart(X.x, S1.x, S2.x, s, t);
    }
  }

  lemma SharesApart(a: real, b: real, c: real, s: real, t: real)
    requires 0.0 < a <= b < c && 0.0 < s < 1.0
    ensures t > 0.0 ==> Along(0.0, a, s) < Along(b, c, t)
  {
    var p := Share(1.0 - s, a);
    var q := Share(t, c - b);
  }

  // ----- symmetries

  lemma BlockedSymmetric(X: Vec, S1: Vec, S2: Vec, R: Vec)
    ensures Blocked(X, S1, S2, R) ==> Blocked(X, S2, S1, R) && Blocked(R, S1, S2, X)
  {
    if Blocked(X, S1, S2, R) {
      var p: Vec, s: real, t: real :| Inside(p, R, X, s) && Inside(p, S1, S2, t);
      InsideReversed(p, R, X, s);
      InsideReversed(p, S1, S2, t);
    }
  }

  lemma InsideReversed(p: Vec, a: Vec, b: Vec, s: real)
    requires Inside(p, a, b, s)
    ensures Inside(p, b, a, 1.0 - s)
  {
  }

  /** The answer does not change when the ends of the obstacle or the ends of the line of sight are swapped. */
  lemma VisibleSymmetric(X: Vec, S1: Vec, S2: Vec, R: Vec)
    ensures IsVisible(X, S1, S2, R) <==> IsVisible(X, S2, S1, R)
    ensures IsVisible(X, S1, S2, R) <==> IsVisible(R, S1, S2, X)
  {
    Characterization(X, S1, S2, R);
    Characterization(X, S2, S1, R);
    Characterization(R, S1, S2, X);
    BlockedSymmetric(X, S1, S2, R);
    BlockedSymmetric(X, S2, S1, R);
    BlockedSymmetric(R, S1, S2, X);
    DeterminantSymmetric(X, S1, S2, R);
  }

  lemma DeterminantSymmetric(X: Vec, S1: Vec, S2: Vec, R: Vec)
    ensures Determinant(X, S2, S1, R) == -Determinant(X, S1, S2, R) == Determinant(R, S1, S2, X)
    ensures Determinant(X, S1, S2, R) == 0.0 ==> (OnLine(S1, R, X) <==> OnLine(S2, R, X))
    ensures OnLine(S1, R, X) <==> OnLine(S1, X, R)
  {
    var d := Minus(X, R);
    assert Cross(Minus(S2, R), d) == Cross(Minus(S1, R), d) + Cross(Minus(S2, S1), d);
    assert Cross(Minus(S2, S1), d) == -Determinant(X, S1, S2, R);
    assert Cross(Minus(S1, X), Minus(R, X)) == -Cross(Minus(S1, R), d);
  }
}
