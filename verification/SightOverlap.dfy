/** When the visibility test answers the question it is asked: whether the open segments from R to X and
    from S1 to S2 share a point. Without a determinant this takes a comparison that the code does not make.
 */
module SightOverlap {
  import opened Arithmetic
  import opened Visibility

  predicate Between(v: real, a: real, b: real) {
    a < v < b || b < v < a
  }

  function Lower(a: real, b: real): real {
    if a < b then a else b
  }

  function Upper(a: real, b: real): real {
    if a < b then b else a
  }

  /** The open intervals between a and b and between c and d share a point. */
  predicate Overlap(a: real, b: real, c: real, d: real) {
    Lower(a, b) < Upper(c, d) && Lower(c, d) < Upper(a, b) && a != b && c != d
  }

  /** The extents of the two segments overlap, along X or, if the line of sight has none there, along Y. */
  predicate ExtentsOverlap(X: Vec, S1: Vec, S2: Vec, R: Vec) {
    if X.x != R.x then Overlap(R.x, X.x, S1.x, S2.x) else Overlap(R.y, X.y, S1.y, S2.y)
  }

  /** p lies on the open segment from a to b, by comparisons; a segment that is a point holds that point. */
  predicate OnOpen(p: Vec, a: Vec, b: Vec) {
    if a == b then p == a
    else OnLine(p, a, b) && if a.x != b.x then Between(p.x, a.x, b.x) else Between(p.y, a.y, b.y)
  }

  /** Without a determinant the code answers right exactly on these inputs. */
  predicate RightWithoutDeterminant(X: Vec, S1: Vec, S2: Vec, R: Vec) {
    if X == R then !OnOpen(R, S1, S2)
    else if S1 == S2 then OnOpen(S1, R, X)
    else OnLine(S1, R, X) ==> ExtentsOverlap(X, S1, S2, R)
  }

  // ----- points of an open segment

  lemma BetweenShares(a: real, b: real, s: real)
    requires a != b
    ensures Between(Along(a, b, s), a, b) <==> 0.0 < s < 1.0
  {
    BeyondEnds(a, b, s);
    hide Along;
  }

  lemma ShareOf(v: real, a: real, b: real) returns (s: real)
    requires a != b
    ensures v == Along(a, b, s)
  {
    s := (v - a) / (b - a);
    assert s * (b - a) == v - a;
  }

  lemma InsideOnOpen(p: Vec, a: Vec, b: Vec, s: real)
    requires Inside(p, a, b, s)
    ensures OnOpen(p, a, b)
  {
    if a != b {
      InsideOnLine(a, b, s);
      hide Along, OnLine;
      if a.x != b.x {
        BetweenShares(a.x, b.x, s);
      } else {
        BetweenShares(a.y, b.y, s);
      }
    }
  }

  lemma InsideOnLine(a: Vec, b: Vec, s: real)
    ensures OnLine(Vec(Along(a.x, b.x, s), Along(a.y, b.y, s)), a, b)
  {
    var dx, dy := b.x - a.x, b.y - a.y;
    assert s * dx * dy == s * dy * dx;
  }

  lemma OnOpenInside(p: Vec, a: Vec, b: Vec) returns (s: real)
    requires OnOpen(p, a, b)
    ensures Inside(p, a, b, s)
  {
    hide OnLine, Along, Between;
    if a == b {
      s := 0.5;
      NoLength(a.x, s);
      NoLength(a.y, s);
    } else {
      LineProducts(p, a, b);
      hide Proportional;
      if a.x != b.x {
        s := ShareOf(p.x, a.x, b.x);
        OtherAxis(p.x, p.y, a.x, a.y, b.x, b.y, s);
        BetweenShares(a.x, b.x, s);
      } else {
        s := ShareOf(p.y, a.y, b.y);
        OtherAxis(p.y, p.x, a.y, a.x, b.y, b.x, s);
        BetweenShares(a.y, b.y, s);
      }
    }
  }

  lemma NoLength(a: real, s: real)
    ensures Along(a, a, s) == a
  {
  }

  ghost predicate Proportional(wx: real, wy: real, dx: real, dy: real) {
    wx * dy == wy * dx
  }

  lemma LineProducts(p: Vec, a: Vec, b: Vec)
    requires OnLine(p, a, b)
    ensures Proportional(p.x - a.x, p.y - a.y, b.x - a.x, b.y - a.y)
    ensures Proportional(p.y - a.y, p.x - a.x, b.y - a.y, b.x - a.x)
  {
  }

  /** The share found on one axis of a line holds on the other axis. */
  lemma OtherAxis(p: real, q: real, a: real, c: real, b: real, d: real, s: real)
    requires a != b && Proportional(p - a, q - c, b - a, d - c) && p == Along(a, b, s)
    ensures q == Along(c, d, s)
  {
    SameShare(p - a, q - c, b - a, d - c, s);
  }

  lemma SameShare(wx: real, wy: real, dx: real, dy: real, s: real)
    requires dx != 0.0 && Proportional(wx, wy, dx, dy) && s * dx == wx
    ensures wy == s * dy
  {
    assert (wy - s * dy) * dx == wy * dx - (s * dx) * dy;
    CancelFactor(wy - s * dy, dx);
  }

  lemma CancelFactor(a: real, b: real)
    requires b != 0.0 && a * b == 0.0
    ensures a == 0.0
  {
    ZeroProduct(a, b);
  }

  /** The segments block each other exactly if some point lies on both. */
  lemma BlockedCommon(X: Vec, S1: Vec, S2: Vec, R: Vec)
    ensures Blocked(X, S1, S2, R) <==> exists p: Vec :: OnOpen(p, R, X) && OnOpen(p, S1, S2)
  {
    hide OnOpen, Inside;
    if Blocked(X, S1, S2, R) {
      var p: Vec, s: real, t: real :| Inside(p, R, X, s) && Inside(p, S1, S2, t);
      InsideOnOpen(p, R, X, s);
      InsideOnOpen(p, S1, S2, t);
    }
    if p: Vec :| OnOpen(p, R, X) && OnOpen(p, S1, S2) {
      var s := OnOpenInside(p, R, X);
      var t := OnOpenInside(p, S1, S2);
    }
  }

  // ----- parallel segments

  /** With parallel d and e, a vector is parallel to d exactly if it is parallel to e. */
  lemma ParallelTransfer(w: Vec, d: Vec, e: Vec)
    requires Cross(d, e) == 0.0 && e != ZERO && Cross(w, e) == 0.0
    ensures Cross(w, d) == 0.0
  {
    var c := Cross(w, d);
    assert c * e.x == 0.0 by {
      assert c * e.x == (w.x * e.x) * d.y - (w.y * e.x) * d.x;
      assert (w.x * e.x) * d.y == w.x * (d.y * e.x) == w.x * (d.x * e.y) == (w.x * e.y) * d.x;
    }
    assert c * e.y == 0.0 by {
      assert c * e.y == (w.x * e.y) * d.y - (w.y * e.y) * d.x;
      assert (w.y * e.y) * d.x == w.y * (d.x * e.y) == w.y * (d.y * e.x) == (w.y * e.x) * d.y;
    }
    if e.x != 0.0 {
      CancelFactor(c, e.x);
    } else {
      CancelFactor(c, e.y);
    }
  }

  lemma CrossFlip(d: Vec, e: Vec)
    ensures Cross(d, e) == -Cross(e, d)
  {
  }

  lemma CrossShift(p: Vec, q: Vec, r: Vec, d: Vec)
    ensures Cross(Minus(p, r), d) == Cross(Minus(p, q), d) + Cross(Minus(q, r), d)
  {
  }

  /** If S1 lies on the line of sight and the segments are parallel, they lie on the same line. */
  lemma SameLine(p: Vec, X: Vec, S1: Vec, S2: Vec, R: Vec)
    requires X != R && S1 != S2 && Determinant(X, S1, S2, R) == 0.0 && OnLine(S1, R, X)
    ensures OnLine(p, R, X) <==> OnLine(p, S1, S2)
  {
    var d, e, w := Minus(X, R), Minus(S2, S1), Minus(p, S1);
    CrossShift(p, S1, R, d);
    CrossFlip(d, e);
    hide Cross;
    if OnLine(p, R, X) {
      ParallelTransfer(w, e, d);
    }
    if OnLine(p, S1, S2) {
      ParallelTransfer(w, d, e);
    }
  }

  /** If S1 does not, they have no common point. */
  lemma OtherLine(p: Vec, X: Vec, S1: Vec, S2: Vec, R: Vec)
    requires S1 != S2 && Determinant(X, S1, S2, R) == 0.0
    requires OnLine(p, R, X) && OnLine(p, S1, S2)
    ensures OnLine(S1, R, X)
  {
    var d, e, w := Minus(X, R), Minus(S2, S1), Minus(p, S1);
    CrossShift(p, S1, R, d);
    hide Cross;
    ParallelTransfer(w, d, e);
  }

  /** Parallel segments extend along the same axes. */
  lemma SameAxis(X: Vec, S1: Vec, S2: Vec, R: Vec)
    requires X != R && S1 != S2 && Determinant(X, S1, S2, R) == 0.0
    ensures X.x != R.x <==> S1.x != S2.x
  {
    var d, e := Minus(X, R), Minus(S2, S1);
    assert d.x * e.y == d.y * e.x;
    if d.x != 0.0 && e.x == 0.0 {
      CancelFactor(e.y, d.x);
    }
    if d.x == 0.0 && e.x != 0.0 {
      CancelFactor(d.y, e.x);
    }
  }

  // ----- overlapping intervals

  lemma OverlapCommon(v: real, a: real, b: real, c: real, d: real)
    requires Between(v, a, b) && Between(v, c, d)
    ensures Overlap(a, b, c, d)
  {
  }

  lemma OverlapMiddle(a: real, b: real, c: real, d: real) returns (v: real)
    requires Overlap(a, b, c, d)
    ensures Between(v, a, b) && Between(v, c, d)
  {
    var low := Upper(Lower(a, b), Lower(c, d));
    var high := Lower(Upper(a, b), Upper(c, d));
    v := (low + high) / 2.0;
  }

  /** On a common line the segments share a point exactly if their extents overlap. */
  lemma CollinearBlocked(X: Vec, S1: Vec, S2: Vec, R: Vec)
    requires X != R && S1 != S2 && Determinant(X, S1, S2, R) == 0.0 && OnLine(S1, R, X)
    ensures Blocked(X, S1, S2, R) <==> ExtentsOverlap(X, S1, S2, R)
  {
    hide Determinant, OnLine, Overlap, Between;
    BlockedCommon(X, S1, S2, R);
    SameAxis(X, S1, S2, R);
    if p: Vec :| OnOpen(p, R, X) && OnOpen(p, S1, S2) {
      if X.x != R.x {
        OverlapCommon(p.x, R.x, X.x, S1.x, S2.x);
      } else {
        OverlapCommon(p.y, R.y, X.y, S1.y, S2.y);
      }
    }
    if X.x != R.x {
      if Overlap(R.x, X.x, S1.x, S2.x) {
        var v := OverlapMiddle(R.x, X.x, S1.x, S2.x);
        var s := ShareOf(v, R.x, X.x);
        CommonPoint(X, S1, S2, R, s);
      }
    } else if Overlap(R.y, X.y, S1.y, S2.y) {
      var v := OverlapMiddle(R.y, X.y, S1.y, S2.y);
      var s := ShareOf(v, R.y, X.y);
      CommonPoint(X, S1, S2, R, s);
    }
  }

  lemma CommonPoint(X: Vec, S1: Vec, S2: Vec, R: Vec, s: real)
    requires X != R && S1 != S2 && Determinant(X, S1, S2, R) == 0.0 && OnLine(S1, R, X)
    requires (X.x != R.x <==> S1.x != S2.x)
    requires if X.x != R.x
             then Between(Along(R.x, X.x, s), R.x, X.x) && Between(Along(R.x, X.x, s), S1.x, S2.x)
             else Between(Along(R.y, X.y, s), R.y, X.y) && Between(Along(R.y, X.y, s), S1.y, S2.y)
    ensures exists p: Vec :: OnOpen(p, R, X) && OnOpen(p, S1, S2)
  {
    hide Determinant, OnLine, Between, Along;
    var p := Vec(Along(R.x, X.x, s), Along(R.y, X.y, s));
    InsideOnLine(R, X, s);
    SameLine(p, X, S1, S2, R);
    assert OnOpen(p, R, X) && OnOpen(p, S1, S2);
  }

  // ----- the exact condition

  /** Whether parallel or degenerate segments block each other. */
  lemma BlockedWithoutDeterminant(X: Vec, S1: Vec, S2: Vec, R: Vec)
    requires Determinant(X, S1, S2, R) == 0.0
    ensures Blocked(X, S1, S2, R) <==>
            if X == R then OnOpen(R, S1, S2)
            else if S1 == S2 then OnOpen(S1, R, X)
            else OnLine(S1, R, X) && ExtentsOverlap(X, S1, S2, R)
  {
    BlockedCommon(X, S1, S2, R);
    hide Determinant, OnLine, ExtentsOverlap, Between, Blocked;
    if X != R && S1 != S2 {
      if OnLine(S1, R, X) {
        CollinearBlocked(X, S1, S2, R);
      } else if p: Vec :| OnOpen(p, R, X) && OnOpen(p, S1, S2) {
        OtherLine(p, X, S1, S2, R);
      }
    }
  }

  /** The code answers right exactly if there is a determinant, or if comparing the extents of the segments
      on their common line gives what it answers. */
  lemma RightIff(X: Vec, S1: Vec, S2: Vec, R: Vec)
    ensures (IsVisible(X, S1, S2, R) <==> !Blocked(X, S1, S2, R)) <==>
            Determinant(X, S1, S2, R) != 0.0 || RightWithoutDeterminant(X, S1, S2, R)
  {
    hide Determinant, OnLine, ExtentsOverlap, OnOpen, Blocked, IsVisible;
    if Determinant(X, S1, S2, R) != 0.0 {
      VisibleIffNotBlocked(X, S1, S2, R);
    } else {
      ZeroDeterminant(X, S1, S2, R);
      BlockedWithoutDeterminant(X, S1, S2, R);
    }
  }

  /** A line of sight that is a point counts as visible even if it lies on the obstacle, for instance the
      origin between -1 and 1. */
  lemma PointOnTheObstacle(a: real, b: real)
    requires a < 0.0 < b
    ensures IsVisible(ZERO, Vec(a, 0.0), Vec(b, 0.0), ZERO)
    ensures Blocked(ZERO, Vec(a, 0.0), Vec(b, 0.0), ZERO)
  {
    var S1, S2 := Vec(a, 0.0), Vec(b, 0.0);
    assert Determinant(ZERO, S1, S2, ZERO) == 0.0;
    assert OnOpen(ZERO, S1, S2);
    hide Determinant, OnLine, Blocked, IsVisible, OnOpen;
    ZeroDeterminant(ZERO, S1, S2, ZERO);
    BlockedWithoutDeterminant(ZERO, S1, S2, ZERO);
  }

  /** Parallel segments on different lines are answered right, for instance at (1, 0), (0, 1), (1, 1). */
  lemma BesideTheLine(X: Vec, S1: Vec, S2: Vec, R: Vec)
    requires X != R && S1 != S2 && Determinant(X, S1, S2, R) == 0.0 && !OnLine(S1, R, X)
    ensures IsVisible(X, S1, S2, R) && !Blocked(X, S1, S2, R)
  {
    hide Determinant, OnLine, Blocked, IsVisible;
    ZeroDeterminant(X, S1, S2, R);
    BlockedWithoutDeterminant(X, S1, S2, R);
  }
}
