/** `filters.litree`: trees are cut out of the cloud one after the other, each around the highest point
    that is left. The radius searches are parameters or arbitrary choices.
 */
module LiTree {
  import opened Arithmetic

  datatype Point = Point(x: real, y: real, hag: real)

  ghost predicate Distinct(s: seq<nat>) {
    forall i, j :: 0 <= i < j < |s| ==> s[i] != s[j]
  }

  ghost predicate Within(s: seq<nat>, n: nat) {
    forall i :: 0 <= i < |s| ==> s[i] < n
  }

  ghost predicate Disjoint(s: seq<nat>, t: seq<nat>) {
    forall p :: p in s ==> p !in t
  }

  // ----- classification of one point

  function SqrDist(view: seq<Point>, p: nat, q: nat): real
    requires p < |view| && q < |view|
  {
    (view[q].x - view[p].x) * (view[q].x - view[p].x) + (view[q].y - view[p].y) * (view[q].y - view[p].y)
  }

  /** The squared distance from p to the nearest point of a list; the root that the source takes does
      not change any comparison. */
  method MinDist(view: seq<Point>, p: nat, s: seq<nat>) returns (m: real)
    requires p < |view| && s != [] && Within(s, |view|)
    ensures IsMinDist(view, p, s, m)
  {
    m := SqrDist(view, p, s[0]);
    var i := 0;
    while i < |s|
      invariant 0 <= i <= |s|
      invariant exists q :: q in s && m == SqrDist(view, p, q)
      invariant forall j :: 0 <= j < i ==> m <= SqrDist(view, p, s[j])
    {
      if SqrDist(view, p, s[i]) < m {
        m := SqrDist(view, p, s[i]);
      }
      i := i + 1;
    }
  }

  ghost predicate IsMinDist(view: seq<Point>, p: nat, s: seq<nat>, m: real)
    requires p < |view| && Within(s, |view|)
  {
    (exists q :: q in s && m == SqrDist(view, p, q)) && forall q :: q in s ==> m <= SqrDist(view, p, q)
  }

  /** Some point of s is at least as near to p as every point of t. */
  ghost predicate NearerTo(view: seq<Point>, p: nat, s: seq<nat>, t: seq<nat>)
    requires p < |view| && Within(s, |view|) && Within(t, |view|)
  {
    exists q :: q in s && forall r :: r in t ==> SqrDist(view, p, q) <= SqrDist(view, p, r)
  }

  /** The threshold on the distance from the tree, which applies to local maxima only. */
  function Reach(hag: real): real {
    if hag <= 15.0 then 1.5 else 2.0
  }

  ghost predicate InReach(view: seq<Point>, p: nat, s: seq<nat>)
    requires p < |view| && Within(s, |view|)
  {
    exists q :: q in s && SqrDist(view, p, q) <= Reach(view[p].hag) * Reach(view[p].hag)
  }

  method ClassifyPoint(view: seq<Point>, localMax: seq<bool>, ui: nat, N: seq<nat>, P: seq<nat>)
    returns (N': seq<nat>, P': seq<nat>)
    requires ui < |view| == |localMax| && N != [] && P != [] && Within(N, |view|) && Within(P, |view|)
    ensures if NearerTo(view, ui, P, N) && (localMax[ui] ==> InReach(view, ui, P))
            then P' == P + [ui] && N' == N else P' == P && N' == N + [ui]
  {
    var dmin1 := MinDist(view, ui, P);
    var dmin2 := MinDist(view, ui, N);
    N', P' := N, P;
    if !localMax[ui] {
      if dmin1 <= dmin2 {
        P' := P' + [ui];
      } else {
        N' := N' + [ui];
      }
    } else {
      var dt := Reach(view[ui].hag);
      if dmin1 > dt * dt {
        N' := N' + [ui];
      } else if dmin1 <= dmin2 {
        P' := P' + [ui];
      } else {
        N' := N' + [ui];
      }
    }
  }

  // ----- the trees

  datatype Tree = Tree(top: nat, points: seq<nat>)

  /** P and N divide U between them. */
  ghost predicate Splits(U: seq<nat>, P: seq<nat>, N: seq<nat>) {
    && Distinct(P) && Distinct(N) && Disjoint(P, N)
    && forall p :: p in U <==> p in P || p in N
  }

  function Elems(s: seq<nat>): set<nat> {
    set p | p in s
  }

  ghost predicate InSome(trees: seq<Tree>, p: nat) {
    exists c :: 0 <= c < |trees| && p in trees[c].points
  }

  /** A run so far: the trees are numbered from 1 in the order in which they were cut out, their points carry
      these numbers, and all other points what they carried before. */
  ghost predicate Segmented(view: seq<Point>, minSize: nat, minHag: real, before: seq<int>, clusterId: seq<int>,
    trees: seq<Tree>) {
    && |clusterId| == |before| == |view|
    && (forall c :: 0 <= c < |trees| ==> IsTree(view, minSize, minHag, trees[c]))
    && (forall c, d :: 0 <= c < d < |trees| ==> Disjoint(trees[c].points, trees[d].points))
    && (forall c, d :: 0 <= c < d < |trees| ==> TopOver(view, trees[c].top, trees[d].points))
    && (forall p, c :: 0 <= p < |view| && 0 <= c < |trees| && p in trees[c].points ==> clusterId[p] == c + 1)
    && (forall p :: 0 <= p < |view| && !InSome(trees, p) ==> clusterId[p] == before[p])
  }

  /** On a view without positive ids, a point has id k exactly if it belongs to the k-th tree. */
  lemma IdsNameTrees(view: seq<Point>, minSize: nat, minHag: real, before: seq<int>, clusterId: seq<int>,
    trees: seq<Tree>, p: nat, k: int)
    requires Segmented(view, minSize, minHag, before, clusterId, trees)
    requires p < |view| && before[p] <= 0 && 0 < k <= |trees|
    ensures clusterId[p] == k <==> p in trees[k - 1].points
  {
    hide IsTree, Disjoint, TopOver;
  }

  /** Enough points, each of them once, the top among them, none higher and none 10 units away or more. */
  ghost predicate IsTree(view: seq<Point>, minSize: nat, minHag: real, tree: Tree) {
    && |tree.points| >= minSize && Distinct(tree.points) && Within(tree.points, |view|)
    && tree.top in tree.points && view[tree.top].hag >= minHag
    && TopOver(view, tree.top, tree.points)
    && forall p :: p in tree.points ==> SqrDist(view, tree.top, p) < 100.0
  }

  ghost predicate TopOver(view: seq<Point>, top: nat, s: seq<nat>) {
    top < |view| && forall p :: p in s ==> p < |view| && view[p].hag <= view[top].hag
  }

  /** The points still to be segmented. */
  ghost predicate Remaining(view: seq<Point>, trees: seq<Tree>, U: seq<nat>) {
    && Distinct(U) && Within(U, |view|)
    && (forall c :: 0 <= c < |trees| ==> Disjoint(trees[c].points, U) && TopOver(view, trees[c].top, U))
  }

  /** Tree tops never rise. */
  lemma TopsDescend(view: seq<Point>, minSize: nat, minHag: real, before: seq<int>, clusterId: seq<int>,
    trees: seq<Tree>, c: nat, d: nat)
    requires Segmented(view, minSize, minHag, before, clusterId, trees) && c < d < |trees|
    ensures trees[c].top < |view| && trees[d].top < |view|
    ensures view[trees[d].top].hag <= view[trees[c].top].hag
  {
    assert IsTree(view, minSize, minHag, trees[d]) && TopOver(view, trees[c].top, trees[d].points);
  }

  /** A new tree takes the next number. */
  lemma AddTree(view: seq<Point>, minSize: nat, minHag: real, before: seq<int>, clusterId: seq<int>, trees: seq<Tree>,
    U: seq<nat>, tree: Tree, clusterId': seq<int>)
    requires Segmented(view, minSize, minHag, before, clusterId, trees) && Remaining(view, trees, U)
    requires IsTree(view, minSize, minHag, tree) && forall p :: p in tree.points ==> p in U
    requires |clusterId'| == |clusterId|
    requires forall p :: 0 <= p < |view| ==> clusterId'[p] == if p in tree.points then |trees| + 1 else clusterId[p]
    ensures Segmented(view, minSize, minHag, before, clusterId', trees + [tree])
  {
    hide IsTree, Within, Distinct;
    var trees' := trees + [tree];
    assert forall c :: 0 <= c < |trees| ==> trees'[c] == trees[c];
    forall p, c | 0 <= p < |view| && 0 <= c < |trees'| && p in trees'[c].points ensures clusterId'[p] == c + 1 {
      if c < |trees| {
        assert p !in U;
      }
    }
    forall p | 0 <= p < |view| && !InSome(trees', p) ensures clusterId'[p] == before[p] {
      InSomeMore(trees, tree, p);
    }
  }

  lemma InSomeMore(trees: seq<Tree>, tree: Tree, p: nat)
    ensures InSome(trees + [tree], p) <==> InSome(trees, p) || p in tree.points
  {
    var more := trees + [tree];
    assert more[|trees|] == tree && forall c :: 0 <= c < |trees| ==> more[c] == trees[c];
  }

  /** What is left after a new tree. */
  lemma RestAfterTree(view: seq<Point>, trees: seq<Tree>, U: seq<nat>, tree: Tree, N: seq<nat>)
    requires Remaining(view, trees, U) && TopOver(view, tree.top, U)
    requires Splits(U, tree.points, N) && Within(N, |view|)
    ensures Remaining(view, trees + [tree], N)
  {
  }

  /** Fewer points remain. */
  lemma FewerRemain(view: seq<Point>, trees: seq<Tree>, U: seq<nat>, N: seq<nat>)
    requires Remaining(view, trees, U) && Distinct(N) && forall p :: p in N ==> p in U
    ensures Remaining(view, trees, N)
  {
    forall i | 0 <= i < |N| ensures N[i] < |view| {
      assert N[i] in U;
    }
  }

  lemma RemainingWithin(view: seq<Point>, trees: seq<Tree>, U: seq<nat>)
    requires Remaining(view, trees, U)
    ensures Distinct(U) && Within(U, |view|)
  {
  }

  // ----- the filter

  /** Highest first: no point of U is higher, and none before it is as high. */
  method LocateHighestPoint(view: seq<Point>, U: seq<nat>) returns (t0: nat)
    requires U != [] && Within(U, |view|)
    ensures t0 in U && TopOver(view, t0, U)
    ensures FirstHighest(view, U, t0)
  {
    t0 := U[0];
    var vmax := view[U[0]].hag;
    ghost var k := 0;
    var i := 0;
    while i < |U|
      invariant 0 <= i <= |U| && 0 <= k < |U| && U[k] == t0 && vmax == view[t0].hag
      invariant forall j :: 0 <= j < i ==> view[U[j]].hag <= vmax
      invariant forall j :: 0 <= j < k ==> view[U[j]].hag < vmax
    {
      var val := view[U[i]].hag;
      if val > vmax {
        vmax := val;
        t0 := U[i];
        k := i;
      }
      i := i + 1;
    }
  }

  /** The last result of a radius search around t0, nearest first: a farthest point within the radius. */
  predicate Dummy(view: seq<Point>, U: seq<nat>, t0: nat, radius: real, n0: nat)
    requires t0 < |view| && Within(U, |view|)
  {
    && n0 in U && SqrDist(view, t0, n0) < radius * radius
    && forall q :: q in U && SqrDist(view, t0, q) < radius * radius ==> SqrDist(view, t0, q) <= SqrDist(view, t0, n0)
  }

  method LocateDummyPoint(view: seq<Point>, U: seq<nat>, t0: nat, radius: real) returns (n0: nat)
    requires radius != 0.0 && Within(U, |view|) && t0 in U
    ensures Dummy(view, U, t0, radius, n0)
  {
    DummyExists(view, U, t0, radius);
    n0 :| n0 in U && Dummy(view, U, t0, radius, n0);
  }

  lemma DummyExists(view: seq<Point>, U: seq<nat>, t0: nat, radius: real)
    requires radius != 0.0 && Within(U, |view|) && t0 in U
    ensures exists n0 :: n0 in U && Dummy(view, U, t0, radius, n0)
  {
    WithinRadius(view, t0, radius);
    var k :| 0 <= k < |U| && U[k] == t0;
    var n0 := Farthest(view, U, t0, radius * radius, k);
    assert Dummy(view, U, t0, radius, n0);
  }

  lemma WithinRadius(view: seq<Point>, t0: nat, radius: real)
    requires t0 < |view| && radius != 0.0
    ensures SqrDist(view, t0, t0) < radius * radius
  {
    Square(radius);
    assert SqrDist(view, t0, t0) == 0.0;
  }

  /** A farthest one among the points nearer than a bound, one of which is U[k]. */
  lemma {:induction false} Farthest(view: seq<Point>, U: seq<nat>, t0: nat, bound: real, k: nat) returns (n0: nat)
    requires t0 < |view| && Within(U, |view|) && k < |U| && SqrDist(view, t0, U[k]) < bound
    ensures n0 in U && SqrDist(view, t0, n0) < bound
    ensures forall q :: q in U && SqrDist(view, t0, q) < bound ==> SqrDist(view, t0, q) <= SqrDist(view, t0, n0)
  {
    hide SqrDist;
    var last := |U| - 1;
    assert U == U[..last] + [U[last]];
    n0 := U[last];
    if other :| 0 <= other < last && SqrDist(view, t0, U[other]) < bound {
      var m := Farthest(view, U[..last], t0, bound, other);
      var farther := SqrDist(view, t0, U[last]) < bound && SqrDist(view, t0, m) < SqrDist(view, t0, U[last]);
      n0 := if farther then U[last] else m;
    } else {
      assert k == last;
    }
  }

  /** A tree top can be given up exactly if all points within the radius have its position. */
  lemma IsolatedTop(view: seq<Point>, U: seq<nat>, t0: nat, radius: real)
    requires Within(U, |view|) && t0 in U && radius != 0.0
    ensures Dummy(view, U, t0, radius, t0) <==>
            forall q :: q in U && SqrDist(view, t0, q) < radius * radius ==> SamePosition(view, t0, q)
  {
    WithinRadius(view, t0, radius);
    forall q | q in U ensures SqrDist(view, t0, q) <= SqrDist(view, t0, t0) <==> SamePosition(view, t0, q) {
      NoDistance(view, t0, q);
    }
    hide SqrDist, SamePosition;
  }

  predicate SamePosition(view: seq<Point>, p: nat, q: nat)
    requires p < |view| && q < |view|
  {
    view[p].x == view[q].x && view[p].y == view[q].y
  }

  lemma NoDistance(view: seq<Point>, p: nat, q: nat)
    requires p < |view| && q < |view|
    ensures SqrDist(view, p, q) <= SqrDist(view, p, p) <==> SamePosition(view, p, q)
  {
    var dx, dy := view[q].x - view[p].x, view[q].y - view[p].y;
    assert SqrDist(view, p, p) == 0.0;
    assert SqrDist(view, p, q) == Times(dx, dx) + Times(dy, dy);
    Square(dx);
    Square(dy);
    assert dx == 0.0 && dy == 0.0 ==> Times(dx, dx) + Times(dy, dy) == 0.0;
  }

  // ----- the division of the remaining points

  /** A point joins the tree if it is near the top, no farther from the tree so far than from the rest and,
      as a local maximum, within the reach for its height. */
  ghost predicate Joins(view: seq<Point>, localMax: seq<bool>, t0: nat, u: nat, P: seq<nat>, N: seq<nat>)
    requires t0 < |view| && u < |view| == |localMax| && Within(P, |view|) && Within(N, |view|)
  {
    SqrDist(view, t0, u) < 100.0 && NearerTo(view, u, P, N) && (localMax[u] ==> InReach(view, u, P))
  }

  /** Target tree and rest after taking up the points of U in order. */
  ghost function Division(view: seq<Point>, localMax: seq<bool>, U: seq<nat>, t0: nat, n0: nat)
    : (r: (seq<nat>, seq<nat>))
    requires t0 < |view| == |localMax| && n0 < |view| && Within(U, |view|)
    ensures Within(r.0, |view|) && Within(r.1, |view|)
  {
    if U == [] then ([t0], [n0])
    else
      var last := |U| - 1;
      var (P, N) := Division(view, localMax, U[..last], t0, n0);
      if U[last] == t0 || U[last] == n0 then (P, N)
      else if Joins(view, localMax, t0, U[last], P, N) then (P + [U[last]], N)
      else (P, N + [U[last]])
  }

  /** No point of the tree is 10 units away from its top or more. */
  lemma {:induction false} DivisionNear(view: seq<Point>, localMax: seq<bool>, U: seq<nat>, t0: nat, n0: nat)
    requires t0 < |view| == |localMax| && n0 < |view| && Within(U, |view|)
    ensures forall p :: p in Division(view, localMax, U, t0, n0).0 ==> SqrDist(view, t0, p) < 100.0
  {
    if U == [] {
      assert SqrDist(view, t0, t0) == 0.0;
    } else {
      DivisionNear(view, localMax, U[..|U| - 1], t0, n0);
    }
  }

  /** Tree and rest share the points of U: none is lost, and none is in both. */
  lemma {:induction false} DivisionSplits(view: seq<Point>, localMax: seq<bool>, U: seq<nat>, t0: nat, n0: nat)
    requires t0 < |view| == |localMax| && n0 < |view| && Within(U, |view|) && Distinct(U) && t0 != n0
    ensures var (P, N) := Division(view, localMax, U, t0, n0);
            && Distinct(P) && Distinct(N) && Disjoint(P, N) && t0 in P && n0 in N
            && forall p :: p in P || p in N <==> p == t0 || p == n0 || p in U
  {
    hide Joins;
    if U != [] {
      var last := |U| - 1;
      DivisionSplits(view, localMax, U[..last], t0, n0);
      assert U == U[..last] + [U[last]];
      assert U[last] !in U[..last];
    }
  }

  /** Which points join the tree: U[i] does exactly if it is less than 10 units away from the top, some tree point
      taken up before it is at least as near to it as every such point of the rest and, for a local maximum,
      some such tree point is at most 1.5 units away, or 2 above a height of 15. */
  ghost predicate JoinsTree(view: seq<Point>, localMax: seq<bool>, U: seq<nat>, t0: nat, n0: nat,
    P: seq<nat>, N: seq<nat>, i: nat)
    requires |localMax| == |view| && t0 < |view| && Within(U, |view|) && Within(P, |view|) && Within(N, |view|)
    requires i < |U|
  {
    var u := view[U[i]];
    var top := view[t0];
    U[i] in P <==>
      && (u.x - top.x) * (u.x - top.x) + (u.y - top.y) * (u.y - top.y) < 100.0
      && (exists a :: a in P && (a == t0 || a in U[..i]) &&
            forall b :: b in N && (b == n0 || b in U[..i]) ==>
              (view[a].x - u.x) * (view[a].x - u.x) + (view[a].y - u.y) * (view[a].y - u.y)
              <= (view[b].x - u.x) * (view[b].x - u.x) + (view[b].y - u.y) * (view[b].y - u.y))
      && (localMax[U[i]] ==>
            exists a :: a in P && (a == t0 || a in U[..i]) &&
              (view[a].x - u.x) * (view[a].x - u.x) + (view[a].y - u.y) * (view[a].y - u.y)
              <= if u.hag <= 15.0 then 1.5 * 1.5 else 2.0 * 2.0)
  }

  /** What has been decided for the first points stays decided. */
  lemma {:induction false} DivisionPrefix(view: seq<Point>, localMax: seq<bool>, U: seq<nat>, t0: nat, n0: nat, i: nat)
    requires t0 < |view| == |localMax| && n0 < |view| && Within(U, |view|) && Distinct(U) && t0 != n0 && i <= |U|
    ensures var (P, N) := Division(view, localMax, U, t0, n0);
            var (P', N') := Division(view, localMax, U[..i], t0, n0);
            && (forall p :: p in P' <==> p in P && (p == t0 || p in U[..i]))
            && (forall p :: p in N' <==> p in N && (p == n0 || p in U[..i]))
  {
    hide Joins;
    DivisionSplits(view, localMax, U, t0, n0);
    if i == |U| {
      assert U[..i] == U;
    } else {
      var last := |U| - 1;
      var front := U[..last];
      DivisionPrefix(view, localMax, front, t0, n0, i);
      assert front[..i] == U[..i];
      assert U[last] !in U[..i];
    }
  }

  lemma JoinsWritten(view: seq<Point>, localMax: seq<bool>, t0: nat, u: nat, P: seq<nat>, N: seq<nat>)
    requires t0 < |view| && u < |view| == |localMax| && Within(P, |view|) && Within(N, |view|)
    ensures var v, top := view[u], view[t0];
            Joins(view, localMax, t0, u, P, N) <==>
              && (v.x - top.x) * (v.x - top.x) + (v.y - top.y) * (v.y - top.y) < 100.0
              && (exists a :: a in P && forall b :: b in N ==> SqrDist(view, u, a) <= SqrDist(view, u, b))
              && (localMax[u] ==> exists a :: a in P && SqrDist(view, u, a) <= Reach(v.hag) * Reach(v.hag))
  {
  }

  lemma DivisionRule(view: seq<Point>, localMax: seq<bool>, U: seq<nat>, t0: nat, n0: nat, i: nat)
    requires t0 < |view| == |localMax| && n0 < |view| && Within(U, |view|) && Distinct(U) && t0 != n0
    requires i < |U| && U[i] != t0 && U[i] != n0
    ensures var (P, N) := Division(view, localMax, U, t0, n0);
            JoinsTree(view, localMax, U, t0, n0, P, N, i)
  {
    hide Division, Joins, SqrDist, Reach, Distinct;
    var (P, N) := Division(view, localMax, U, t0, n0);
    var (P', N') := Division(view, localMax, U[..i], t0, n0);
    DivisionPrefix(view, localMax, U, t0, n0, i);
    DivisionPrefix(view, localMax, U, t0, n0, i + 1);
    DivisionStep(view, localMax, U, t0, n0, i);
    assert U[i] in U[..i + 1];
    JoinsWritten(view, localMax, t0, U[i], P', N');
    RuleWritten(view, localMax, U, t0, n0, P, N, P', N', i);
  }

  lemma DivisionStep(view: seq<Point>, localMax: seq<bool>, U: seq<nat>, t0: nat, n0: nat, i: nat)
    requires t0 < |view| == |localMax| && n0 < |view| && Within(U, |view|) && Distinct(U) && t0 != n0
    requires i < |U| && U[i] != t0 && U[i] != n0
    ensures var (P', N') := Division(view, localMax, U[..i], t0, n0);
            U[i] in Division(view, localMax, U[..i + 1], t0, n0).0 <==> Joins(view, localMax, t0, U[i], P', N')
  {
    hide Joins;
    DivisionSplits(view, localMax, U[..i], t0, n0);
    assert U[..i + 1][..i] == U[..i] && U[i] !in U[..i];
  }

  /** The rule speaks of the tree and the rest as they were, which are those parts of what they became. */
  lemma RuleWritten(view: seq<Point>, localMax: seq<bool>, U: seq<nat>, t0: nat, n0: nat,
    P: seq<nat>, N: seq<nat>, P': seq<nat>, N': seq<nat>, i: nat)
    requires |localMax| == |view| && t0 < |view| && Within(U, |view|) && i < |U|
    requires Within(P, |view|) && Within(N, |view|) && Within(P', |view|) && Within(N', |view|)
    requires forall p :: p in P' <==> p in P && (p == t0 || p in U[..i])
    requires forall p :: p in N' <==> p in N && (p == n0 || p in U[..i])
    requires var u, v, top := U[i], view[U[i]], view[t0];
             U[i] in P <==>
               && (v.x - top.x) * (v.x - top.x) + (v.y - top.y) * (v.y - top.y) < 100.0
               && (exists a :: a in P' && forall b :: b in N' ==> SqrDist(view, u, a) <= SqrDist(view, u, b))
               && (localMax[u] ==> exists a :: a in P' && SqrDist(view, u, a) <= Reach(v.hag) * Reach(v.hag))
    ensures JoinsTree(view, localMax, U, t0, n0, P, N, i)
  {
    var u := U[i];
    var v := view[u];
    assert forall a :: a in P || a in N ==>
      SqrDist(view, u, a) == (view[a].x - v.x) * (view[a].x - v.x) + (view[a].y - v.y) * (view[a].y - v.y);
  }

  /** The elements of s occur in U in the same order. */
  ghost predicate Follows(U: seq<nat>, s: seq<nat>) {
    forall a, b :: 0 <= a < b < |s| ==> InOrder(U, s[a], s[b])
  }

  ghost predicate InOrder(U: seq<nat>, p: nat, q: nat) {
    exists i, j :: 0 <= i < j < |U| && U[i] == p && U[j] == q
  }

  lemma InOrderMore(U: seq<nat>, u: nat, p: nat, q: nat)
    ensures InOrder(U, p, q) ==> InOrder(U + [u], p, q)
    ensures p in U ==> InOrder(U + [u], p, u)
  {
    var V := U + [u];
    if InOrder(U, p, q) {
      var i, j :| 0 <= i < j < |U| && U[i] == p && U[j] == q;
      assert V[i] == p && V[j] == q;
    }
    if p in U {
      var i :| 0 <= i < |U| && U[i] == p;
      assert V[i] == p && V[|U|] == u;
    }
  }

  /** The rest starts with the dummy point and keeps the order of the points. */
  lemma {:induction false} DivisionOrder(view: seq<Point>, localMax: seq<bool>, U: seq<nat>, t0: nat, n0: nat)
    requires t0 < |view| == |localMax| && n0 < |view| && Within(U, |view|)
    ensures var N := Division(view, localMax, U, t0, n0).1;
            N != [] && N[0] == n0 && (forall p :: p in N[1..] ==> p in U) && Follows(U, N[1..])
  {
    hide Joins;
    if U != [] {
      var last := |U| - 1;
      var front := U[..last];
      DivisionOrder(view, localMax, front, t0, n0);
      FollowsMore(front, Division(view, localMax, front, t0, n0).1[1..], U[last]);
      assert U == front + [U[last]];
      assert forall N: seq<nat> :: N != [] ==> (N + [U[last]])[1..] == N[1..] + [U[last]];
    }
  }

  lemma FollowsMore(U: seq<nat>, s: seq<nat>, u: nat)
    requires Follows(U, s) && forall p :: p in s ==> p in U
    ensures Follows(U + [u], s) && Follows(U + [u], s + [u])
  {
    hide InOrder;
    forall a, b | 0 <= a < b < |s| ensures InOrder(U + [u], s[a], s[b]) {
      InOrderMore(U, u, s[a], s[b]);
    }
    forall a | 0 <= a < |s| ensures InOrder(U + [u], s[a], u) {
      InOrderMore(U, u, s[a], u);
    }
  }

  /** A point is locally maximal if none of its neighbours is higher. */
  ghost predicate LocalMaxima(view: seq<Point>, near: seq<seq<nat>>, localMax: seq<bool>)
    requires |near| == |view| && forall p :: 0 <= p < |view| ==> Within(near[p], |view|)
  {
    && |localMax| == |view|
    && forall p :: 0 <= p < |view| ==> (localMax[p] <==> NoneHigher(view, near[p], p))
  }

  ghost predicate NoneHigher(view: seq<Point>, neighbors: seq<nat>, p: nat)
    requires p < |view| && Within(neighbors, |view|)
  {
    forall i :: 0 <= i < |neighbors| ==> view[neighbors[i]].hag <= view[p].hag
  }

  method ComputeLocalMax(view: seq<Point>, near: seq<seq<nat>>) returns (localMax: seq<bool>)
    requires |near| == |view| && forall p :: 0 <= p < |view| ==> Within(near[p], |view|)
    ensures LocalMaxima(view, near, localMax)
  {
    localMax := [];
    var p := 0;
    while p < |view|
      invariant 0 <= p <= |view| && |localMax| == p
      invariant forall q :: 0 <= q < p ==> (localMax[q] <==> NoneHigher(view, near[q], q))
    {
      var isMax := true;
      var i := 0;
      while i < |near[p]|
        invariant 0 <= i <= |near[p]| && isMax
        invariant forall j :: 0 <= j < i ==> view[near[p][j]].hag <= view[p].hag
      {
        if view[near[p][i]].hag > view[p].hag {
          isMax := false;
          break;
        }
        i := i + 1;
      }
      localMax := localMax + [isMax];
      p := p + 1;
    }
  }

  /** U without t0. */
  function Without(U: seq<nat>, t0: nat): seq<nat> {
    if U == [] then []
    else Without(U[..|U| - 1], t0) + if U[|U| - 1] == t0 then [] else [U[|U| - 1]]
  }

  lemma {:induction false} WithoutMembers(U: seq<nat>, t0: nat)
    ensures forall p :: p in Without(U, t0) <==> p in U && p != t0
    ensures t0 !in U ==> Without(U, t0) == U
    ensures Distinct(U) ==> Distinct(Without(U, t0))
  {
    if U != [] {
      var last := |U| - 1;
      var front := Without(U[..last], t0);
      WithoutMembers(U[..last], t0);
      assert U == U[..last] + [U[last]];
      hide Distinct;
      DistinctLast(U[..last], U[last]);
      DistinctLast(front, U[last]);
    }
  }

  lemma DistinctLast(s: seq<nat>, x: nat)
    ensures Distinct(s + [x]) <==> Distinct(s) && x !in s
  {
    if Distinct(s + [x]) {
      forall i | 0 <= i < |s| ensures s[i] != x {
        assert (s + [x])[i] != (s + [x])[|s|];
      }
      forall i, j | 0 <= i < j < |s| ensures s[i] != s[j] {
        assert (s + [x])[i] != (s + [x])[j];
      }
    }
  }

  lemma {:induction false} WithoutOnce(U: seq<nat>, t0: nat) returns (k: nat)
    requires t0 in U && Distinct(U)
    ensures k < |U| && U[k] == t0 && Without(U, t0) == U[..k] + U[k + 1..]
  {
    hide *;
    var last := |U| - 1;
    WithoutLast(U, t0);
    if U[last] == t0 {
      k := last;
      WithoutMembers(U[..last], t0);
      assert U[k + 1..] == [];
    } else {
      k := WithoutOnce(U[..last], t0);
      CutBeforeLast(U, k);
    }
  }

  lemma CutBeforeLast(U: seq<nat>, k: nat)
    requires k < |U| - 1
    ensures U[..k] + U[k + 1..] == U[..|U| - 1][..k] + U[..|U| - 1][k + 1..] + [U[|U| - 1]]
    ensures U[..|U| - 1][k] == U[k]
  {
  }

  lemma WithoutLast(U: seq<nat>, t0: nat)
    requires U != [] && Distinct(U)
    ensures var last := |U| - 1;
            && Distinct(U[..last]) && (if U[last] == t0 then t0 !in U[..last] else t0 in U ==> t0 in U[..last])
            && Without(U, t0) == Without(U[..last], t0) + if U[last] == t0 then [] else [U[last]]
  {
    assert U == U[..|U| - 1] + [U[|U| - 1]];
  }

  lemma WithoutWithin(U: seq<nat>, rest: seq<nat>)
    requires forall p :: p in rest ==> p in U
    ensures forall n :: Within(U, n) ==> Within(rest, n)
  {
    forall n, i | Within(U, n) && 0 <= i < |rest| ensures rest[i] < n {
      assert rest[i] in U;
    }
  }

  method Remove(U: seq<nat>, t0: nat) returns (rest: seq<nat>)
    ensures t0 in U && Distinct(U) ==> exists k :: 0 <= k < |U| && U[k] == t0 && rest == U[..k] + U[k + 1..]
    ensures forall p :: p in rest <==> p in U && p != t0
    ensures Distinct(U) ==> Distinct(rest)
    ensures forall n :: Within(U, n) ==> Within(rest, n)
  {
    hide Distinct, Within;
    rest := [];
    var i := 0;
    while i < |U|
      invariant 0 <= i <= |U|
      invariant rest == Without(U[..i], t0)
    {
      assert U[..i + 1][..i] == U[..i];
      if U[i] != t0 {
        rest := rest + [U[i]];
      }
      i := i + 1;
    }
    assert U[..i] == U;
    WithoutMembers(U, t0);
    WithoutWithin(U, rest);
    if t0 in U && Distinct(U) {
      var k := WithoutOnce(U, t0);
    }
  }

  lemma DroppedOutcome(view: seq<Point>, localMax: seq<bool>, minSize: nat, U: seq<nat>, t0: nat, trees: seq<Tree>,
    rest: seq<nat>)
    requires t0 < |view| == |localMax| && Within(U, |view|)
    requires exists k :: 0 <= k < |U| && U[k] == t0 && rest == U[..k] + U[k + 1..]
    ensures Outcome(view, localMax, minSize, U, t0, t0, trees, rest, trees)
  {
  }

  lemma DummyWithin(view: seq<Point>, U: seq<nat>, t0: nat, radius: real, n0: nat)
    requires t0 < |view| && Within(U, |view|) && Dummy(view, U, t0, radius, n0)
    ensures n0 in U && n0 < |view|
  {
  }

  /** A division that is large enough makes a tree. */
  lemma NewTree(view: seq<Point>, localMax: seq<bool>, minSize: nat, minHag: real, U: seq<nat>, t0: nat, n0: nat)
    requires Within(U, |view|) && Distinct(U) && |localMax| == |view| && t0 in U && n0 in U && t0 != n0
    requires TopOver(view, t0, U) && view[t0].hag >= minHag
    requires |Division(view, localMax, U, t0, n0).0| >= minSize
    ensures IsTree(view, minSize, minHag, Tree(t0, Division(view, localMax, U, t0, n0).0))
  {
    DivisionSplits(view, localMax, U, t0, n0);
    DivisionNear(view, localMax, U, t0, n0);
  }

  /** What one step leaves: all but an isolated top, or the rest without the points of the target tree, which is
      listed if it is large enough. */
  ghost predicate Outcome(view: seq<Point>, localMax: seq<bool>, minSize: nat, U: seq<nat>, t0: nat, n0: nat,
                          trees: seq<Tree>, U': seq<nat>, trees': seq<Tree>)
    requires t0 < |view| == |localMax| && Within(U, |view|)
  {
    if n0 == t0 then
      trees' == trees && exists k :: 0 <= k < |U| && U[k] == t0 && U' == U[..k] + U[k + 1..]
    else
      && U' != [] && U'[0] == n0 && Follows(U, U'[1..]) && Within(U', |view|)
      && exists P: seq<nat> ::
        && Within(P, |view|) && Splits(U, P, U') && t0 in P
        && (forall i :: 0 <= i < |U| && U[i] != t0 && U[i] != n0 ==> JoinsTree(view, localMax, U, t0, n0, P, U', i))
        && trees' == if |P| >= minSize then trees + [Tree(t0, P)] else trees
  }

  lemma DivisionOutcome(view: seq<Point>, localMax: seq<bool>, minSize: nat, U: seq<nat>, t0: nat, n0: nat,
    trees: seq<Tree>)
    requires t0 < |view| == |localMax| && n0 < |view| && Within(U, |view|) && Distinct(U)
    requires t0 in U && n0 in U && t0 != n0
    ensures var (P, N) := Division(view, localMax, U, t0, n0);
            var after := if |P| >= minSize then trees + [Tree(t0, P)] else trees;
            Outcome(view, localMax, minSize, U, t0, n0, trees, N, after)
  {
    hide Joins, JoinsTree, Division, Follows;
    var (P, N) := Division(view, localMax, U, t0, n0);
    DivisionSplits(view, localMax, U, t0, n0);
    DivisionOrder(view, localMax, U, t0, n0);
    forall i | 0 <= i < |U| && U[i] != t0 && U[i] != n0 ensures JoinsTree(view, localMax, U, t0, n0, P, N, i) {
      DivisionRule(view, localMax, U, t0, n0, i);
    }
  }

  // ----- a whole run

  /** One step of a run: the remaining points, the top, the dummy point, and what is left. */
  datatype Step = Step(U: seq<nat>, top: nat, dummy: nat, rest: seq<nat>)

  /** The first of the highest points. */
  ghost predicate FirstHighest(view: seq<Point>, U: seq<nat>, t0: nat)
    requires Within(U, |view|)
  {
    exists k :: 0 <= k < |U| && U[k] == t0
      && (forall j :: 0 <= j < k ==> view[U[j]].hag < view[t0].hag)
      && forall j :: 0 <= j < |U| ==> view[U[j]].hag <= view[t0].hag
  }

  ghost predicate IsStep(view: seq<Point>, localMax: seq<bool>, minSize: nat, minHag: real, radius: real,
    step: Step, trees: seq<Tree>, trees': seq<Tree>)
    requires |localMax| == |view|
  {
    && |step.U| > minSize && Within(step.U, |view|) && FirstHighest(view, step.U, step.top)
    && view[step.top].hag >= minHag && Dummy(view, step.U, step.top, radius, step.dummy)
    && Outcome(view, localMax, minSize, step.U, step.top, step.dummy, trees, step.rest, trees')
  }

  /** The steps lead from all points and no tree to the points U and the given trees. */
  ghost predicate IsRun(view: seq<Point>, localMax: seq<bool>, minSize: nat, minHag: real, radius: real,
    steps: seq<Step>, U: seq<nat>, trees: seq<Tree>)
    requires |localMax| == |view|
    decreases |steps|
  {
    if steps == [] then
      trees == [] && U == seq(|view|, i => i)
    else
      var last := |steps| - 1;
      && U == steps[last].rest
      && exists before ::
        && IsRun(view, localMax, minSize, minHag, radius, steps[..last], steps[last].U, before)
        && IsStep(view, localMax, minSize, minHag, radius, steps[last], before, trees)
  }

  lemma RunStart(view: seq<Point>, localMax: seq<bool>, minSize: nat, minHag: real, radius: real, U: seq<nat>)
    requires |localMax| == |view| && U == seq(|view|, i => i)
    ensures IsRun(view, localMax, minSize, minHag, radius, [], U, [])
  {
  }

  lemma NothingSegmented(view: seq<Point>, minSize: nat, minHag: real, clusterId: seq<int>)
    requires |clusterId| == |view|
    ensures Segmented(view, minSize, minHag, clusterId, clusterId, [])
  {
  }

  lemma RunNext(view: seq<Point>, localMax: seq<bool>, minSize: nat, minHag: real, radius: real,
    steps: seq<Step>, U: seq<nat>, trees: seq<Tree>, step: Step, trees': seq<Tree>)
    requires |localMax| == |view| && IsRun(view, localMax, minSize, minHag, radius, steps, U, trees)
    requires step.U == U && IsStep(view, localMax, minSize, minHag, radius, step, trees, trees')
    ensures IsRun(view, localMax, minSize, minHag, radius, steps + [step], step.rest, trees')
  {
    hide IsStep;
    assert (steps + [step])[..|steps|] == steps;
  }

  class LiTreeFilter {
    const minSize: nat
    const minHag: real
    const dummyRadius: real
    var localMax: seq<bool>

    constructor (minPoints: nat, minHeight: real, radius: real)
      ensures minSize == minPoints && minHag == minHeight && dummyRadius == radius
    {
      minSize, minHag, dummyRadius, localMax := minPoints, minHeight, radius, [];
    }

    /** Divide the points between the target tree and the rest. */
    method Classify(view: seq<Point>, U: seq<nat>, t0: nat, n0: nat) returns (P: seq<nat>, N: seq<nat>)
      requires Within(U, |view|) && |localMax| == |view| && t0 < |view| && n0 < |view|
      ensures (P, N) == Division(view, localMax, U, t0, n0)
      ensures Distinct(U) && t0 != n0 ==>
        && Within(P, |view|) && Within(N, |view|)
        && forall i :: 0 <= i < |U| && U[i] != t0 && U[i] != n0 ==> JoinsTree(view, localMax, U, t0, n0, P, N, i)
    {
      hide JoinsTree;
      P, N := [t0], [n0];
      var i := 0;
      while i < |U|
        invariant 0 <= i <= |U| && P != [] && N != []
        invariant (P, N) == Division(view, localMax, U[..i], t0, n0)
      {
        var ui := U[i];
        assert U[..i + 1][..i] == U[..i];
        if ui != t0 && ui != n0 {
          if SqrDist(view, t0, ui) < 100.0 {
            N, P := ClassifyPoint(view, localMax, ui, N, P);
          } else {
            N := N + [ui];
          }
        }
        i := i + 1;
      }
      assert U[..i] == U;
      if Distinct(U) && t0 != n0 {
        forall k | 0 <= k < |U| && U[k] != t0 && U[k] != n0 ensures JoinsTree(view, localMax, U, t0, n0, P, N, k) {
          DivisionRule(view, localMax, U, t0, n0, k);
        }
      }
    }

    /** Cut out the tree below t0, or drop t0 if it is isolated. */
    method SegmentTree(view: seq<Point>, clusterId: array<int>, U: seq<nat>, treeId: int, t0: nat,
      ghost trees: seq<Tree>, ghost before: seq<int>)
      returns (U': seq<nat>, treeId': int, ghost trees': seq<Tree>)
      requires |localMax| == |view| && dummyRadius != 0.0
      requires clusterId.Length == |view| && treeId == |trees| + 1
      requires Segmented(view, minSize, minHag, before, clusterId[..], trees) && Remaining(view, trees, U)
      requires t0 in U && TopOver(view, t0, U) && view[t0].hag >= minHag
      modifies clusterId
      ensures Segmented(view, minSize, minHag, before, clusterId[..], trees') && Remaining(view, trees', U')
      ensures treeId' == |trees'| + 1
      ensures exists n0: nat ::
        && Dummy(view, U, t0, dummyRadius, n0)
        && Outcome(view, localMax, minSize, U, t0, n0, trees, U', trees')
      ensures Elems(U') < Elems(U) && t0 !in U'
    {
      hide Segmented, IsTree, Dummy, Outcome, JoinsTree, Remaining, Within, Distinct;
      treeId', trees' := treeId, trees;
      RemainingWithin(view, trees, U);
      var n0 := LocateDummyPoint(view, U, t0, dummyRadius);
      DummyWithin(view, U, t0, dummyRadius, n0);
      if n0 == t0 {
        U' := Remove(U, t0);
        assert t0 in Elems(U) && t0 !in Elems(U');
        DroppedOutcome(view, localMax, minSize, U, t0, trees, U');
        FewerRemain(view, trees, U, U');
        return;
      }
      var P, N := Classify(view, U, t0, n0);
      DivisionSplits(view, localMax, U, t0, n0);
      DivisionOutcome(view, localMax, minSize, U, t0, n0, trees);
      if |P| >= minSize {
        ghost var labels := clusterId[..];
        Label(clusterId, P, treeId);
        trees' := trees + [Tree(t0, P)];
        NewTree(view, localMax, minSize, minHag, U, t0, n0);
        AddTree(view, minSize, minHag, before, labels, trees, U, Tree(t0, P), clusterId[..]);
        RestAfterTree(view, trees, U, Tree(t0, P), N);
        treeId' := treeId + 1;
      } else {
        FewerRemain(view, trees, U, N);
      }
      U' := N;
      assert t0 in Elems(U) && t0 !in Elems(U');
    }

    method Label(clusterId: array<int>, P: seq<nat>, treeId: int)
      requires Within(P, clusterId.Length)
      modifies clusterId
      ensures forall p :: 0 <= p < clusterId.Length ==> clusterId[p] == if p in P then treeId else old(clusterId[p])
    {
      var i := 0;
      while i < |P|
        invariant 0 <= i <= |P|
        invariant forall p :: 0 <= p < clusterId.Length ==>
          clusterId[p] == if p in P[..i] then treeId else old(clusterId[p])
      {
        assert P[..i + 1] == P[..i] + [P[i]];
        clusterId[P[i]] := treeId;
        i := i + 1;
      }
      assert P[..i] == P;
    }

    /** The filter. `left` lists the points that were not segmented; every point outside the trees keeps the
        id that the view came with. */
    method Filter(view: seq<Point>, near: seq<seq<nat>>, clusterId: array<int>)
      returns (ghost trees: seq<Tree>, ghost left: seq<nat>, ghost steps: seq<Step>)
      requires clusterId.Length == |view|
      requires dummyRadius != 0.0
      requires |near| == |view| && forall p :: 0 <= p < |view| ==> Within(near[p], |view|)
      modifies this, clusterId
      ensures Segmented(view, minSize, minHag, old(clusterId[..]), clusterId[..], trees) && Remaining(view, trees, left)
      ensures |left| <= minSize || forall p :: p in left ==> view[p].hag < minHag
      ensures LocalMaxima(view, near, localMax)
      ensures IsRun(view, localMax, minSize, minHag, dummyRadius, steps, left, trees)
    {
      hide Segmented, Outcome, Dummy, FirstHighest, NoneHigher, IsRun;
      localMax := ComputeLocalMax(view, near);
      var U: seq<nat> := seq(|view|, i => i);
      var treeId := 1;
      trees, steps := [], [];
      RunStart(view, localMax, minSize, minHag, dummyRadius, U);
      NothingSegmented(view, minSize, minHag, clusterId[..]);
      while |U| > minSize
        invariant |localMax| == |view| && treeId == |trees| + 1
        invariant Segmented(view, minSize, minHag, old(clusterId[..]), clusterId[..], trees)
          && Remaining(view, trees, U)
        invariant LocalMaxima(view, near, localMax)
        invariant IsRun(view, localMax, minSize, minHag, dummyRadius, steps, U, trees)
        decreases Elems(U)
      {
        var t0 := LocateHighestPoint(view, U);
        if view[t0].hag < minHag {
          break;
        }
        ghost var U0, trees0 := U, trees;
        U, treeId, trees := SegmentTree(view, clusterId, U, treeId, t0, trees, old(clusterId[..]));
        ghost var n0: nat :|
          Dummy(view, U0, t0, dummyRadius, n0) && Outcome(view, localMax, minSize, U0, t0, n0, trees0, U, trees);
        RunNext(view, localMax, minSize, minHag, dummyRadius, steps, U0, trees0, Step(U0, t0, n0, U), trees);
        steps := steps + [Step(U0, t0, n0, U)];
      }
      left := U;
    }
  }
}
