/** States of the vertices of an advancing front, and how they and the triangles may develop. */
module FrontStates {
  datatype GP3Type = NONE | FREE | FRINGE | BOUNDARY | COMPLETED

  function Rank(t: GP3Type): nat {
    match t
    case NONE | FREE => 2
    case FRINGE => 1
    case BOUNDARY | COMPLETED => 0
  }

  predicate Settled(t: GP3Type) {
    t == BOUNDARY || t == COMPLETED
  }

  function TotalRank(s: seq<GP3Type>): nat {
    if s == [] then 0 else TotalRank(s[..|s| - 1]) + Rank(s[|s| - 1])
  }

  function FreeSet(s: seq<GP3Type>): set<nat> {
    set i: nat | i < |s| && s[i] == FREE
  }

  /** How states may develop: no rank rises, so a settled vertex stays settled, none becomes free, and a
      completed vertex is never made a boundary vertex. */
  ghost predicate Advances(s: seq<GP3Type>, t: seq<GP3Type>)
    ensures Advances(s, t) ==> |s| == |t|
    ensures s == t ==> Advances(s, t)
  {
    |s| == |t| && forall i :: 0 <= i < |s| ==>
      Rank(t[i]) <= Rank(s[i]) && (t[i] == FREE ==> s[i] == FREE) && (s[i] == COMPLETED ==> t[i] == COMPLETED)
  }

  lemma AdvancesTrans(s: seq<GP3Type>, t: seq<GP3Type>, u: seq<GP3Type>)
    requires Advances(s, t) && Advances(t, u)
    ensures Advances(s, u)
  {
  }

  /** Advancing lowers the total rank, strictly if some vertex drops. */
  lemma {:induction false} AdvancesLowers(s: seq<GP3Type>, t: seq<GP3Type>)
    requires Advances(s, t)
    ensures TotalRank(t) <= TotalRank(s)
    ensures (exists i :: 0 <= i < |s| && Rank(t[i]) < Rank(s[i])) ==> TotalRank(t) < TotalRank(s)
  {
    if s != [] {
      var last := |s| - 1;
      AdvancesLowers(s[..last], t[..last]);
      if i :| 0 <= i < |s| && Rank(t[i]) < Rank(s[i]) {
        if i < last {
          assert Rank(t[..last][i]) < Rank(s[..last][i]);
        }
      }
    }
  }

  lemma AdvancesFree(s: seq<GP3Type>, t: seq<GP3Type>)
    requires Advances(s, t)
    ensures FreeSet(t) <= FreeSet(s)
    ensures forall i :: 0 <= i < |s| && s[i] == FREE && t[i] != FREE ==> FreeSet(t) < FreeSet(s)
  {
    forall i | 0 <= i < |s| && s[i] == FREE && t[i] != FREE ensures FreeSet(t) < FreeSet(s) {
      assert i in FreeSet(s) && i !in FreeSet(t);
    }
  }

  predicate AllBelow(s: seq<nat>, n: nat) {
    forall i :: 0 <= i < |s| ==> s[i] < n
  }

  predicate NoDuplicates(s: seq<nat>) {
    forall i, j :: 0 <= i < j < |s| ==> s[i] != s[j]
  }

  lemma Below(s: seq<nat>, n: nat, i: nat)
    requires AllBelow(s, n) && i < |s|
    ensures s[i] < n
  {
  }

  lemma StillBelow(s: seq<nat>, n: nat, i: nat, v: nat)
    requires AllBelow(s, n) && i < |s| && v < n
    ensures AllBelow(s[i := v], n)
  {
  }

  lemma Apart(s: seq<nat>, i: nat, j: nat)
    requires NoDuplicates(s) && i < j < |s|
    ensures s[i] != s[j]
  {
  }

  /** The k-th neighbour on a way and those beside it. */
  lemma InOrder(order: seq<nat>, n: nat, k: nat)
    requires AllBelow(order, n) && NoDuplicates(order) && 0 < k < |order| - 1
    ensures order[0] < n && order[k - 1] < n && order[k] < n && order[k + 1] < n && order[|order| - 1] < n
    ensures order[k + 1] != order[k]
  {
  }

  /** A way around a vertex from one of its fringe neighbours, f and s, to the other. */
  predicate Around(order: seq<nat>, gaps: seq<bool>, n: nat, f: nat, s: nat) {
    && |order| == |gaps| >= 2 && AllBelow(order, n) && NoDuplicates(order)
    && ((order[0] == f && order[|order| - 1] == s) || (order[0] == s && order[|order| - 1] == f))
  }

  /** The two fringe neighbours of a vertex, and whether its triangles now close around it. */
  datatype Links = Links(ffn: nat, sfn: nat, closed: bool)

  /** Vertex `gone` leaves the fringe and `to` takes its place as a neighbour, unless it is one already. */
  function Unlink(f: nat, s: nat, gone: nat, to: nat): Links {
    if f == gone then if s == to then Links(f, s, true) else Links(to, s, false)
    else if s == gone then if f == to then Links(f, s, true) else Links(f, to, false)
    else Links(f, s, false)
  }

  /** `to` takes the place of `from` among two fringe neighbours. */
  function Replaced(f: nat, s: nat, from: nat, to: nat): (nat, nat) {
    if f == from then (to, s) else if s == from then (f, to) else (f, s)
  }

  /** `to` takes the place of `one` or, if that is no fringe neighbour, of `other`. */
  function ReplacedEither(f: nat, s: nat, one: nat, other: nat, to: nat): (nat, nat) {
    if f == one || s == one then Replaced(f, s, one, to) else Replaced(f, s, other, to)
  }

  /** Vertex v is completed if it closes. */
  function Marked(s: seq<GP3Type>, v: nat, closed: bool): (t: seq<GP3Type>)
    requires v < |s|
    ensures |t| == |s| && (!closed ==> t == s)
  {
    if closed then s[v := COMPLETED] else s
  }

  /** The end of a way loses `gone` unless there is a gap beside it. */
  function EndLinks(f: nat, s: nat, gone: nat, to: nat, gap: bool): (l: Links)
    ensures gap ==> !l.closed
  {
    if gap then Links(f, s, false) else Unlink(f, s, gone, to)
  }

  /** A vertex between two different neighbours closes exactly if these are `gone` and `to`; otherwise `to`
      and nothing else replaces `gone`. */
  lemma UnlinkMeaning(f: nat, s: nat, gone: nat, to: nat)
    requires f != s && gone != to
    ensures Unlink(f, s, gone, to).closed <==> {f, s} == {gone, to}
    ensures var l := Unlink(f, s, gone, to);
            !l.closed ==> l.ffn != l.sfn && {l.ffn, l.sfn} == if gone in {f, s} then {f, s} - {gone} + {to} else {f, s}
  {
    if {f, s} == {gone, to} {
      assert f in {gone, to} && s in {gone, to};
    }
  }

  /** Going from a vertex to its first fringe neighbour and back by the second leads around the triangle. */
  predicate Ring(ffn: seq<nat>, sfn: seq<nat>, a: nat, b: nat, c: nat) {
    && a < |ffn| && b < |ffn| && c < |ffn| && a < |sfn| && b < |sfn| && c < |sfn|
    && ffn[a] == b && ffn[b] == c && ffn[c] == a
    && sfn[b] == a && sfn[c] == b && sfn[a] == c
  }

  /** The neighbours strictly between the ends that do not lie between two gaps, up to the k-th. */
  function Linked(order: seq<nat>, gaps: seq<bool>, k: nat): seq<nat>
    requires |order| == |gaps| && 0 < k <= |order|
  {
    if k == 1 then []
    else Linked(order, gaps, k - 1) + if gaps[k - 1] && gaps[k - 2] then [] else [order[k - 1]]
  }

  // ----- triangles

  type Triangle = (nat, nat, nat)

  predicate IsCorner(t: Triangle, v: nat) {
    v == t.0 || v == t.1 || v == t.2
  }

  /** Some triangle has the corner v. */
  ghost predicate Cornered(ts: seq<Triangle>, v: nat) {
    exists t :: t in ts && IsCorner(t, v)
  }

  /** States develop, triangles are only added, and every vertex that joins the front becomes a corner of a
      triangle; the vertex `pending`, if there is one, may still be waiting for its first. */
  ghost predicate Develops(s: seq<GP3Type>, ts: seq<Triangle>, t: seq<GP3Type>, us: seq<Triangle>, pending: int)
    ensures Develops(s, ts, t, us, pending) ==> Advances(s, t) && ts <= us
    ensures s == t && ts == us ==> Develops(s, ts, t, us, pending)
  {
    && Advances(s, t) && ts <= us
    && forall v: nat :: v < |s| && Rank(s[v]) == 2 && Rank(t[v]) < 2 && v != pending ==> Cornered(us, v)
  }

  lemma CorneredStays(ts: seq<Triangle>, us: seq<Triangle>, v: nat)
    requires ts <= us && Cornered(ts, v)
    ensures Cornered(us, v)
  {
    var t :| t in ts && IsCorner(t, v);
    assert t in us;
  }

  /** The triangles from the m-th on. */
  function Added(ts: seq<Triangle>, m: nat): seq<Triangle> {
    if m <= |ts| then ts[m..] else []
  }

  lemma TriangleStays(ts: seq<Triangle>, us: seq<Triangle>, t: Triangle)
    requires ts + [t] <= us
    ensures t in Added(us, |ts|)
  {
    assert Added(us, |ts|)[0] == t;
  }

  lemma AddedStays(ts: seq<Triangle>, us: seq<Triangle>, m: nat, k: nat)
    requires ts <= us && m <= k
    ensures forall t :: t in Added(ts, m) ==> t in Added(us, m)
    ensures forall t :: t in Added(us, k) ==> t in Added(us, m)
  {
    if m <= |ts| {
      assert Added(ts, m) <= Added(us, m);
    }
    forall t | t in Added(us, k) ensures t in Added(us, m) {
      var i :| 0 <= i < |Added(us, k)| && Added(us, k)[i] == t;
      assert us[m..][k - m + i] == t;
    }
  }

  lemma AddedCornered(ts: seq<Triangle>, m: nat, v: nat)
    requires Cornered(Added(ts, m), v)
    ensures Cornered(ts, v)
  {
    var t :| t in Added(ts, m) && IsCorner(t, v);
    assert t in ts;
  }

  lemma DevelopsTrans(s: seq<GP3Type>, ts: seq<Triangle>, t: seq<GP3Type>, us: seq<Triangle>, u: seq<GP3Type>,
    vs: seq<Triangle>, x: int, y: int)
    requires Develops(s, ts, t, us, x) && Develops(t, us, u, vs, y)
    requires x >= 0 && x != y ==> Cornered(vs, x)
    ensures Develops(s, ts, u, vs, y)
  {
    hide Cornered, Advances;
    AdvancesTrans(s, t, u);
    forall v: nat | v < |s| && Rank(s[v]) == 2 && Rank(u[v]) < 2 && v != y ensures Cornered(vs, v) {
      if Rank(t[v]) < 2 && v != x {
        CorneredStays(us, vs, v);
      }
    }
  }

  lemma AddCorners(s: seq<GP3Type>, ts: seq<Triangle>, a: nat, b: nat, c: nat)
    ensures var us := ts + [(a, b, c)];
            Develops(s, ts, s, us, -1) && Cornered(us, a) && Cornered(us, b) && Cornered(us, c)
  {
    var t := (a, b, c);
    assert t in ts + [t] && IsCorner(t, a) && IsCorner(t, b) && IsCorner(t, c);
  }

  lemma TriangleCorner(ts: seq<Triangle>, a: nat, b: nat, c: nat)
    ensures Cornered(Added(ts + [(a, b, c)], |ts|), c)
  {
    assert Added(ts + [(a, b, c)], |ts|)[0] == (a, b, c) && IsCorner((a, b, c), c);
  }

  /** A vertex of the front, or a corner, may be completed. */
  lemma MayComplete(s: seq<GP3Type>, ts: seq<Triangle>, v: nat)
    requires v < |s| && (Rank(s[v]) < 2 || Cornered(ts, v))
    ensures Develops(s, ts, s[v := COMPLETED], ts, -1)
  {
    hide Cornered;
  }

  /** Only a corner, or the pending vertex, may join the front. */
  lemma MayJoin(s: seq<GP3Type>, ts: seq<Triangle>, v: nat, pending: int)
    requires v < |s| && Rank(s[v]) == 2 && (v == pending || Cornered(ts, v))
    ensures Develops(s, ts, s[v := FRINGE], ts, pending)
  {
    hide Cornered;
  }

  lemma MaySettle(s: seq<GP3Type>, ts: seq<Triangle>, v: nat, t: GP3Type)
    requires v < |s| && s[v] == FRINGE && Settled(t)
    ensures Develops(s, ts, s[v := t], ts, -1)
  {
  }

  /** Every vertex on or behind the front is a corner of a triangle. */
  ghost predicate Meshed(s: seq<GP3Type>, ts: seq<Triangle>) {
    forall v: nat :: v < |s| && Rank(s[v]) < 2 ==> Cornered(ts, v)
  }

  lemma MeshedStays(s: seq<GP3Type>, ts: seq<Triangle>, t: seq<GP3Type>, us: seq<Triangle>)
    requires Meshed(s, ts) && Develops(s, ts, t, us, -1)
    ensures Meshed(t, us)
  {
    hide Cornered;
    forall v: nat | v < |t| && Rank(t[v]) < 2 ensures Cornered(us, v) {
      if Rank(s[v]) < 2 {
        CorneredStays(ts, us, v);
      }
    }
  }

  /** Around R, neighbours that follow each other without a gap form a triangle with it, which is not among
      the first m. */
  ghost predicate Fan(ts: seq<Triangle>, m: nat, order: seq<nat>, gaps: seq<bool>, R: nat, upto: int)
    requires |order| == |gaps| && upto < |order|
  {
    forall i {:trigger gaps[i]} :: 0 <= i < upto && !gaps[i] ==> Wedge(order, R, i) in Added(ts, m)
  }

  /** The triangle of R with the i-th neighbour and the next; the last one is turned the other way. */
  function Wedge(order: seq<nat>, R: nat, i: nat): Triangle
    requires i + 1 < |order|
  {
    if i + 2 < |order| then (order[i + 1], order[i], R) else (order[i], order[i + 1], R)
  }

  lemma FanNext(ts: seq<Triangle>, us: seq<Triangle>, m: nat, order: seq<nat>, gaps: seq<bool>, R: nat, k: nat)
    requires |order| == |gaps| && k + 1 < |order| && Fan(ts, m, order, gaps, R, k) && m <= |ts| && ts <= us
    requires !gaps[k] ==> Wedge(order, R, k) in Added(us, |ts|)
    ensures Fan(us, m, order, gaps, R, k + 1)
  {
    AddedStays(ts, us, m, |ts|);
  }

  /** Every neighbour of a gapless pair in the fan is a corner, and so is R. */
  lemma FanCorners(ts: seq<Triangle>, m: nat, order: seq<nat>, gaps: seq<bool>, R: nat, upto: int, i: nat)
    requires |order| == |gaps| && i < upto < |order| && Fan(ts, m, order, gaps, R, upto) && !gaps[i]
    ensures Cornered(ts, order[i]) && Cornered(ts, order[i + 1]) && Cornered(Added(ts, m), R)
  {
    var t := Wedge(order, R, i);
    assert t in Added(ts, m) && IsCorner(t, order[i]) && IsCorner(t, order[i + 1]) && IsCorner(t, R);
    AddedCornered(ts, m, order[i]);
    AddedCornered(ts, m, order[i + 1]);
  }

  lemma FanStart(ts: seq<Triangle>, m: nat, order: seq<nat>, gaps: seq<bool>, R: nat)
    requires |order| == |gaps| > 0
    ensures Fan(ts, m, order, gaps, R, 0)
  {
  }

  predicate AllGaps(gaps: seq<bool>) {
    forall i :: 0 <= i < |gaps| - 1 ==> gaps[i]
  }

  predicate NoGaps(gaps: seq<bool>) {
    forall i :: 0 <= i < |gaps| - 1 ==> !gaps[i]
  }

  lemma SomeFill(gaps: seq<bool>) returns (i: nat)
    requires !AllGaps(gaps)
    ensures i < |gaps| - 1 && !gaps[i]
  {
    i :| i < |gaps| - 1 && !gaps[i];
  }

  lemma GapsAtEnds(gaps: seq<bool>)
    requires AllGaps(gaps) && |gaps| >= 2
    ensures gaps[0] && gaps[|gaps| - 2] && true in gaps
  {
    assert gaps[0];
  }

  lemma GapsAround(gaps: seq<bool>, k: nat)
    requires AllGaps(gaps) && 0 < k < |gaps| - 1
    ensures gaps[k] && gaps[k - 1]
  {
  }

  /** The triangles lead from one vertex to another around R without a break: each two neighbours that
      follow each other on the way are corners of one of them, together with R. */
  ghost predicate Leads(ts: seq<Triangle>, way: seq<nat>, R: nat) {
    |way| >= 2 && forall i :: 0 <= i < |way| - 1 ==>
      (way[i], way[i + 1], R) in ts || (way[i + 1], way[i], R) in ts
  }

  lemma FanLeads(ts: seq<Triangle>, m: nat, order: seq<nat>, gaps: seq<bool>, R: nat)
    requires |order| == |gaps| >= 2 && Fan(ts, m, order, gaps, R, |order| - 1) && NoGaps(gaps)
    ensures Leads(Added(ts, m), order, R)
  {
    forall i | 0 <= i < |order| - 1
      ensures (order[i], order[i + 1], R) in Added(ts, m) || (order[i + 1], order[i], R) in Added(ts, m)
    {
      assert !gaps[i];
    }
  }

  /** What the geometry tells of a fringe vertex R: a fringe neighbour is out of range; at most two
      neighbours are visible, and edge and angle allow to close the triangle or not; the fringe neighbours
      are not found among the visible ones; or the way from one of them to the other. */
  datatype Sight =
    | OutOfRange
    | TwoVisible(closable: bool, ffnFirst: bool)
    | NotLocated
    | Way(order: seq<nat>, gaps: seq<bool>, isBoundary: bool)

  /** After the k-th neighbour the vertex that may still wait for a triangle: the k-th one, if no gap
      follows it. */
  function Waiting(order: seq<nat>, gaps: seq<bool>, k: int): int
    requires 0 <= k < |order| == |gaps|
  {
    if gaps[k] then -1 else order[k]
  }

  lemma WaitingAtStart(s: seq<GP3Type>, ts: seq<Triangle>, order: seq<nat>, gaps: seq<bool>)
    requires |order| == |gaps| > 0
    ensures Develops(s, ts, s, ts, Waiting(order, gaps, 0))
  {
  }

  lemma MayGiveUp(s: seq<GP3Type>, ts: seq<Triangle>, v: nat, pending: int)
    requires v < |s| && Rank(s[v]) == 2
    ensures Develops(s, ts, s[v := NONE], ts, pending)
  {
  }

  /** Three vertices join the front as the corners of a new triangle. */
  lemma ThreeJoin(s: seq<GP3Type>, ts: seq<Triangle>, a: nat, b: nat, c: nat)
    requires a < |s| && b < |s| && c < |s| && a != b && b != c && a != c
    requires Rank(s[a]) == 2 && Rank(s[b]) == 2 && Rank(s[c]) == 2
    ensures Develops(s, ts, s[a := FRINGE][b := FRINGE][c := FRINGE], ts + [(a, b, c)], -1)
  {
    AddCorners(s, ts, a, b, c);
    hide Cornered;
  }

  /** A vertex that was taken up, perhaps joining the front, has been connected: it is a corner now or waits. */
  lemma TakenUp(s0: seq<GP3Type>, s1: seq<GP3Type>, t0: seq<Triangle>, t1: seq<Triangle>, s2: seq<GP3Type>,
    t2: seq<Triangle>, v: nat, joined: bool, pending: int)
    requires v < |s0| && if joined then Rank(s0[v]) == 2 && s1 == s0[v := FRINGE] else s1 == s0
    requires t0 <= t1 && Develops(s1, t1, s2, t2, -1) && (pending == v || (pending == -1 && Cornered(t1, v)))
    ensures Develops(s0, t0, s2, t2, pending)
  {
    hide Cornered;
    if pending == -1 {
      CorneredStays(t1, t2, v);
    }
  }

  lemma StaysTaken(s: seq<GP3Type>, t: seq<GP3Type>, v: nat)
    requires Advances(s, t) && v < |s| && s[v] != FREE
    ensures t[v] != FREE
  {
  }

  lemma AllStayTaken(s: seq<GP3Type>, t: seq<GP3Type>, order: seq<nat>, k: nat)
    requires Advances(s, t) && k <= |order| && forall i :: 0 < i < k ==> order[i] < |s| && s[order[i]] != FREE
    ensures forall i :: 0 < i < k ==> t[order[i]] != FREE
  {
  }

  lemma StaysSettled(s: seq<GP3Type>, t: seq<GP3Type>, v: nat)
    requires Advances(s, t) && v < |s| && Settled(s[v])
    ensures Settled(t[v]) && (s[v] == COMPLETED ==> t[v] == COMPLETED)
  {
  }

  /** Of the vertices of q from `start` up to `upto`, those on the fringe at first, in s, are settled in t. */
  ghost predicate Served(s: seq<GP3Type>, q: seq<nat>, start: nat, upto: nat, t: seq<GP3Type>) {
    forall i :: start <= i < upto && i < |q| && q[i] < |s| && s[q[i]] == FRINGE ==> q[i] < |t| && Settled(t[q[i]])
  }

  lemma ServedAtStart(s: seq<GP3Type>, q: seq<nat>, start: nat)
    ensures Served(s, q, start, start, s)
  {
  }

  lemma ServedAtEnd(s: seq<GP3Type>, q: seq<nat>, start: nat, upto: nat, t: seq<GP3Type>)
    requires Served(s, q, start, upto, t) && |q| <= upto
    ensures forall i :: start <= i < |q| && q[i] < |s| && s[q[i]] == FRINGE ==> q[i] < |t| && Settled(t[q[i]])
  {
  }

  /** What has left the fringe is settled. */
  lemma ServedNext(s: seq<GP3Type>, q: seq<nat>, start: nat, from: nat, upto: nat, t: seq<GP3Type>)
    requires Served(s, q, start, from, t) && start <= from <= upto && Advances(s, t)
    requires forall i :: from <= i < upto && i < |q| && q[i] < |s| ==> t[q[i]] != FRINGE
    ensures Served(s, q, start, upto, t)
  {
  }

  lemma ServedStays(s: seq<GP3Type>, q: seq<nat>, start: nat, upto: nat, t: seq<GP3Type>, u: seq<GP3Type>)
    requires Served(s, q, start, upto, t) && Advances(t, u)
    ensures Served(s, q, start, upto, u)
  {
  }

  lemma StillHandled(s: seq<GP3Type>, t: seq<GP3Type>, processed: seq<nat>)
    requires Advances(s, t)
    requires forall i :: 0 <= i < |processed| ==> processed[i] < |s| && Settled(s[processed[i]])
    ensures forall i :: 0 <= i < |processed| ==> processed[i] < |t| && Settled(t[processed[i]])
  {
  }
}
