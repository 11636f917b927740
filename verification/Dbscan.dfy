/** `filters.dbscan`: density clustering by worklist expansion over precomputed neighbourhoods.
    The radius search is the neighbour lists `g`; the work set yields its elements in any order.
 */
module Dbscan {

  /** g[p] lists the points within `eps` of point p. */
  type Graph = seq<seq<nat>>

  const UNVISITED := -2
  const NOISE := -1

  /** What a radius search returns: existing points, and a symmetric relation. */
  ghost predicate IsGraph(g: Graph) {
    && (forall p, i :: 0 <= p < |g| && 0 <= i < |g[p]| ==> g[p][i] < |g|)
    && (forall p, q :: 0 <= p < |g| && q in g[p] && q < |g| ==> p in g[q])
  }

  lemma Symmetric(g: Graph, p: nat, q: nat)
    requires IsGraph(g) && p < |g| && q in g[p]
    ensures q < |g| && p in g[q]
  {
    var i :| 0 <= i < |g[p]| && g[p][i] == q;
    assert g[p][i] < |g|;
  }

  function Neighbors(g: Graph, p: nat): set<nat>
    requires p < |g|
  {
    set q | q in g[p]
  }

  predicate Core(g: Graph, minPoints: nat, p: nat) {
    p < |g| && |g[p]| >= minPoints
  }

  // ----- density connection

  /** Core points, each a neighbour of the one before it. */
  ghost predicate Chain(g: Graph, minPoints: nat, path: seq<nat>) {
    && |path| > 0
    && (forall i :: 0 <= i < |path| ==> Core(g, minPoints, path[i]))
    && (forall i :: 0 <= i < |path| - 1 ==> path[i + 1] in g[path[i]])
  }

  ghost predicate Joins(g: Graph, minPoints: nat, path: seq<nat>, p: nat, q: nat) {
    Chain(g, minPoints, path) && path[0] == p && path[|path| - 1] == q
  }

  ghost predicate Connected(g: Graph, minPoints: nat, p: nat, q: nat) {
    exists path :: Joins(g, minPoints, path, p, q)
  }

  lemma ConnectedSelf(g: Graph, minPoints: nat, p: nat)
    requires Core(g, minPoints, p)
    ensures Connected(g, minPoints, p, p)
  {
    assert Joins(g, minPoints, [p], p, p);
  }

  lemma ConnectedStep(g: Graph, minPoints: nat, p: nat, q: nat, r: nat)
    requires Core(g, minPoints, p) && q in g[p] && Connected(g, minPoints, q, r)
    ensures Connected(g, minPoints, p, r)
  {
    var path :| Joins(g, minPoints, path, q, r);
    var longer := [p] + path;
    forall i | 0 <= i < |longer| - 1 ensures longer[i + 1] in g[longer[i]] {
      if i > 0 {
        assert longer[i] == path[i - 1] && longer[i + 1] == path[i];
      }
    }
    assert Joins(g, minPoints, longer, p, r);
  }

  lemma {:induction false} ConnectedTrans(g: Graph, minPoints: nat, path: seq<nat>, p: nat, q: nat, r: nat)
    requires Joins(g, minPoints, path, p, q) && Connected(g, minPoints, q, r)
    ensures Connected(g, minPoints, p, r)
    decreases |path|
  {
    if |path| > 1 {
      var tail := path[1..];
      forall i | 0 <= i < |tail| - 1 ensures tail[i + 1] in g[tail[i]] {
        assert tail[i] == path[i + 1] && tail[i + 1] == path[i + 1 + 1];
      }
      assert Joins(g, minPoints, tail, path[1], q);
      ConnectedTrans(g, minPoints, tail, path[1], q, r);
      assert path[0 + 1] in g[path[0]];
      ConnectedStep(g, minPoints, p, path[1], r);
    }
  }

  lemma {:induction false} ConnectedBack(g: Graph, minPoints: nat, path: seq<nat>, p: nat, q: nat)
    requires IsGraph(g) && Joins(g, minPoints, path, p, q)
    ensures Connected(g, minPoints, q, p)
  {
    var back := seq(|path|, i requires 0 <= i < |path| => path[|path| - 1 - i]);
    forall i | 0 <= i < |back| - 1 ensures back[i + 1] in g[back[i]] {
      var j := |path| - 2 - i;
      assert path[j + 1] in g[path[j]];
    }
    assert Joins(g, minPoints, back, q, p);
  }

  /** Connection is an equivalence on core points. */
  lemma ConnectedVia(g: Graph, minPoints: nat, p: nat, q: nat, r: nat)
    requires IsGraph(g) && Connected(g, minPoints, p, r) && Connected(g, minPoints, q, r)
    ensures Connected(g, minPoints, p, q) && Connected(g, minPoints, r, p)
  {
    var pr :| Joins(g, minPoints, pr, p, r);
    var qr :| Joins(g, minPoints, qr, q, r);
    ConnectedBack(g, minPoints, qr, q, r);
    ConnectedTrans(g, minPoints, pr, p, r, q);
    ConnectedBack(g, minPoints, pr, p, r);
  }

  // ----- what the labels mean

  /** The least core point of its component. */
  ghost predicate Leader(g: Graph, minPoints: nat, p: nat) {
    Core(g, minPoints, p) && forall q :: 0 <= q < p ==> !Connected(g, minPoints, p, q)
  }

  /** The leaders below n, in increasing order. */
  ghost function Leaders(g: Graph, minPoints: nat, n: nat): (s: seq<nat>)
    ensures forall i :: 0 <= i < |s| ==> s[i] < n && Leader(g, minPoints, s[i])
    ensures forall i, j :: 0 <= i < j < |s| ==> s[i] < s[j]
    ensures forall p: nat :: p < n && Leader(g, minPoints, p) ==> p in s
  {
    if n == 0 then []
    else Leaders(g, minPoints, n - 1) + if Leader(g, minPoints, n - 1) then [n - 1] else []
  }

  /** A core point among the neighbours of p carries label c. */
  ghost predicate TouchesCore(g: Graph, minPoints: nat, labels: seq<int>, p: nat, c: int)
    requires p < |g| == |labels|
  {
    exists q :: q in g[p] && Core(g, minPoints, q) && labels[q] == c
  }

  /** The labelling that the filter is for: the clusters of core points are the connected components,
      numbered from 0 in the order of their least members; any other point takes the least label among
      its core neighbours and is noise if it has none. */
  ghost predicate IsClustering(g: Graph, minPoints: nat, labels: seq<int>) {
    && |labels| == |g|
    && forall p :: 0 <= p < |g| ==>
      if Core(g, minPoints, p) then CoreLabelled(g, minPoints, labels, p) else BorderLabelled(g, minPoints, labels, p)
  }

  ghost predicate CoreLabelled(g: Graph, minPoints: nat, labels: seq<int>, p: nat)
    requires p < |labels|
  {
    var leaders := Leaders(g, minPoints, |g|);
    0 <= labels[p] < |leaders| && Connected(g, minPoints, p, leaders[labels[p]])
  }

  ghost predicate BorderLabelled(g: Graph, minPoints: nat, labels: seq<int>, p: nat)
    requires p < |g| == |labels|
  {
    if exists q :: q in g[p] && Core(g, minPoints, q) then
      && TouchesCore(g, minPoints, labels, p, labels[p])
      && forall q :: q in g[p] && Core(g, minPoints, q) ==> labels[p] <= labels[q]
    else labels[p] == NOISE
  }

  /** Two leaders are never connected. */
  lemma LeadersApart(g: Graph, minPoints: nat, a: nat, b: nat)
    requires IsGraph(g) && Leader(g, minPoints, a) && Leader(g, minPoints, b) && Connected(g, minPoints, a, b)
    ensures a == b
  {
    ConnectedSelf(g, minPoints, b);
    ConnectedVia(g, minPoints, a, b, b);
  }

  /** Connected core points have the same leader. */
  lemma SameLeader(g: Graph, minPoints: nat, p: nat, q: nat, a: nat, b: nat)
    requires IsGraph(g) && Core(g, minPoints, p) && Connected(g, minPoints, p, q)
    requires Leader(g, minPoints, a) && Connected(g, minPoints, p, a)
    requires Leader(g, minPoints, b) && Connected(g, minPoints, q, b)
    ensures a == b
  {
    hide IsGraph, Leader;
    var path :| Joins(g, minPoints, path, p, q);
    ConnectedTrans(g, minPoints, path, p, q, b);
    var pa :| Joins(g, minPoints, pa, p, a);
    ConnectedBack(g, minPoints, pa, p, a);
    var ap :| Joins(g, minPoints, ap, a, p);
    ConnectedTrans(g, minPoints, ap, a, p, b);
    LeadersApart(g, minPoints, a, b);
  }

  /** Two core points share a label exactly when a chain of core points joins them. */
  lemma SameLabelIffConnected(g: Graph, minPoints: nat, labels: seq<int>, p: nat, q: nat)
    requires IsGraph(g) && IsClustering(g, minPoints, labels)
    requires Core(g, minPoints, p) && Core(g, minPoints, q)
    ensures labels[p] == labels[q] <==> Connected(g, minPoints, p, q)
  {
    hide *;
    var a := LeaderOf(g, minPoints, labels, p);
    var b := LeaderOf(g, minPoints, labels, q);
    if labels[p] == labels[q] {
      OneLeader(g, minPoints, labels[p], a, b);
      ConnectedVia(g, minPoints, p, q, a);
    }
    if Connected(g, minPoints, p, q) {
      SameLeader(g, minPoints, p, q, a, b);
      OneNumber(g, minPoints, labels[p], labels[q], a);
    }
  }

  /** Number k belongs to the leader a. */
  ghost predicate Numbers(g: Graph, minPoints: nat, k: int, a: nat) {
    0 <= k < |Leaders(g, minPoints, |g|)| && Leaders(g, minPoints, |g|)[k] == a
  }

  lemma OneLeader(g: Graph, minPoints: nat, k: int, a: nat, b: nat)
    requires Numbers(g, minPoints, k, a) && Numbers(g, minPoints, k, b)
    ensures a == b
  {
  }

  lemma OneNumber(g: Graph, minPoints: nat, j: int, k: int, a: nat)
    requires Numbers(g, minPoints, j, a) && Numbers(g, minPoints, k, a)
    ensures j == k
  {
    hide Leader;
  }

  /** The leader that the label of a core point names. */
  lemma LeaderOf(g: Graph, minPoints: nat, labels: seq<int>, p: nat) returns (a: nat)
    requires IsClustering(g, minPoints, labels) && Core(g, minPoints, p)
    ensures p < |labels| == |g| && Numbers(g, minPoints, labels[p], a)
    ensures Leader(g, minPoints, a) && Connected(g, minPoints, p, a)
  {
    hide Leader, Connected, IsClustering, Core;
    CoreLabel(g, minPoints, labels, p);
    a := Leaders(g, minPoints, |g|)[labels[p]];
  }

  lemma LeaderIsCore(g: Graph, minPoints: nat, p: nat)
    requires Leader(g, minPoints, p)
    ensures Core(g, minPoints, p) && p < |g|
  {
  }

  /** The labels in use are consecutive from 0, and label k belongs to the k-th leader. */
  lemma LeaderLabels(g: Graph, minPoints: nat, labels: seq<int>, k: nat)
    requires IsGraph(g) && IsClustering(g, minPoints, labels)
    requires k < |Leaders(g, minPoints, |g|)|
    ensures labels[Leaders(g, minPoints, |g|)[k]] == k
  {
    hide *;
    var leaders := Leaders(g, minPoints, |g|);
    LeaderIsCore(g, minPoints, leaders[k]);
    CoreLabel(g, minPoints, labels, leaders[k]);
    LeadersApart(g, minPoints, leaders[k], leaders[labels[leaders[k]]]);
  }

  /** There is only one such labelling: whatever order the work set yields, the result is the same. */
  lemma ClusteringUnique(g: Graph, minPoints: nat, a: seq<int>, b: seq<int>)
    requires IsGraph(g) && IsClustering(g, minPoints, a) && IsClustering(g, minPoints, b)
    ensures a == b
  {
    hide *;
    ClusteringSize(g, minPoints, a);
    ClusteringSize(g, minPoints, b);
    forall p | 0 <= p < |g| && Core(g, minPoints, p) ensures a[p] == b[p] {
      SameCoreLabel(g, minPoints, a, b, p);
    }
    forall p | 0 <= p < |g| && !Core(g, minPoints, p) ensures a[p] == b[p] {
      BorderLabel(g, minPoints, a, p);
      BorderLabel(g, minPoints, b, p);
      SameBorderLabel(g, minPoints, a, b, p);
    }
  }

  lemma ClusteringSize(g: Graph, minPoints: nat, labels: seq<int>)
    requires IsClustering(g, minPoints, labels)
    ensures |labels| == |g|
  {
  }

  lemma BorderLabel(g: Graph, minPoints: nat, labels: seq<int>, p: nat)
    requires IsClustering(g, minPoints, labels) && p < |g| && !Core(g, minPoints, p)
    ensures |labels| == |g| && BorderLabelled(g, minPoints, labels, p)
  {
    hide CoreLabelled, BorderLabelled;
  }

  lemma SameBorderLabel(g: Graph, minPoints: nat, a: seq<int>, b: seq<int>, p: nat)
    requires p < |g| == |a| == |b|
    requires BorderLabelled(g, minPoints, a, p) && BorderLabelled(g, minPoints, b, p)
    requires forall q :: 0 <= q < |g| && Core(g, minPoints, q) ==> a[q] == b[q]
    ensures a[p] == b[p]
  {
  }

  lemma SameCoreLabel(g: Graph, minPoints: nat, a: seq<int>, b: seq<int>, p: nat)
    requires IsGraph(g) && IsClustering(g, minPoints, a) && IsClustering(g, minPoints, b)
    requires Core(g, minPoints, p)
    ensures a[p] == b[p]
  {
    hide *;
    CoreLabel(g, minPoints, a, p);
    CoreLabel(g, minPoints, b, p);
    var leaders := Leaders(g, minPoints, |g|);
    ConnectedSelf(g, minPoints, p);
    SameLeader(g, minPoints, p, p, leaders[a[p]], leaders[b[p]]);
  }

  lemma CoreLabel(g: Graph, minPoints: nat, labels: seq<int>, p: nat)
    requires IsClustering(g, minPoints, labels) && Core(g, minPoints, p)
    ensures var leaders := Leaders(g, minPoints, |g|);
            p < |labels| == |g| && 0 <= labels[p] < |leaders| && Connected(g, minPoints, p, leaders[labels[p]])
  {
  }

  // ----- the same without leaders

  /** Points from p to q with at least minPoints neighbours each, every next one a neighbour of the last. */
  ghost predicate DensePath(g: Graph, minPoints: nat, path: seq<nat>, p: nat, q: nat) {
    && |path| > 0 && path[0] == p && path[|path| - 1] == q
    && (forall i :: 0 <= i < |path| ==> path[i] < |g| && |g[path[i]]| >= minPoints)
    && forall i :: 0 <= i < |path| - 1 ==> path[i + 1] in g[path[i]]
  }

  /** Point p has at least minPoints neighbours: its number is that of the other such points it can be
      reached from, and every smaller number is met first at a smaller point. */
  ghost predicate DenseLabel(g: Graph, minPoints: nat, labels: seq<int>, p: nat)
    requires p < |g| == |labels|
  {
    && labels[p] >= 0
    && (forall q: nat :: q < |g| && |g[q]| >= minPoints ==>
      (labels[q] == labels[p] <==> exists path :: DensePath(g, minPoints, path, p, q)))
    && forall k :: 0 <= k < labels[p] ==> MetBefore(g, minPoints, labels, p, k)
  }

  /** A point before p with at least minPoints neighbours has the label k. */
  ghost predicate MetBefore(g: Graph, minPoints: nat, labels: seq<int>, p: nat, k: int)
    requires p < |g| == |labels|
  {
    exists q: nat :: q < p && |g[q]| >= minPoints && labels[q] == k
  }

  /** Point p has fewer neighbours: it takes the least number among those that have at least minPoints
      neighbours, or -1 if there is none. */
  ghost predicate SparseLabel(g: Graph, minPoints: nat, labels: seq<int>, p: nat)
    requires p < |g| == |labels|
  {
    && (forall q :: q in g[p] && q < |g| && |g[q]| >= minPoints ==> 0 <= labels[p] <= labels[q])
    && (labels[p] == -1 || exists q :: q in g[p] && q < |g| && |g[q]| >= minPoints && labels[q] == labels[p])
  }

  ghost predicate DensityLabels(g: Graph, minPoints: nat, labels: seq<int>) {
    && |labels| == |g|
    && forall p: nat :: p < |g| ==>
      if |g[p]| >= minPoints then DenseLabel(g, minPoints, labels, p) else SparseLabel(g, minPoints, labels, p)
  }

  lemma PathIsChain(g: Graph, minPoints: nat, p: nat, q: nat)
    ensures Connected(g, minPoints, p, q) <==> exists path :: DensePath(g, minPoints, path, p, q)
  {
    if path :| Joins(g, minPoints, path, p, q) {
      assert forall i :: 0 <= i < |path| ==> Core(g, minPoints, path[i]);
      assert DensePath(g, minPoints, path, p, q);
    }
    if path :| DensePath(g, minPoints, path, p, q) {
      assert Joins(g, minPoints, path, p, q);
    }
  }

  /** No point connected to a leader comes before it. */
  lemma LeaderFirst(g: Graph, minPoints: nat, a: nat, p: nat)
    requires IsGraph(g) && Leader(g, minPoints, a) && Connected(g, minPoints, p, a)
    ensures a <= p
  {
    var path :| Joins(g, minPoints, path, p, a);
    ConnectedBack(g, minPoints, path, p, a);
  }

  /** Numbers are given in the order of the least points of the clusters. */
  lemma NumberedFirst(g: Graph, minPoints: nat, labels: seq<int>, p: nat, k: int) returns (q: nat)
    requires IsGraph(g) && IsClustering(g, minPoints, labels) && Core(g, minPoints, p)
    requires p < |labels| && 0 <= k < labels[p]
    ensures q < p && Core(g, minPoints, q) && q < |labels| && labels[q] == k
  {
    hide *;
    CoreLabel(g, minPoints, labels, p);
    var leaders := Leaders(g, minPoints, |g|);
    LeaderFirst(g, minPoints, leaders[labels[p]], p);
    q := leaders[k];
    LeaderIsCore(g, minPoints, q);
    LeaderLabels(g, minPoints, labels, k);
  }

  /** The clustering, told by numbers of neighbours and paths alone. */
  lemma ClusteringMeaning(g: Graph, minPoints: nat, labels: seq<int>)
    requires IsGraph(g) && IsClustering(g, minPoints, labels)
    ensures DensityLabels(g, minPoints, labels)
  {
    hide IsGraph, IsClustering, Connected, Leader, Leaders, DensePath, DenseLabel, SparseLabel;
    ClusteringSize(g, minPoints, labels);
    forall p: nat | p < |g|
      ensures if |g[p]| >= minPoints then DenseLabel(g, minPoints, labels, p)
              else SparseLabel(g, minPoints, labels, p)
    {
      if |g[p]| >= minPoints {
        DenseMeaning(g, minPoints, labels, p);
      } else {
        BorderLabel(g, minPoints, labels, p);
        SparseMeaning(g, minPoints, labels, p);
      }
    }
  }

  lemma DenseMeaning(g: Graph, minPoints: nat, labels: seq<int>, p: nat)
    requires IsGraph(g) && IsClustering(g, minPoints, labels) && p < |g| == |labels| && Core(g, minPoints, p)
    ensures DenseLabel(g, minPoints, labels, p)
  {
    hide IsGraph, IsClustering, Connected, Leader, Leaders, DensePath;
    CoreLabel(g, minPoints, labels, p);
    forall q: nat | q < |g| && |g[q]| >= minPoints
      ensures labels[q] == labels[p] <==> exists path :: DensePath(g, minPoints, path, p, q)
    {
      SameLabelIffConnected(g, minPoints, labels, p, q);
      PathIsChain(g, minPoints, p, q);
    }
    forall k | 0 <= k < labels[p] ensures MetBefore(g, minPoints, labels, p, k) {
      var q := NumberedFirst(g, minPoints, labels, p, k);
    }
  }

  lemma SparseMeaning(g: Graph, minPoints: nat, labels: seq<int>, p: nat)
    requires IsGraph(g) && IsClustering(g, minPoints, labels) && p < |g| == |labels|
    requires BorderLabelled(g, minPoints, labels, p)
    ensures SparseLabel(g, minPoints, labels, p)
  {
    hide IsGraph, IsClustering, Connected, Leader, Leaders;
    forall q | q in g[p] && q < |g| && |g[q]| >= minPoints ensures 0 <= labels[p] <= labels[q] {
      assert Core(g, minPoints, q);
      var touched :| touched in g[p] && Core(g, minPoints, touched) && labels[touched] == labels[p];
      CoreLabel(g, minPoints, labels, touched);
    }
  }

  // ----- what the loops keep

  /** The clusters of all leaders but the last are complete; that of the last one is, except for
      the points waiting in `next`. */
  ghost predicate Expanding(g: Graph, minPoints: nat, labels: seq<int>, next: set<nat>, visited: set<nat>,
    leaders: seq<nat>) {
    && |labels| == |g|
    && (forall p :: 0 <= p < |g| ==> UNVISITED <= labels[p] < |leaders|)
    && (forall p :: 0 <= p < |g| ==> CoreOk(g, minPoints, labels, next, leaders, p))
    && (forall p :: 0 <= p < |g| && labels[p] >= 0 && !Core(g, minPoints, p) ==>
      TouchesCore(g, minPoints, labels, p, labels[p]))
    && (forall p :: p in next ==> p < |g| && TouchesCore(g, minPoints, labels, p, |leaders| - 1))
    && (forall p :: p in visited ==> p < |g| && labels[p] >= 0)
  }

  /** A labelled core point is connected to its leader and has had its neighbours labelled. */
  ghost predicate CoreOk(g: Graph, minPoints: nat, labels: seq<int>, next: set<nat>, leaders: seq<nat>, q: nat)
    requires q < |g| == |labels|
  {
    Core(g, minPoints, q) ==>
      && labels[q] != NOISE
      && (labels[q] >= 0 ==>
        && labels[q] < |leaders| && Connected(g, minPoints, q, leaders[labels[q]])
        && forall p :: p in g[q] ==>
          p < |g| && (0 <= labels[p] <= labels[q] || (labels[q] == |leaders| - 1 && p in next)))
  }

  /** Once complete, clusters are closed under connection. */
  lemma {:induction false} LabelAlong(g: Graph, minPoints: nat, labels: seq<int>, visited: set<nat>, leaders: seq<nat>,
    path: seq<nat>, p: nat, q: nat)
    requires Expanding(g, minPoints, labels, {}, visited, leaders)
    requires Joins(g, minPoints, path, p, q) && labels[p] >= 0
    ensures labels[q] >= 0
    decreases |path|
  {
    if |path| > 1 {
      var tail := path[1..];
      forall i | 0 <= i < |tail| - 1 ensures tail[i + 1] in g[tail[i]] {
        assert tail[i] == path[i + 1] && tail[i + 1] == path[i + 1 + 1];
      }
      assert Joins(g, minPoints, tail, path[1], q);
      assert CoreOk(g, minPoints, labels, {}, leaders, p) && path[0 + 1] in g[path[0]];
      LabelAlong(g, minPoints, labels, visited, leaders, tail, path[1], q);
    }
  }

  /** The outer scan has passed the points below idx. */
  ghost predicate Scanned(g: Graph, minPoints: nat, labels: seq<int>, idx: nat) {
    && idx <= |g|
    && Expanding(g, minPoints, labels, {}, {}, Leaders(g, minPoints, idx))
    && forall p :: 0 <= p < idx ==> labels[p] != UNVISITED
  }

  /** An unvisited core point met by the scan is the leader of a new component. */
  lemma NewLeader(g: Graph, minPoints: nat, labels: seq<int>, idx: nat)
    requires IsGraph(g) && Scanned(g, minPoints, labels, idx)
    requires idx < |g| && labels[idx] == UNVISITED && Core(g, minPoints, idx)
    ensures Leader(g, minPoints, idx)
  {
    forall q | 0 <= q < idx ensures !Connected(g, minPoints, idx, q) {
      if Connected(g, minPoints, idx, q) {
        var path :| Joins(g, minPoints, path, idx, q);
        assert Core(g, minPoints, path[|path| - 1]);
        assert CoreOk(g, minPoints, labels, {}, Leaders(g, minPoints, idx), q);
        ConnectedBack(g, minPoints, path, idx, q);
        var back :| Joins(g, minPoints, back, q, idx);
        LabelAlong(g, minPoints, labels, {}, Leaders(g, minPoints, idx), back, q, idx);
      }
    }
  }

  /** A core point that already has a label is not a leader. */
  lemma OldLeader(g: Graph, minPoints: nat, labels: seq<int>, idx: nat)
    requires Scanned(g, minPoints, labels, idx) && idx < |g| && labels[idx] != UNVISITED
    ensures !Leader(g, minPoints, idx)
  {
    if Core(g, minPoints, idx) {
      var leaders := Leaders(g, minPoints, idx);
      assert CoreOk(g, minPoints, labels, {}, leaders, idx);
      assert Connected(g, minPoints, idx, leaders[labels[idx]]);
    }
  }

  lemma StartCluster(g: Graph, minPoints: nat, labels: seq<int>, leaders: seq<nat>, idx: nat)
    requires IsGraph(g) && Expanding(g, minPoints, labels, {}, {}, leaders)
    requires Core(g, minPoints, idx) && labels[idx] == UNVISITED
    ensures Expanding(g, minPoints, labels[idx := |leaders|], Neighbors(g, idx), {idx}, leaders + [idx])
  {
    hide IsGraph, Connected;
    var labels', leaders', next := labels[idx := |leaders|], leaders + [idx], Neighbors(g, idx);
    ConnectedSelf(g, minPoints, idx);
    forall q | 0 <= q < |g| ensures CoreOk(g, minPoints, labels', next, leaders', q) {
      assert CoreOk(g, minPoints, labels, {}, leaders, q);
      if q == idx {
        forall p | p in g[idx] ensures p < |g| { Symmetric(g, idx, p); }
      }
    }
    forall p | 0 <= p < |g| && labels'[p] >= 0 && !Core(g, minPoints, p)
      ensures TouchesCore(g, minPoints, labels', p, labels'[p])
    {
      KeepTouch(g, minPoints, labels, labels', p, labels[p]);
    }
    forall p | p in next ensures p < |g| && TouchesCore(g, minPoints, labels', p, |leaders'| - 1) {
      Symmetric(g, idx, p);
      assert idx in g[p] && labels'[idx] == |leaders'| - 1;
    }
  }

  /** Labels that are only added leave the labelled neighbours in place. */
  lemma KeepTouch(g: Graph, minPoints: nat, labels: seq<int>, labels': seq<int>, p: nat, c: int)
    requires p < |g| == |labels| == |labels'| && c >= 0 && TouchesCore(g, minPoints, labels, p, c)
    requires forall q :: 0 <= q < |g| && labels[q] >= 0 ==> labels'[q] == labels[q]
    ensures TouchesCore(g, minPoints, labels', p, c)
  {
    var q :| q in g[p] && Core(g, minPoints, q) && labels[q] == c;
    assert labels'[q] == c;
  }

  /** The popped point already has a label. */
  lemma PopLabelled(g: Graph, minPoints: nat, labels: seq<int>, next: set<nat>, visited: set<nat>, leaders: seq<nat>,
    p: nat)
    requires Expanding(g, minPoints, labels, next, visited, leaders) && p in next && labels[p] >= 0
    ensures Expanding(g, minPoints, labels, next - {p}, visited + {p}, leaders)
  {
    forall q | 0 <= q < |g| ensures CoreOk(g, minPoints, labels, next - {p}, leaders, q) {
      assert CoreOk(g, minPoints, labels, next, leaders, q);
    }
  }

  /** The popped point receives the label of the cluster; if it is a core point its neighbours are queued. */
  lemma PopFresh(g: Graph, minPoints: nat, labels: seq<int>, next: set<nat>, visited: set<nat>, leaders: seq<nat>,
    p: nat, next': set<nat>)
    requires IsGraph(g) && Expanding(g, minPoints, labels, next, visited, leaders)
    requires p in next && labels[p] < 0 && |leaders| > 0
    requires next' == if Core(g, minPoints, p)
                      then (next - {p}) + (Neighbors(g, p) - (visited + {p})) else next - {p}
    ensures Expanding(g, minPoints, labels[p := |leaders| - 1], next', visited + {p}, leaders)
  {
    hide IsGraph, Connected;
    var k := |leaders| - 1;
    var labels' := labels[p := k];
    forall q | 0 <= q < |g| ensures CoreOk(g, minPoints, labels', next', leaders, q) {
      PopCoreOk(g, minPoints, labels, next, visited, leaders, p, next', q);
    }
    forall q | 0 <= q < |g| && labels'[q] >= 0 && !Core(g, minPoints, q)
      ensures TouchesCore(g, minPoints, labels', q, labels'[q])
    {
      KeepTouch(g, minPoints, labels, labels', q, labels'[q]);
    }
    forall q | q in next' ensures q < |g| && TouchesCore(g, minPoints, labels', q, k) {
      if q in next {
        KeepTouch(g, minPoints, labels, labels', q, k);
      } else {
        Symmetric(g, p, q);
        assert p in g[q] && labels'[p] == k;
      }
    }
  }

  lemma PopCoreOk(g: Graph, minPoints: nat, labels: seq<int>, next: set<nat>, visited: set<nat>, leaders: seq<nat>,
    p: nat, next': set<nat>, q: nat)
    requires IsGraph(g) && Expanding(g, minPoints, labels, next, visited, leaders) && q < |g|
    requires p in next && labels[p] < 0 && |leaders| > 0
    requires next' == if Core(g, minPoints, p)
                      then (next - {p}) + (Neighbors(g, p) - (visited + {p})) else next - {p}
    ensures CoreOk(g, minPoints, labels[p := |leaders| - 1], next', leaders, q)
  {
    hide IsGraph, Connected;
    var k := |leaders| - 1;
    assert CoreOk(g, minPoints, labels, next, leaders, q);
    if q == p && Core(g, minPoints, p) {
      var s :| s in g[p] && Core(g, minPoints, s) && labels[s] == k;
      assert CoreOk(g, minPoints, labels, next, leaders, s);
      ConnectedStep(g, minPoints, p, s, leaders[k]);
      forall r | r in g[p] ensures r < |g| { Symmetric(g, p, r); }
    }
  }

  /** When the scan is over the labels are the clustering. */
  lemma ScanDone(g: Graph, minPoints: nat, labels: seq<int>)
    requires IsGraph(g) && Scanned(g, minPoints, labels, |g|)
    ensures IsClustering(g, minPoints, labels)
  {
    hide IsGraph, Connected, Leaders;
    var leaders := Leaders(g, minPoints, |g|);
    forall p | 0 <= p < |g| && Core(g, minPoints, p) ensures CoreLabelled(g, minPoints, labels, p)
    {
      assert CoreOk(g, minPoints, labels, {}, leaders, p);
    }
    forall p, q | 0 <= p < |g| && q in g[p] && Core(g, minPoints, q) ensures 0 <= labels[p] <= labels[q] {
      assert CoreOk(g, minPoints, labels, {}, leaders, q);
      Symmetric(g, p, q);
    }
    forall p | 0 <= p < |g| && !Core(g, minPoints, p) ensures BorderLabelled(g, minPoints, labels, p) {
    }
  }

  ghost function Unvisited(labels: seq<int>): set<nat> {
    set p: nat | p < |labels| && labels[p] == UNVISITED
  }

  /** The filter on a view whose points have the given neighbourhoods. */
  method Filter(neighbors: Graph, minPoints: nat, clusterId: array<int>)
    requires IsGraph(neighbors) && clusterId.Length == |neighbors|
    modifies clusterId
    ensures IsClustering(neighbors, minPoints, clusterId[..])
    ensures DensityLabels(neighbors, minPoints, clusterId[..])
  {
    hide Expanding, IsGraph, IsClustering, Scanned, Leader, Leaders, DensityLabels;
    var n := clusterId.Length;
    var idx := 0;
    while idx < n
      invariant 0 <= idx <= n && forall p :: 0 <= p < idx ==> clusterId[p] == UNVISITED
    {
      clusterId[idx] := UNVISITED;
      idx := idx + 1;
    }
    ScanStart(neighbors, minPoints, clusterId[..]);
    var clusterLabel := 0;
    idx := 0;
    while idx < n
      invariant 0 <= idx <= n
      invariant Scanned(neighbors, minPoints, clusterId[..], idx)
      invariant clusterLabel == |Leaders(neighbors, minPoints, idx)|
    {
      ghost var labels := clusterId[..];
      if clusterId[idx] != UNVISITED {
        SkipLabelled(neighbors, minPoints, labels, idx);
      } else if |neighbors[idx]| < minPoints {
        clusterId[idx] := NOISE;
        assert clusterId[..] == labels[idx := NOISE];
        MarkNoise(neighbors, minPoints, labels, idx);
      } else {
        Expand(neighbors, minPoints, clusterId, idx, clusterLabel);
        clusterLabel := clusterLabel + 1;
      }
      idx := idx + 1;
    }
    ScanDone(neighbors, minPoints, clusterId[..]);
    ClusteringMeaning(neighbors, minPoints, clusterId[..]);
  }

  lemma ScanStart(g: Graph, minPoints: nat, labels: seq<int>)
    requires |labels| == |g| && forall p :: 0 <= p < |g| ==> labels[p] == UNVISITED
    ensures Scanned(g, minPoints, labels, 0) && Leaders(g, minPoints, 0) == []
  {
  }

  lemma SkipLabelled(g: Graph, minPoints: nat, labels: seq<int>, idx: nat)
    requires Scanned(g, minPoints, labels, idx) && idx < |g| && labels[idx] != UNVISITED
    ensures Scanned(g, minPoints, labels, idx + 1)
    ensures Leaders(g, minPoints, idx + 1) == Leaders(g, minPoints, idx)
  {
    hide Expanding, Leader;
    OldLeader(g, minPoints, labels, idx);
    assert Leaders(g, minPoints, idx + 1) == Leaders(g, minPoints, idx);
  }

  lemma MarkNoise(g: Graph, minPoints: nat, labels: seq<int>, idx: nat)
    requires Scanned(g, minPoints, labels, idx) && idx < |g| && labels[idx] == UNVISITED && !Core(g, minPoints, idx)
    ensures Scanned(g, minPoints, labels[idx := NOISE], idx + 1)
    ensures Leaders(g, minPoints, idx + 1) == Leaders(g, minPoints, idx)
  {
    hide Connected;
    var labels', leaders := labels[idx := NOISE], Leaders(g, minPoints, idx);
    assert Leaders(g, minPoints, idx + 1) == leaders;
    forall q | 0 <= q < |g| ensures CoreOk(g, minPoints, labels', {}, leaders, q) {
      assert CoreOk(g, minPoints, labels, {}, leaders, q);
    }
    forall p | 0 <= p < |g| && labels'[p] >= 0 && !Core(g, minPoints, p)
      ensures TouchesCore(g, minPoints, labels', p, labels'[p])
    {
      KeepTouch(g, minPoints, labels, labels', p, labels[p]);
    }
  }

  /** Grow the cluster of the leader idx until no neighbour is left to consider. */
  method Expand(neighbors: Graph, minPoints: nat, clusterId: array<int>, idx: nat, clusterLabel: int)
    requires IsGraph(neighbors) && clusterId.Length == |neighbors|
    requires idx < |neighbors| && Scanned(neighbors, minPoints, clusterId[..], idx)
    requires clusterLabel == |Leaders(neighbors, minPoints, idx)|
    requires clusterId[idx] == UNVISITED && Core(neighbors, minPoints, idx)
    modifies clusterId
    ensures Scanned(neighbors, minPoints, clusterId[..], idx + 1)
    ensures |Leaders(neighbors, minPoints, idx + 1)| == clusterLabel + 1
  {
    hide Expanding, IsGraph, Leader, Leaders, Scanned;
    ghost var before, leaders := clusterId[..], Leaders(neighbors, minPoints, idx + 1);
    OpenCluster(neighbors, minPoints, before, idx);
    var next := Neighbors(neighbors, idx);
    var visited: set<nat> := {idx};
    clusterId[idx] := clusterLabel;
    assert clusterId[..] == before[idx := clusterLabel];
    while next != {}
      invariant Expanding(neighbors, minPoints, clusterId[..], next, visited, leaders)
      invariant forall p :: 0 <= p <= idx ==> clusterId[p] != UNVISITED
      decreases Unvisited(clusterId[..]), next
    {
      var p :| p in next;
      ghost var labels, next0, visited0 := clusterId[..], next, visited;
      PopBounds(neighbors, minPoints, labels, next, visited, leaders, p);
      next := next - {p};
      visited := visited + {p};
      if clusterId[p] == NOISE {
        clusterId[p] := clusterLabel;
        PopFresh(neighbors, minPoints, labels, next0, visited0, leaders, p, next);
        assert clusterId[..] == labels[p := clusterLabel];
        assert Unvisited(clusterId[..]) == Unvisited(labels);
      }
      if clusterId[p] != UNVISITED {
        if labels[p] != NOISE {
          PopLabelled(neighbors, minPoints, labels, next0, visited0, leaders, p);
        }
        continue;
      }
      clusterId[p] := clusterLabel;
      if |neighbors[p]| >= minPoints {
        next := next + (Neighbors(neighbors, p) - visited);
      }
      PopFresh(neighbors, minPoints, labels, next0, visited0, leaders, p, next);
      assert clusterId[..] == labels[p := clusterLabel];
      assert p in Unvisited(labels) && p !in Unvisited(clusterId[..]);
    }
    ClusterDone(neighbors, minPoints, clusterId[..], visited, idx);
  }

  lemma OpenCluster(g: Graph, minPoints: nat, labels: seq<int>, idx: nat)
    requires IsGraph(g) && Scanned(g, minPoints, labels, idx)
    requires idx < |g| && labels[idx] == UNVISITED && Core(g, minPoints, idx)
    ensures var leaders := Leaders(g, minPoints, idx);
            && Leaders(g, minPoints, idx + 1) == leaders + [idx]
            && Expanding(g, minPoints, labels[idx := |leaders|], Neighbors(g, idx), {idx}, leaders + [idx])
            && forall p :: 0 <= p < idx ==> labels[p] != UNVISITED
  {
    hide Expanding, IsGraph, Leader;
    NewLeader(g, minPoints, labels, idx);
    StartCluster(g, minPoints, labels, Leaders(g, minPoints, idx), idx);
  }

  lemma PopBounds(g: Graph, minPoints: nat, labels: seq<int>, next: set<nat>, visited: set<nat>, leaders: seq<nat>,
    p: nat)
    requires Expanding(g, minPoints, labels, next, visited, leaders) && p in next
    ensures |labels| == |g| && p < |g| && UNVISITED <= labels[p]
    ensures labels[p] == NOISE ==> !Core(g, minPoints, p)
  {
    assert CoreOk(g, minPoints, labels, next, leaders, p);
  }

  lemma ClusterDone(g: Graph, minPoints: nat, labels: seq<int>, visited: set<nat>, idx: nat)
    requires Expanding(g, minPoints, labels, {}, visited, Leaders(g, minPoints, idx + 1)) && idx < |g|
    requires forall p :: 0 <= p <= idx ==> labels[p] != UNVISITED
    ensures Scanned(g, minPoints, labels, idx + 1)
  {
    hide CoreOk, TouchesCore, Leaders;
  }
}
