/** `filters.info` in query mode: a list of the nearest points, kept sorted and bounded while the points
    stream past.
 */
module NearestList {
  import opened Options
  import opened StableInsertion

  datatype NearPoint = NearPoint(id: nat, dist: real)

  datatype Location = Location(x: real, y: real, z: real)

  predicate Nearer(a: NearPoint, b: NearPoint) {
    a.dist < b.dist
  }

  function Id(p: NearPoint): int {
    p.id
  }

  function First<T>(k: nat, s: seq<T>): seq<T> {
    if |s| <= k then s else s[..k]
  }

  /** The k nearest points of a stream, nearest first; of points at the same distance the earlier one. */
  function Nearest(k: nat, seen: seq<NearPoint>): seq<NearPoint> {
    First(k, InsertAll(Nearer, seen))
  }

  lemma InsertAllSorted(seen: seq<NearPoint>)
    requires Arriving(Id, seen)
    ensures StablySorted(Nearer, Id, InsertAll(Nearer, seen)) && Sorted(Nearer, InsertAll(Nearer, seen))
  {
    InsertAllStable(Nearer, Id, seen);
  }

  /** What the list means: it is sorted, it has min(k, n) entries, and every point left out comes after
      every point kept. */
  lemma NearestMeaning(k: nat, seen: seq<NearPoint>)
    requires Arriving(Id, seen)
    ensures var r := Nearest(k, seen);
            && |r| == (if |seen| <= k then |seen| else k)
            && StablySorted(Nearer, Id, r)
            && (forall p :: p in r ==> p in seen)
            && forall p, q :: p in r && q in seen && q !in r ==> Precedes(p, q)
  {
    hide InsertAll, StablySorted, Precedes, Nearer;
    var all := InsertAll(Nearer, seen);
    InsertAllSorted(seen);
    FirstSorted(k, all);
    SameMembers(all, seen);
    forall p, q | p in First(k, all) && q in all && q !in First(k, all) ensures Precedes(p, q) {
      LeftOut(k, all, p, q);
    }
  }

  lemma SameMembers(a: seq<NearPoint>, b: seq<NearPoint>)
    requires multiset(a) == multiset(b)
    ensures forall p :: p in a <==> p in b
  {
    forall p ensures p in a <==> p in b {
      assert p in multiset(a) <==> p in multiset(b);
    }
  }

  lemma FirstSorted(k: nat, all: seq<NearPoint>)
    requires StablySorted(Nearer, Id, all)
    ensures StablySorted(Nearer, Id, First(k, all)) && forall p :: p in First(k, all) ==> p in all
  {
    hide Nearer;
  }

  /** Nearer, or as near and earlier. */
  predicate Precedes(p: NearPoint, q: NearPoint) {
    p.dist < q.dist || (p.dist == q.dist && p.id < q.id)
  }

  lemma LeftOut(k: nat, all: seq<NearPoint>, p: NearPoint, q: NearPoint)
    requires StablySorted(Nearer, Id, all) && p in First(k, all) && q in all && q !in First(k, all)
    ensures Precedes(p, q)
  {
    var i :| 0 <= i < |First(k, all)| && First(k, all)[i] == p;
    var j :| 0 <= j < |all| && all[j] == q;
    assert all[i] == p;
    assert forall m :: 0 <= m < |First(k, all)| ==> First(k, all)[m] == all[m];
  }

  // ----- keeping the list bounded

  lemma UpperBoundUnique(s: seq<NearPoint>, x: NearPoint, p: nat)
    requires p <= |s| && (forall i :: 0 <= i < p ==> !Nearer(x, s[i])) && (p < |s| ==> Nearer(x, s[p]))
    ensures UpperBound(Nearer, s, x) == p
  {
    var u := UpperBound(Nearer, s, x);
    if u < |s| && p < |s| {
      assert Nearer(x, s[u]) && Nearer(x, s[p]);
    }
  }

  /** A point that is not nearer than the last of a full list does not belong in it. */
  lemma SkipFarther(k: nat, all: seq<NearPoint>, x: NearPoint)
    requires Sorted(Nearer, all) && 0 < k <= |all| && !Nearer(x, all[k - 1])
    ensures First(k, Insert(Nearer, all, x)) == First(k, all)
  {
    var p := UpperBound(Nearer, all, x);
    assert p == k - 1 || !(p < k - 1) || !Nearer(all[k - 1], all[p]);
  }

  /** Inserting into the bounded list and dropping its last element is inserting into the whole list. */
  lemma InsertNearer(k: nat, all: seq<NearPoint>, x: NearPoint)
    requires Sorted(Nearer, all) && k > 0
    requires |all| < k || Nearer(x, all[k - 1])
    ensures First(k, Insert(Nearer, First(k, all), x)) == First(k, Insert(Nearer, all, x))
  {
    if |all| > k {
      var p := UpperBound(Nearer, all, x);
      assert p <= k - 1;
      UpperBoundUnique(all[..k], x, p);
      hide UpperBound, Nearer, Sorted;
      InsertAt(all[..k], x, p);
      InsertAt(all, x, p);
      SamePrefix(all, x, p, k);
    }
  }

  lemma InsertAt(s: seq<NearPoint>, x: NearPoint, p: nat)
    requires UpperBound(Nearer, s, x) == p
    ensures p <= |s| && Insert(Nearer, s, x) == s[..p] + [x] + s[p..]
  {
    hide Nearer, UpperBound;
  }

  lemma SamePrefix(s: seq<NearPoint>, x: NearPoint, p: nat, k: nat)
    requires p < k <= |s|
    ensures (s[..k][..p] + [x] + s[..k][p..])[..k] == (s[..p] + [x] + s[p..])[..k]
  {
    var kept, full := s[..k][..p] + [x] + s[..k][p..], s[..p] + [x] + s[p..];
    forall i | 0 <= i < k ensures kept[i] == full[i] {
    }
  }

  class InfoFilter {
    const queryGiven: bool
    const queryCount: nat
    const queryX: real
    const queryY: real
    const queryZ: Option<real>
    const idList: seq<nat>
    var idCur: nat
    var results: seq<NearPoint>
    var count: nat
    /** The points seen so far, in order of arrival. */
    ghost var seen: seq<NearPoint>

    constructor (given: bool, k: nat, x: real, y: real, z: Option<real>, ids: seq<nat>)
      ensures Valid() && seen == [] && results == [] && count == 0
      ensures queryGiven == given && queryCount == k && queryX == x && queryY == y && queryZ == z && idList == ids
    {
      queryGiven, queryCount, queryX, queryY, queryZ, idList := given, k, x, y, z, ids;
      idCur, results, count, seen := 0, [], 0, [];
    }

    /** A query without a point list keeps the nearest points, whatever has been streamed. */
    ghost predicate Valid()
      reads this
    {
      && idCur <= |idList| && |seen| == count
      && (forall i :: 0 <= i < |seen| ==> seen[i].id == i)
      && (idList == [] ==> results == if queryGiven && queryCount > 0 then Nearest(queryCount, seen) else [])
    }

    /** The squared distance from the query location, in 2D unless a Z was given. */
    function Distance(at: Location): real {
      var dx, dy := at.x - queryX, at.y - queryY;
      dx * dx + dy * dy + if queryZ.None? then 0.0 else (at.z - queryZ.value) * (at.z - queryZ.value)
    }

    method ProcessOne(at: Location)
      requires Valid()
      modifies this
      ensures Valid()
      ensures count == old(count) + 1
      ensures seen == old(seen) + [NearPoint(old(count), Distance(at))]
      ensures if old(idCur) < |idList| && idList[old(idCur)] == old(count)
              then idCur == old(idCur) + 1 && results == old(results) + [NearPoint(old(count), 0.0)]
              else idCur == old(idCur)
    {
      hide Nearest, Insert, First, Distance, Nearer;
      ghost var before := seen;
      ghost var dist0 := Distance(at);
      seen := seen + [NearPoint(count, dist0)];
      if idCur < |idList| && idList[idCur] == count {
        results := results + [NearPoint(count, 0.0)];
        idCur := idCur + 1;
      } else if queryGiven && queryCount > 0 {
        var dist := Distance(at);
        if idList == [] {
          NearestStep(queryCount, before, NearPoint(count, dist));
          FirstMeaning(queryCount, Insert(Nearer, results, NearPoint(count, dist)));
        }
        if |results| < queryCount || dist < results[|results| - 1].dist {
          var np := NearPoint(count, dist);
          results := Insert(Nearer, results, np);
          if |results| > queryCount {
            results := results[..|results| - 1];
          }
        }
      }
      count := count + 1;
    }

    /** The list holds as many points of the view as are asked for and there are: each with its squared
        distance from the query location, nearest first and of points at the same distance the earlier one
        first, and every point of the view that is not in the list would come after those that are. */
    ghost predicate HoldsNearest(view: seq<Location>)
      reads this
    {
      && |results| == (if |view| < queryCount then |view| else queryCount)
      && (forall i :: 0 <= i < |results| ==>
        results[i].id < |view| && At(view[results[i].id], results[i].dist))
      && (forall i, j :: 0 <= i < j < |results| ==>
        results[i].dist < results[j].dist || (results[i].dist == results[j].dist && results[i].id < results[j].id))
      && forall p, d :: 0 <= p < |view| && At(view[p], d) && (forall i :: 0 <= i < |results| ==> results[i].id != p) ==>
        forall i :: 0 <= i < |results| ==> results[i].dist < d || (results[i].dist == d && results[i].id < p)
    }

    /** The squared distance of a location from that of the query is d. */
    predicate At(at: Location, d: real) {
      match queryZ
      case None =>
        d == (at.x - queryX) * (at.x - queryX) + (at.y - queryY) * (at.y - queryY)
      case Some(z) =>
        d == (at.x - queryX) * (at.x - queryX) + (at.y - queryY) * (at.y - queryY) + (at.z - z) * (at.z - z)
    }

    lemma AtDistance(at: Location, d: real)
      ensures At(at, d) <==> d == Distance(at)
    {
    }

    lemma ResultsMeaning(view: seq<Location>)
      requires queryCount > 0 && results == Nearest(queryCount, seen)
      requires |seen| == |view| && forall i :: 0 <= i < |view| ==> seen[i] == NearPoint(i, Distance(view[i]))
      ensures HoldsNearest(view)
    {
      hide Nearest, Distance, At;
      NearestMeaning(queryCount, seen);
      forall i | 0 <= i < |results|
        ensures results[i].id < |view| && At(view[results[i].id], results[i].dist)
      {
        assert results[i] in seen;
        AtDistance(view[results[i].id], results[i].dist);
      }
      forall p, d, i | 0 <= p < |view| && At(view[p], d) && (forall j :: 0 <= j < |results| ==> results[j].id != p)
        && 0 <= i < |results|
        ensures results[i].dist < d || (results[i].dist == d && results[i].id < p)
      {
        AtDistance(view[p], d);
        assert seen[p] == NearPoint(p, d) && seen[p] in seen && seen[p] !in results && results[i] in results;
        assert Precedes(results[i], seen[p]);
      }
    }

    method Filter(view: seq<Location>)
      requires Valid() && count == 0 && idList == [] && queryGiven && queryCount > 0
      modifies this
      ensures Valid() && count == |view|
      ensures HoldsNearest(view)
      ensures results == Nearest(queryCount, seen)
      ensures |seen| == |view| && forall i :: 0 <= i < |view| ==> seen[i] == NearPoint(i, Distance(view[i]))
    {
      var idx := 0;
      while idx < |view|
        invariant 0 <= idx <= |view|
        invariant Valid() && count == idx
        invariant forall i :: 0 <= i < idx ==> seen[i] == NearPoint(i, Distance(view[i]))
      {
        ProcessOne(view[idx]);
        idx := idx + 1;
      }
      ResultsMeaning(view);
    }
  }

  lemma FirstMeaning(k: nat, s: seq<NearPoint>)
    ensures First(k, s) == if |s| <= k then s else s[..k]
  {
  }

  lemma LastOfFirst(k: nat, all: seq<NearPoint>, x: NearPoint)
    requires k > 0
    ensures var r := First(k, all);
            && |r| <= k
            && (|r| < k <==> |all| < k)
            && (|r| == k ==> (x.dist < r[|r| - 1].dist <==> Nearer(x, all[k - 1])))
  {
  }

  /** One point more: the test against the last entry, insertion and truncation together. */
  lemma NearestStep(k: nat, seen: seq<NearPoint>, x: NearPoint)
    requires k > 0 && (forall i :: 0 <= i < |seen| ==> seen[i].id == i)
    ensures var r := Nearest(k, seen);
            && |r| <= k
            && Nearest(k, seen + [x]) ==
              (if |r| < k || x.dist < r[|r| - 1].dist then First(k, Insert(Nearer, r, x)) else r)
  {
    hide Insert, InsertAll, Sorted, StablySorted, First, Nearer;
    InsertAllSorted(seen);
    InsertAllNext(Nearer, seen, x);
    var all := InsertAll(Nearer, seen);
    LastOfFirst(k, all, x);
    if |all| < k || Nearer(x, all[k - 1]) {
      InsertNearer(k, all, x);
    } else {
      SkipFarther(k, all, x);
    }
  }
}
