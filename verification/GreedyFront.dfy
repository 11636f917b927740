/** The advancing front of `filters.greedyprojection`: vertex states, fringe neighbours and the fringe
    queue. Every geometric decision (visibility, angles, distances) is an arbitrary choice, so what is
    proved here holds whatever the geometry answers.
 */
module GreedyFront {
  import opened FrontStates

  class GreedyProjection {
    const n: nat
    var state: seq<GP3Type>
    var source: seq<nat>
    var part: seq<nat>
    var partIndex: nat
    var ffn: seq<nat>
    var sfn: seq<nat>
    var fringeQueue: seq<nat>
    var triangles: seq<(nat, nat, nat)>

    var R: nat
    var currentIndex: nat
    var isCurrentFree: bool
    var prevIsFfn: bool
    var prevIsSfn: bool
    var nextIsFfn: bool
    var nextIsSfn: bool
    var new2boundary: int
    var alreadyConnected: bool

    ghost predicate Valid()
      reads this
    {
      && n > 0
      && |state| == |source| == |part| == |ffn| == |sfn| == n
      && AllBelow(source, n) && AllBelow(ffn, n) && AllBelow(sfn, n) && AllBelow(fringeQueue, n)
      && R < n && currentIndex < n && -1 <= new2boundary < n
    }

    constructor (size: nat)
      requires size > 0
      ensures Valid() && n == size && fringeQueue == [] && triangles == []
      ensures forall i :: 0 <= i < n ==> state[i] == FREE
    {
      n := size;
      state := seq(size, _ => FREE);
      source, part, ffn, sfn := seq(size, _ => 0), seq(size, _ => 0), seq(size, _ => 0), seq(size, _ => 0);
      fringeQueue, triangles, partIndex := [], [], 0;
      R, currentIndex, new2boundary := 0, 0, -1;
      isCurrentFree, alreadyConnected := false, false;
      prevIsFfn, prevIsSfn, nextIsFfn, nextIsSfn := false, false, false, false;
    }

    /** What every step keeps; see Develops. */
    ghost predicate DevelopedFrom(s: seq<GP3Type>, ts: seq<Triangle>)
      reads this
    {
      Develops(s, ts, state, triangles, -1)
    }

    predicate StateSet(idx: nat)
      requires idx < |state|
      reads this
    {
      state[idx] != NONE && state[idx] != FREE
    }

    method AddTriangle(a: nat, b: nat, c: nat)
      modifies this`triangles
      ensures triangles == old(triangles) + [(a, b, c)]
    {
      triangles := triangles + [(a, b, c)];
    }

    method AddFringePoint(v: nat, s: nat)
      requires Valid() && v < n && s < n
      modifies this`source, this`part, this`fringeQueue
      ensures Valid() && fringeQueue == old(fringeQueue) + [v]
      ensures source == old(source)[v := s] && part == old(part)[v := old(part)[s]]
    {
      source := source[v := s];
      part := part[v := part[s]];
      fringeQueue := fringeQueue + [v];
    }

    method CloseTriangle(a0: nat, a1: nat)
      requires Valid() && a0 < n && a1 < n && state[R] == FRINGE
      modifies this`state, this`ffn, this`sfn, this`triangles
      ensures Valid() && DevelopedFrom(old(state), old(triangles)) && state[R] == COMPLETED
      ensures triangles == old(triangles) + [(a0, a1, R)]
      ensures a0 != a1 ==>
        var l0, l1 := Unlink(old(ffn)[a0], old(sfn)[a0], R, a1), Unlink(old(ffn)[a1], old(sfn)[a1], R, a0);
        && ffn == old(ffn)[a0 := l0.ffn][a1 := l1.ffn] && sfn == old(sfn)[a0 := l0.sfn][a1 := l1.sfn]
        && state == Marked(Marked(old(state)[R := COMPLETED], a0, l0.closed), a1, l1.closed)
    {
      hide Develops, Cornered, Advances, Unlink;
      Complete(R);
      ghost var s1, t1 := state, triangles;
      AddTriangle(a0, a1, R);
      AddCorners(s1, t1, a0, a1, R);
      DevelopsTrans(old(state), old(triangles), s1, t1, s1, triangles, -1, -1);
      ghost var l0, l1 := Unlink(ffn[a0], sfn[a0], R, a1), Unlink(ffn[a1], sfn[a1], R, a0);
      var aIdx := 0;
      while aIdx < 2
        invariant 0 <= aIdx <= 2
        invariant Valid() && DevelopedFrom(old(state), old(triangles)) && state[R] == COMPLETED
        invariant triangles == old(triangles) + [(a0, a1, R)] && Cornered(triangles, a0) && Cornered(triangles, a1)
        invariant aIdx == 0 ==> ffn == old(ffn) && sfn == old(sfn)
        invariant aIdx == 1 ==> ffn == old(ffn)[a0 := l0.ffn] && sfn == old(sfn)[a0 := l0.sfn]
        invariant aIdx == 2 && a0 != a1 ==>
          ffn == old(ffn)[a0 := l0.ffn][a1 := l1.ffn] && sfn == old(sfn)[a0 := l0.sfn][a1 := l1.sfn]
        invariant a0 != a1 ==>
          state == Marked(Marked(old(state)[R := COMPLETED], a0, aIdx > 0 && l0.closed), a1, aIdx > 1 && l1.closed)
      {
        ghost var before := state;
        Detach(if aIdx == 0 then a0 else a1, if aIdx == 0 then a1 else a0);
        DevelopsTrans(old(state), old(triangles), before, triangles, state, triangles, -1, -1);
        aIdx := aIdx + 1;
      }
    }

    /** Both neighbours on the way are the fringe neighbours of the current vertex. */
    ghost predicate BothKnown()
      reads this
    {
      (prevIsFfn && nextIsSfn) || (prevIsSfn && nextIsFfn)
    }

    /** A free vertex gets prev and next as fringe neighbours; another one that knows both is done, and one
        that knows one of them gets the other in its place. */
    twostate predicate PointConnected(prev: nat, next: nat)
      requires currentIndex < |old(state)| && currentIndex < |old(ffn)| && currentIndex < |old(sfn)|
      reads this
    {
      && (isCurrentFree ==>
        && state == old(state) && ffn == old(ffn)[currentIndex := prev] && sfn == old(sfn)[currentIndex := next]
        && triangles == old(triangles) && new2boundary == old(new2boundary))
      && (!isCurrentFree && BothKnown() ==>
        state == old(state)[currentIndex := COMPLETED] && ffn == old(ffn) && sfn == old(sfn))
      && (!isCurrentFree && !BothKnown() && (prevIsFfn || nextIsFfn) ==>
        state == old(state) && sfn == old(sfn) && ffn == old(ffn)[currentIndex := if prevIsFfn then next else prev])
      && (!isCurrentFree && !BothKnown() && !prevIsFfn && !nextIsFfn && (prevIsSfn || nextIsSfn) ==>
        state == old(state) && ffn == old(ffn) && sfn == old(sfn)[currentIndex := if prevIsSfn then next else prev])
    }

    /** Connect the current vertex, which lies between prev and next on the way around R. */
    method ConnectPoint(prev: nat, next: nat, nextNext: int)
      requires Valid() && prev < n && next < n && StateSet(R) && StateSet(currentIndex)
      requires next == R || next != currentIndex
      modifies this`state, this`ffn, this`sfn, this`triangles, this`new2boundary, this`alreadyConnected
      ensures Valid() && DevelopedFrom(old(state), old(triangles))
      ensures old(new2boundary) >= 0 ==> new2boundary >= 0
      ensures PointConnected(prev, next)
    {
      hide Develops, Cornered, Advances;
      if isCurrentFree {
        ffn := ffn[currentIndex := prev];
        sfn := sfn[currentIndex := next];
      } else if (prevIsFfn && nextIsSfn) || (prevIsSfn && nextIsFfn) {
        Complete(currentIndex);
      } else if prevIsFfn && !nextIsSfn {
        ffn := ffn[currentIndex := next];
      } else if nextIsFfn && !prevIsSfn {
        ffn := ffn[currentIndex := prev];
      } else if prevIsSfn && !nextIsFfn {
        sfn := sfn[currentIndex := next];
      } else if nextIsSfn && !prevIsFfn {
        sfn := sfn[currentIndex := prev];
      } else {
        ConnectTouching(prev, next, nextNext);
      }
    }

    /** The current vertex is on the front already, but linked to neither neighbour. */
    method ConnectTouching(prev: nat, next: nat, nextNext: int)
      requires Valid() && prev < n && next < n && StateSet(R) && StateSet(currentIndex)
      requires next == R || next != currentIndex
      modifies this`state, this`ffn, this`sfn, this`triangles, this`new2boundary, this`alreadyConnected
      ensures Valid() && DevelopedFrom(old(state), old(triangles))
      ensures old(new2boundary) >= 0 ==> new2boundary >= 0
      ensures old(prev != R && SharesFringe(prev)) ==>
        triangles == old(triangles) + [(currentIndex, old(Shared(prev)), prev)]
      ensures old(!(prev != R && SharesFringe(prev)) && StateSet(next) && SharesFringe(next)) ==>
        triangles == old(triangles) + [(currentIndex, old(Shared(next)), next)]
    {
      hide Develops, Cornered, Advances;
      var foundTriangle := FindTriangle(prev, next);
      if !foundTriangle {
        // which of the four possible triangles is closest, if any, is left open
        var minDist: int := *;
        match minDist
        case 0 => PrevToFfn(prev, next);
        case 1 => PrevToSfn(prev, next);
        case 2 => NextToFfn(prev, next, nextNext);
        case 3 => NextToSfn(prev, next, nextNext);
        case _ =>
      }
    }

    /** Close a triangle that the fringe neighbours already form with prev or next. */
    method FindTriangle(prev: nat, next: nat) returns (found: bool)
      requires Valid() && prev < n && next < n && StateSet(currentIndex)
      modifies this`state, this`ffn, this`sfn, this`triangles
      ensures Valid() && DevelopedFrom(old(state), old(triangles))
      ensures found <==> old((prev != R && SharesFringe(prev)) || (StateSet(next) && SharesFringe(next)))
      ensures old(prev != R && SharesFringe(prev)) ==>
        triangles == old(triangles) + [(currentIndex, old(Shared(prev)), prev)]
      ensures old(!(prev != R && SharesFringe(prev)) && StateSet(next) && SharesFringe(next)) ==>
        triangles == old(triangles) + [(currentIndex, old(Shared(next)), next)]
      ensures !found ==> state == old(state) && ffn == old(ffn) && sfn == old(sfn) && triangles == old(triangles)
    {
      hide Develops, Cornered, Advances;
      found := FindWithPrev(prev, next);
      if !found && StateSet(next) {
        found := FindWithNext(prev, next);
      }
    }

    /** Some fringe neighbour of the current vertex is one of v. */
    predicate SharesFringe(v: nat)
      requires Valid() && v < n
      reads this
    {
      || ffn[currentIndex] == ffn[v] || ffn[currentIndex] == sfn[v]
      || sfn[currentIndex] == ffn[v] || sfn[currentIndex] == sfn[v]
    }

    /** The first fringe neighbour that the current vertex shares with v. */
    function Shared(v: nat): (w: nat)
      requires Valid() && v < n && SharesFringe(v)
      reads this
      ensures w < n && w in {ffn[currentIndex], sfn[currentIndex]} && w in {ffn[v], sfn[v]}
    {
      if ffn[currentIndex] == ffn[v] || ffn[currentIndex] == sfn[v] then ffn[currentIndex] else sfn[currentIndex]
    }

    method FindWithPrev(prev: nat, next: nat) returns (found: bool)
      requires Valid() && prev < n && next < n
      modifies this`state, this`ffn, this`sfn, this`triangles
      ensures Valid() && DevelopedFrom(old(state), old(triangles))
      ensures found <==> prev != R && old(SharesFringe(prev))
      ensures found ==>
        && triangles == old(triangles) + [(currentIndex, old(Shared(prev)), prev)]
        && state == old(state)[prev := COMPLETED][old(Shared(prev)) := COMPLETED]
        && if old(Shared(prev)) == old(ffn)[currentIndex]
           then ffn == old(ffn)[currentIndex := next] && sfn == old(sfn)
           else ffn == old(ffn) && sfn == old(sfn)[currentIndex := next]
      ensures !found ==> state == old(state) && ffn == old(ffn) && sfn == old(sfn) && triangles == old(triangles)
    {
      hide Develops, Cornered, Advances;
      found := false;
      if prev != R && (ffn[currentIndex] == ffn[prev] || ffn[currentIndex] == sfn[prev]) {
        found := true;
        FormWithPrev(ffn[currentIndex], prev);
        ffn := ffn[currentIndex := next];
      } else if prev != R && (sfn[currentIndex] == ffn[prev] || sfn[currentIndex] == sfn[prev]) {
        found := true;
        FormWithPrev(sfn[currentIndex], prev);
        sfn := sfn[currentIndex := next];
      }
    }

    method FormWithPrev(shared: nat, prev: nat)
      requires Valid() && shared < n && prev < n
      modifies this`state, this`triangles
      ensures Valid() && DevelopedFrom(old(state), old(triangles))
      ensures triangles == old(triangles) + [(currentIndex, shared, prev)]
      ensures state == old(state)[prev := COMPLETED][shared := COMPLETED]
    {
      hide Develops, Cornered, Advances;
      AddTriangle(currentIndex, shared, prev);
      AddCorners(old(state), old(triangles), currentIndex, shared, prev);
      Complete(prev);
      ghost var s1 := state;
      DevelopsTrans(old(state), old(triangles), old(state), triangles, s1, triangles, -1, -1);
      Complete(shared);
      DevelopsTrans(old(state), old(triangles), s1, triangles, state, triangles, -1, -1);
    }

    method FindWithNext(prev: nat, next: nat) returns (found: bool)
      requires Valid() && prev < n && next < n && StateSet(currentIndex)
      modifies this`state, this`ffn, this`sfn, this`triangles
      ensures Valid() && DevelopedFrom(old(state), old(triangles))
      ensures found <==> old(SharesFringe(next))
      ensures found ==>
        && triangles == old(triangles) + [(currentIndex, old(Shared(next)), next)]
        && (next != currentIndex ==>
          && state == old(state)[old(Shared(next)) := COMPLETED]
          && Has(next, Replaced(old(ffn)[next], old(sfn)[next], old(Shared(next)), currentIndex))
          && Has(currentIndex, Replaced(old(ffn)[currentIndex], old(sfn)[currentIndex], old(Shared(next)), prev)))
      ensures !found ==> state == old(state) && ffn == old(ffn) && sfn == old(sfn) && triangles == old(triangles)
    {
      hide Develops, Cornered, Advances;
      found := false;
      if ffn[currentIndex] == ffn[next] || ffn[currentIndex] == sfn[next] {
        found := true;
        FormWithNext(ffn[currentIndex], next);
        Complete(ffn[currentIndex]);
        DevelopsTrans(old(state), old(triangles), old(state), triangles, state, triangles, -1, -1);
        ffn := ffn[currentIndex := prev];
      } else if sfn[currentIndex] == ffn[next] || sfn[currentIndex] == sfn[next] {
        found := true;
        FormWithNext(sfn[currentIndex], next);
        Complete(sfn[currentIndex]);
        DevelopsTrans(old(state), old(triangles), old(state), triangles, state, triangles, -1, -1);
        sfn := sfn[currentIndex := prev];
      }
    }

    /** The triangle, and next gets the current vertex in place of the shared neighbour. */
    method FormWithNext(shared: nat, next: nat)
      requires Valid() && shared < n && next < n && shared in {ffn[next], sfn[next]}
      modifies this`ffn, this`sfn, this`triangles
      ensures Valid() && DevelopedFrom(old(state), old(triangles)) && Cornered(triangles, shared)
      ensures triangles == old(triangles) + [(currentIndex, shared, next)]
      ensures KnownAs(next, Replaced(old(ffn)[next], old(sfn)[next], shared, currentIndex))
    {
      hide Develops, Cornered, Advances;
      AddTriangle(currentIndex, shared, next);
      AddCorners(state, old(triangles), currentIndex, shared, next);
      if shared == ffn[next] {
        ffn := ffn[next := currentIndex];
      } else {
        sfn := sfn[next := currentIndex];
      }
    }

    /** Replace the current vertex, or else R, by `to` among the fringe neighbours of prev. */
    method UpdatePrev(prev: nat, to: nat)
      requires Valid() && prev < n && to < n
      modifies this`ffn, this`sfn, this`new2boundary
      ensures Valid()
      ensures KnownAs(prev, ReplacedEither(old(ffn)[prev], old(sfn)[prev], currentIndex, R, to))
      ensures new2boundary == if prev == R && {currentIndex, R} !! {old(ffn)[prev], old(sfn)[prev]} then to
                              else old(new2boundary)
    {
      if ffn[prev] == currentIndex {
        ffn := ffn[prev := to];
      } else if sfn[prev] == currentIndex {
        sfn := sfn[prev := to];
      } else if ffn[prev] == R {
        ffn := ffn[prev := to];
      } else if sfn[prev] == R {
        sfn := sfn[prev := to];
      } else if prev == R {
        new2boundary := to;
      }
    }

    /** Replace `from` by `to` among the fringe neighbours of v. */
    method Relink(v: nat, from: nat, to: nat)
      requires Valid() && v < n && to < n
      modifies this`ffn, this`sfn
      ensures Valid() && KnownAs(v, Replaced(old(ffn)[v], old(sfn)[v], from, to))
    {
      if ffn[v] == from {
        ffn := ffn[v := to];
      } else if sfn[v] == from {
        sfn := sfn[v := to];
      }
    }

    /** The links of v are l. */
    predicate Has(v: nat, l: (nat, nat))
      requires v < |ffn| && v < |sfn|
      reads this
    {
      ffn[v] == l.0 && sfn[v] == l.1
    }

    /** A triangle with `far` and prev lies before the current vertex: these two have each other now as
        fringe neighbours in place of the current vertex, or prev in place of R, and no other links change. */
    twostate predicate LetGo(prev: nat, far: nat)
      requires prev < |ffn| == |sfn| == |old(ffn)| == |old(sfn)| && far < |ffn|
      reads this
    {
      prev != currentIndex ==>
        && (far != currentIndex && far != prev ==>
          Has(far, Replaced(old(ffn)[far], old(sfn)[far], currentIndex, prev)))
        && (far != prev ==>
          Has(prev, ReplacedEither(old(ffn)[prev], old(sfn)[prev], currentIndex, R, far)))
        && forall v :: 0 <= v < |ffn| && v != currentIndex && v != prev && v != far ==>
          ffn[v] == old(ffn)[v] && sfn[v] == old(sfn)[v]
    }

    method PrevToFfn(prev: nat, next: nat)
      requires Valid() && prev < n && next < n
      modifies this`ffn, this`sfn, this`triangles, this`new2boundary
      ensures Valid() && DevelopedFrom(old(state), old(triangles))
      ensures old(new2boundary) >= 0 ==> new2boundary >= 0
      ensures ffn[currentIndex] == next && triangles == old(triangles) + [(currentIndex, old(ffn)[currentIndex], prev)]
      ensures LetGo(prev, old(ffn)[currentIndex])
    {
      hide Develops, Cornered, Advances, Replaced, ReplacedEither, AllBelow;
      Below(ffn, n, currentIndex);
      AddTriangle(currentIndex, ffn[currentIndex], prev);
      AddCorners(state, old(triangles), currentIndex, ffn[currentIndex], prev);
      UpdatePrev(prev, ffn[currentIndex]);
      Below(ffn, n, currentIndex);
      Relink(ffn[currentIndex], currentIndex, prev);
      StillBelow(ffn, n, currentIndex, next);
      ffn := ffn[currentIndex := next];
    }

    method PrevToSfn(prev: nat, next: nat)
      requires Valid() && prev < n && next < n
      modifies this`ffn, this`sfn, this`triangles, this`new2boundary
      ensures Valid() && DevelopedFrom(old(state), old(triangles))
      ensures old(new2boundary) >= 0 ==> new2boundary >= 0
      ensures sfn[currentIndex] == next && triangles == old(triangles) + [(currentIndex, old(sfn)[currentIndex], prev)]
      ensures LetGo(prev, old(sfn)[currentIndex])
    {
      hide Develops, Cornered, Advances, Replaced, ReplacedEither, AllBelow;
      Below(sfn, n, currentIndex);
      AddTriangle(currentIndex, sfn[currentIndex], prev);
      AddCorners(state, old(triangles), currentIndex, sfn[currentIndex], prev);
      UpdatePrev(prev, sfn[currentIndex]);
      Below(sfn, n, currentIndex);
      Relink(sfn[currentIndex], currentIndex, prev);
      StillBelow(sfn, n, currentIndex, next);
      sfn := sfn[currentIndex := next];
    }

    /** A triangle with `far` and the free vertex next lies behind the current vertex: next joins the fringe
        between the current vertex and `far`, which closes or has next in place of the current vertex. */
    twostate predicate TookNext(next: nat, far: nat)
      requires next < |state| == |ffn| == |sfn| == |old(ffn)| == |old(sfn)| == |old(state)| && far < |state|
      reads this
    {
      next != currentIndex && far != currentIndex && far != next ==>
        var closed := old(ffn)[far] == next || old(sfn)[far] == next;
        && state == Marked(old(state)[next := FRINGE], far, closed)
        && ffn[next] == currentIndex && sfn[next] == far
        && Has(far, if closed then (old(ffn)[far], old(sfn)[far])
                    else Replaced(old(ffn)[far], old(sfn)[far], currentIndex, next))
    }

    method NextToFfn(prev: nat, next: nat, nextNext: int)
      requires Valid() && prev < n && next < n && StateSet(R) && StateSet(currentIndex)
      requires next == R || next != currentIndex
      modifies this`state, this`ffn, this`sfn, this`triangles, this`new2boundary, this`alreadyConnected
      ensures Valid() && DevelopedFrom(old(state), old(triangles))
      ensures old(new2boundary) >= 0 ==> new2boundary >= 0
      ensures ffn[currentIndex] == prev && old(triangles) + [(currentIndex, old(ffn)[currentIndex], next)] <= triangles
      ensures !old(StateSet(next)) ==> TookNext(next, old(ffn)[currentIndex])
    {
      hide Develops, Cornered, Advances, Replaced, Marked;
      var neighborUpdate := TriangleNextFfn(next, nextNext);
      ghost var s1 := state;
      UpdateFar(ffn[currentIndex], neighborUpdate);
      DevelopsTrans(old(state), old(triangles), s1, triangles, state, triangles, -1, -1);
      ffn := ffn[currentIndex := prev];
    }

    /** The triangle of the current vertex, its first fringe neighbour and next, and what becomes of next. */
    method TriangleNextFfn(next: nat, nextNext: int) returns (neighborUpdate: nat)
      requires Valid() && next < n && StateSet(R) && StateSet(currentIndex)
      requires next == R || next != currentIndex
      modifies this`state, this`ffn, this`sfn, this`triangles, this`new2boundary, this`alreadyConnected
      ensures Valid() && DevelopedFrom(old(state), old(triangles)) && neighborUpdate < n
      ensures old(new2boundary) >= 0 ==> new2boundary >= 0
      ensures ffn[currentIndex] == old(ffn[currentIndex]) && Cornered(triangles, old(ffn[currentIndex]))
      ensures old(triangles) + [(currentIndex, old(ffn)[currentIndex], next)] <= triangles
      ensures !old(StateSet(next)) ==>
        && neighborUpdate == next && state == old(state)[next := FRINGE]
        && ffn == old(ffn)[next := currentIndex] && sfn == old(sfn)[next := old(ffn)[currentIndex]]
    {
      hide Develops, Cornered, Advances;
      ghost var far := ffn[currentIndex];
      AddTriangle(currentIndex, ffn[currentIndex], next);
      ghost var t1 := triangles;
      AddCorners(state, old(triangles), currentIndex, far, next);
      neighborUpdate := MeetNextFfn(next, nextNext);
      DevelopsTrans(old(state), old(triangles), old(state), t1, state, triangles, -1, -1);
      CorneredStays(t1, triangles, far);
    }

    method MeetNextFfn(next: nat, nextNext: int) returns (neighborUpdate: nat)
      requires Valid() && next < n && StateSet(R) && StateSet(currentIndex) && Cornered(triangles, next)
      requires next == R || next != currentIndex
      modifies this`state, this`ffn, this`sfn, this`triangles, this`new2boundary, this`alreadyConnected
      ensures Valid() && DevelopedFrom(old(state), old(triangles)) && neighborUpdate < n
      ensures old(new2boundary) >= 0 ==> new2boundary >= 0
      ensures ffn[currentIndex] == old(ffn[currentIndex])
      ensures !old(StateSet(next)) ==>
        && neighborUpdate == next && state == old(state)[next := FRINGE]
        && ffn == old(ffn)[next := currentIndex] && sfn == old(sfn)[next := old(ffn)[currentIndex]]
    {
      hide Develops, Cornered, Advances;
      neighborUpdate := next;
      if !StateSet(next) {
        EnterFringe(next, ffn[currentIndex]);
      } else {
        var known := UpdateNext(next, nextNext, ffn[currentIndex]);
        if !known {
          var connect2ffn: int := *;
          if connect2ffn == 0 {
            neighborUpdate := ffn[next];
            ConnectFfnOfNext(next, ffn[currentIndex]);
          } else if connect2ffn == 1 {
            neighborUpdate := sfn[next];
            AssignSfnOfNext(next);
          }
        }
      }
    }

    method NextToSfn(prev: nat, next: nat, nextNext: int)
      requires Valid() && prev < n && next < n && StateSet(R) && StateSet(currentIndex)
      requires next == R || next != currentIndex
      modifies this`state, this`ffn, this`sfn, this`triangles, this`new2boundary, this`alreadyConnected
      ensures Valid() && DevelopedFrom(old(state), old(triangles))
      ensures old(new2boundary) >= 0 ==> new2boundary >= 0
      ensures sfn[currentIndex] == prev && old(triangles) + [(currentIndex, old(sfn)[currentIndex], next)] <= triangles
      ensures !old(StateSet(next)) ==> TookNext(next, old(sfn)[currentIndex])
    {
      hide Develops, Cornered, Advances, Replaced, Marked;
      var neighborUpdate := TriangleNextSfn(next, nextNext);
      ghost var s1 := state;
      UpdateFar(sfn[currentIndex], neighborUpdate);
      DevelopsTrans(old(state), old(triangles), s1, triangles, state, triangles, -1, -1);
      sfn := sfn[currentIndex := prev];
    }

    /** The triangle of the current vertex, its second fringe neighbour and next, and what becomes of next. */
    method TriangleNextSfn(next: nat, nextNext: int) returns (neighborUpdate: nat)
      requires Valid() && next < n && StateSet(R) && StateSet(currentIndex)
      requires next == R || next != currentIndex
      modifies this`state, this`ffn, this`sfn, this`triangles, this`new2boundary, this`alreadyConnected
      ensures Valid() && DevelopedFrom(old(state), old(triangles)) && neighborUpdate < n
      ensures old(new2boundary) >= 0 ==> new2boundary >= 0
      ensures sfn[currentIndex] == old(sfn[currentIndex]) && Cornered(triangles, old(sfn[currentIndex]))
      ensures old(triangles) + [(currentIndex, old(sfn)[currentIndex], next)] <= triangles
      ensures !old(StateSet(next)) ==>
        && neighborUpdate == next && state == old(state)[next := FRINGE]
        && ffn == old(ffn)[next := currentIndex] && sfn == old(sfn)[next := old(sfn)[currentIndex]]
    {
      hide Develops, Cornered, Advances;
      ghost var far := sfn[currentIndex];
      AddTriangle(currentIndex, sfn[currentIndex], next);
      ghost var t1 := triangles;
      AddCorners(state, old(triangles), currentIndex, far, next);
      neighborUpdate := MeetNextSfn(next, nextNext);
      DevelopsTrans(old(state), old(triangles), old(state), t1, state, triangles, -1, -1);
      CorneredStays(t1, triangles, far);
    }

    method MeetNextSfn(next: nat, nextNext: int) returns (neighborUpdate: nat)
      requires Valid() && next < n && StateSet(R) && StateSet(currentIndex) && Cornered(triangles, next)
      requires next == R || next != currentIndex
      modifies this`state, this`ffn, this`sfn, this`triangles, this`new2boundary, this`alreadyConnected
      ensures Valid() && DevelopedFrom(old(state), old(triangles)) && neighborUpdate < n
      ensures old(new2boundary) >= 0 ==> new2boundary >= 0
      ensures sfn[currentIndex] == old(sfn[currentIndex])
      ensures !old(StateSet(next)) ==>
        && neighborUpdate == next && state == old(state)[next := FRINGE]
        && ffn == old(ffn)[next := currentIndex] && sfn == old(sfn)[next := old(sfn)[currentIndex]]
    {
      hide Develops, Cornered, Advances;
      neighborUpdate := next;
      if !StateSet(next) {
        EnterFringe(next, sfn[currentIndex]);
      } else {
        var known := UpdateNext(next, nextNext, sfn[currentIndex]);
        if !known {
          var connect2sfn: int := *;
          if connect2sfn == 0 {
            neighborUpdate := ffn[next];
            ConnectFfnOfNext(next, sfn[currentIndex]);
          } else if connect2sfn == 1 {
            neighborUpdate := sfn[next];
            ConnectSfnOfNext(next, sfn[currentIndex]);
          }
        }
      }
    }

    method Complete(v: nat)
      requires Valid() && v < n && (StateSet(v) || Cornered(triangles, v))
      modifies this`state
      ensures Valid() && DevelopedFrom(old(state), old(triangles)) && state == old(state)[v := COMPLETED]
    {
      hide Develops, Cornered, Advances;
      MayComplete(state, triangles, v);
      state := state[v := COMPLETED];
    }

    /** A free vertex joins the fringe between the current vertex and its fringe neighbour. */
    method EnterFringe(next: nat, to: nat)
      requires Valid() && next < n && to < n && !StateSet(next) && Cornered(triangles, next)
      modifies this`state, this`ffn, this`sfn
      ensures Valid() && DevelopedFrom(old(state), old(triangles)) && state == old(state)[next := FRINGE]
      ensures ffn == old(ffn)[next := currentIndex] && sfn == old(sfn)[next := to]
    {
      hide Develops, Cornered, Advances;
      MayJoin(state, triangles, next, -1);
      state := state[next := FRINGE];
      ffn := ffn[next := currentIndex];
      sfn := sfn[next := to];
    }

    /** The links of v are l, no others change. */
    twostate predicate KnownAs(v: nat, l: (nat, nat))
      requires v < |old(ffn)| && v < |old(sfn)|
      reads this
    {
      ffn == old(ffn)[v := l.0] && sfn == old(sfn)[v := l.1]
    }

    /** The cases in which one fringe neighbour of next is R or the vertex after next; `to` takes its place. */
    method UpdateNext(next: nat, nextNext: int, to: nat) returns (known: bool)
      requires Valid() && next < n && to < n
      modifies this`ffn, this`sfn, this`new2boundary, this`alreadyConnected
      ensures Valid()
      ensures old(new2boundary) >= 0 ==> new2boundary >= 0
      ensures var f, s := old(ffn)[next], old(sfn)[next];
              && known == (R in {f, s} || next == R || nextNext in {f, s})
              && (!known ==> ffn == old(ffn) && sfn == old(sfn))
              && (R in {f, s} ==> KnownAs(next, Replaced(f, s, R, to)))
              && (R !in {f, s} && next == R ==> KnownAs(next, (f, s)) && new2boundary == to)
              && (R !in {f, s} && next != R && f == nextNext ==> KnownAs(next, (to, s)))
              && (R !in {f, s} && next != R && f != nextNext && s == nextNext ==> KnownAs(next, (f, to)))
              && (alreadyConnected ==
                  (old(alreadyConnected) || (R !in {f, s} && nextNext in if next == R then {to} else {f, s})))
      ensures (next == R || next != currentIndex) && to == old(ffn[currentIndex]) ==> ffn[currentIndex] == to
      ensures (next == R || next != currentIndex) && to == old(sfn[currentIndex]) ==> sfn[currentIndex] == to
    {
      known := true;
      if ffn[next] == R {
        ffn := ffn[next := to];
      } else if sfn[next] == R {
        sfn := sfn[next := to];
      } else if next == R {
        new2boundary := to;
        if nextNext == new2boundary {
          alreadyConnected := true;
        }
      } else if ffn[next] == nextNext {
        alreadyConnected := true;
        ffn := ffn[next := to];
      } else if sfn[next] == nextNext {
        alreadyConnected := true;
        sfn := sfn[next := to];
      } else {
        known := false;
      }
    }

    /** The vertex far closes or loses its fringe neighbour next to `to`. */
    twostate predicate CutOff(next: nat, far: nat, to: nat)
      requires far < |state| == |ffn| == |sfn| == |old(ffn)| == |old(sfn)| == |old(state)|
      reads this
    {
      var f, s := old(ffn)[far], old(sfn)[far];
      var closed := f == to || s == to;
      && state == Marked(old(state), far, closed)
      && (far != next ==> Has(far, if closed then (f, s) else Replaced(f, s, next, to)))
      && forall v :: 0 <= v < |ffn| && v != next && v != far ==> ffn[v] == old(ffn)[v] && sfn[v] == old(sfn)[v]
    }

    method ConnectFfnOfNext(next: nat, to: nat)
      requires Valid() && next < n && to < n
      modifies this`state, this`ffn, this`sfn, this`triangles
      ensures Valid() && DevelopedFrom(old(state), old(triangles))
      ensures ffn[next] == currentIndex && triangles == old(triangles) + [(next, to, old(ffn)[next])]
      ensures CutOff(next, old(ffn)[next], to)
      ensures next != currentIndex && to == old(ffn[currentIndex]) ==> ffn[currentIndex] == to
      ensures next != currentIndex && to == old(sfn[currentIndex]) ==> sfn[currentIndex] == to
    {
      hide Develops, Cornered, Advances;
      var f := ffn[next];
      AddTriangle(next, to, f);
      AddCorners(state, old(triangles), next, to, f);
      if ffn[f] == to || sfn[f] == to {
        Complete(f);
        DevelopsTrans(old(state), old(triangles), old(state), triangles, state, triangles, -1, -1);
      } else {
        Relink(f, next, to);
      }
      ffn := ffn[next := currentIndex];
    }

    /** The first test assigns where the three like it compare. */
    method AssignSfnOfNext(next: nat)
      requires Valid() && next < n
      modifies this`state, this`ffn, this`sfn, this`triangles
      ensures Valid() && DevelopedFrom(old(state), old(triangles))
      ensures sfn[next] == currentIndex
        && triangles == old(triangles) + [(next, old(ffn)[currentIndex], old(sfn)[next])]
      ensures next != currentIndex ==> ffn[currentIndex] == old(ffn[currentIndex])
      ensures
        var s, t := old(sfn)[next], old(ffn)[currentIndex];
        var closed := t != 0 || old(sfn)[s] == t;
        && state == Marked(old(state), s, closed)
        && (s != next ==> Has(s, if closed then (t, old(sfn)[s]) else Replaced(t, old(sfn)[s], next, t)))
        && forall v :: 0 <= v < n && v != next && v != s ==> ffn[v] == old(ffn)[v] && sfn[v] == old(sfn)[v]
    {
      hide Develops, Cornered, Advances;
      var s := sfn[next];
      AddTriangle(next, ffn[currentIndex], s);
      AddCorners(state, old(triangles), next, ffn[currentIndex], s);
      ffn := ffn[s := ffn[currentIndex]];
      if ffn[s] != 0 || sfn[s] == ffn[currentIndex] {
        Complete(s);
        DevelopsTrans(old(state), old(triangles), old(state), triangles, state, triangles, -1, -1);
      } else {
        Relink(s, next, ffn[currentIndex]);
      }
      sfn := sfn[next := currentIndex];
    }

    method ConnectSfnOfNext(next: nat, to: nat)
      requires Valid() && next < n && to < n
      modifies this`state, this`ffn, this`sfn, this`triangles
      ensures Valid() && DevelopedFrom(old(state), old(triangles))
      ensures sfn[next] == currentIndex && triangles == old(triangles) + [(next, to, old(sfn)[next])]
      ensures CutOff(next, old(sfn)[next], to)
      ensures next != currentIndex && to == old(sfn[currentIndex]) ==> sfn[currentIndex] == to
    {
      hide Develops, Cornered, Advances;
      var s := sfn[next];
      AddTriangle(next, to, s);
      AddCorners(state, old(triangles), next, to, s);
      if ffn[s] == to || sfn[s] == to {
        Complete(s);
        DevelopsTrans(old(state), old(triangles), old(state), triangles, state, triangles, -1, -1);
      } else {
        Relink(s, next, to);
      }
      sfn := sfn[next := currentIndex];
    }

    /** The far end of the new edge. */
    method UpdateFar(v: nat, neighborUpdate: nat)
      requires Valid() && v < n && neighborUpdate < n && Cornered(triangles, v)
      modifies this`state, this`ffn, this`sfn
      ensures Valid() && DevelopedFrom(old(state), old(triangles))
      ensures
        var f, s := old(ffn)[v], old(sfn)[v];
        var closed := f == neighborUpdate || s == neighborUpdate;
        && state == Marked(old(state), v, closed)
        && KnownAs(v, if closed then (f, s) else Replaced(f, s, currentIndex, neighborUpdate))
    {
      hide Develops, Cornered, Advances;
      if ffn[v] == neighborUpdate || sfn[v] == neighborUpdate {
        Complete(v);
      } else {
        Relink(v, currentIndex, neighborUpdate);
      }
    }

    /** R is given up; nothing else changes. */
    twostate predicate GivenUp()
      requires R < |old(state)| && R < |old(part)|
      reads this
    {
      && state == old(state)[R := NONE] && triangles == old(triangles) && fringeQueue == old(fringeQueue)
      && source == old(source) && ffn == old(ffn) && sfn == old(sfn) && part == old(part)[R := old(partIndex)]
    }

    /** R and the two free vertices left and right form the first triangle of a new part. */
    twostate predicate Started(left: nat, right: nat)
      requires R < |old(state)|
      reads this
    {
      && left < |old(state)| && right < |old(state)| && old(state)[left] == FREE && old(state)[right] == FREE
      && R != left && left != right && R != right
      && state == old(state)[R := FRINGE][left := FRINGE][right := FRINGE]
      && triangles == old(triangles) + [(R, left, right)] && fringeQueue == old(fringeQueue) + [right, left, R]
      && Ring(ffn, sfn, R, left, right)
      && |part| == |state| && part[R] == part[left] == part[right] == old(partIndex)
    }

    /** Start a new part at the free vertex R: a triangle with two visible free neighbours, if there is one. */
    method SeedTriangle(nnIdx: seq<nat>)
      requires Valid() && AllBelow(nnIdx, n) && NoDuplicates(nnIdx) && state[R] == FREE
      modifies this`state, this`source, this`part, this`partIndex, this`ffn, this`sfn, this`fringeQueue, this`triangles
      ensures Valid() && DevelopedFrom(old(state), old(triangles)) && old(fringeQueue) <= fringeQueue
      ensures part[R] == old(partIndex) && partIndex == old(partIndex) + 1
      ensures GivenUp() || exists left, right :: left in nnIdx && right in nnIdx && Started(left, right)
    {
      hide Develops, Cornered, Advances, Ring, AllBelow, NoDuplicates;
      StartPart();
      var notFound := true;
      var left := 1;
      while notFound && left < |nnIdx|
        invariant Valid() && DevelopedFrom(old(state), old(triangles)) && old(fringeQueue) <= fringeQueue
        invariant part[R] == old(partIndex) && partIndex == old(partIndex) + 1
        invariant notFound ==> GivenUp()
        invariant !notFound ==> exists l, r :: l in nnIdx && r in nnIdx && Started(l, r)
        decreases |nnIdx| - left
      {
        Below(nnIdx, n, left);
        var leftVisible: bool := *;
        if leftVisible && state[nnIdx[left]] == FREE {
          ghost var s1 := state;
          var right := SeekRight(nnIdx, left);
          if right < |nnIdx| {
            DevelopsTrans(old(state), old(triangles), s1, old(triangles), state, triangles, -1, -1);
            assert Started(nnIdx[left], nnIdx[right]);
            notFound := false;
          }
        }
        left := left + 1;
      }
    }

    /** R gets the number of a new part and counts as given up until it has a triangle. */
    method StartPart()
      requires Valid() && state[R] == FREE
      modifies this`state, this`part, this`partIndex
      ensures Valid() && DevelopedFrom(old(state), old(triangles)) && GivenUp()
      ensures part[R] == old(partIndex) && partIndex == old(partIndex) + 1
    {
      hide Develops, Cornered, Advances, AllBelow;
      MayGiveUp(state, triangles, R, -1);
      state := state[R := NONE];
      part := part[R := partIndex];
      partIndex := partIndex + 1;
    }

    /** The inner loop: a second visible free neighbour near the first one, which starts the part. */
    method SeekRight(nnIdx: seq<nat>, left: nat) returns (right: nat)
      requires Valid() && AllBelow(nnIdx, n) && NoDuplicates(nnIdx) && left < |nnIdx|
      requires state[R] == NONE && nnIdx[left] < n && state[nnIdx[left]] == FREE
      modifies this`state, this`source, this`part, this`ffn, this`sfn, this`fringeQueue, this`triangles
      ensures Valid() && DevelopedFrom(old(state), old(triangles))
      ensures right < |nnIdx| ==>
        nnIdx[right] < n && old(state)[nnIdx[right]] == FREE && Formed(nnIdx[left], nnIdx[right])
      ensures right >= |nnIdx| ==> Untouched()
    {
      hide Develops, Cornered, Advances, Ring, AllBelow, NoDuplicates;
      right := left + 1;
      while right < |nnIdx|
        invariant left < right && Valid() && Untouched()
      {
        Below(nnIdx, n, right);
        var rightVisible: bool, close: bool := *, *;
        if rightVisible && state[nnIdx[right]] == FREE && close {
          Apart(nnIdx, left, right);
          FormTriangle(nnIdx[left], nnIdx[right]);
          return;
        }
        right := right + 1;
      }
    }

    twostate predicate Untouched()
      reads this
    {
      && state == old(state) && source == old(source) && part == old(part) && ffn == old(ffn) && sfn == old(sfn)
      && fringeQueue == old(fringeQueue) && triangles == old(triangles)
    }

    /** R, left and right form a triangle, are linked in a ring, queued, and belong to the part of R. */
    twostate predicate Formed(left: nat, right: nat)
      requires R < |old(state)| && R < |old(part)|
      reads this
    {
      && left < |old(state)| && right < |old(state)| && R != left && left != right && R != right
      && state == old(state)[R := FRINGE][left := FRINGE][right := FRINGE] && Ring(ffn, sfn, R, left, right)
      && triangles == old(triangles) + [(R, left, right)] && fringeQueue == old(fringeQueue) + [right, left, R]
      && |part| == |state| && part[R] == part[left] == part[right] == old(part)[R]
    }

    method FormTriangle(left: nat, right: nat)
      requires Valid() && left < n && right < n && !StateSet(R) && !StateSet(left) && !StateSet(right)
      requires R != left && left != right && R != right
      modifies this`state, this`source, this`part, this`ffn, this`sfn, this`fringeQueue, this`triangles
      ensures Valid() && DevelopedFrom(old(state), old(triangles)) && Formed(left, right)
    {
      hide Develops, Cornered, Advances, AllBelow, Ring;
      QueueTriangle(left, right);
      ghost var s0 := state;
      JoinFringe(left, right);
      LinkRing(left, right);
      AddTriangle(R, left, right);
      ThreeJoin(s0, old(triangles), R, left, right);
    }

    method QueueTriangle(left: nat, right: nat)
      requires Valid() && left < n && right < n
      modifies this`source, this`part, this`fringeQueue
      ensures Valid() && fringeQueue == old(fringeQueue) + [right, left, R]
      ensures part[R] == part[left] == part[right] == old(part[R])
    {
      AddFringePoint(right, R);
      AddFringePoint(left, right);
      AddFringePoint(R, left);
    }

    method LinkRing(left: nat, right: nat)
      requires Valid() && left < n && right < n && R != left && left != right && R != right
      modifies this`ffn, this`sfn
      ensures Valid() && Ring(ffn, sfn, R, left, right)
    {
      ffn := ffn[R := left];
      sfn := sfn[R := right];
      ffn := ffn[left := right];
      sfn := sfn[left := R];
      ffn := ffn[right := R];
      sfn := sfn[right := left];
    }

    method JoinFringe(left: nat, right: nat)
      requires Valid() && left < n && right < n && R != left && left != right && R != right
      modifies this`state
      ensures Valid() && state == old(state)[R := FRINGE][left := FRINGE][right := FRINGE]
    {
      state := state[right := FRINGE];
      state := state[left := FRINGE];
      state := state[R := FRINGE];
    }

    /** A free neighbour has joined the fringe between those beside it on the way, with R in place of one
        behind a gap. Beside a gap it also takes the place of the end of the way on the other side as a
        fringe neighbour of R. */
    twostate predicate Joined(order: seq<nat>, gaps: seq<bool>, k: nat)
      requires |order| == |gaps| && 0 < k < |order| - 1 && order[k] < |ffn| == |sfn|
      requires R < |ffn| && R < |old(ffn)| && R < |old(sfn)|
      reads this
    {
      order[k] != R ==>
        && Has(order[k], (if gaps[k - 1] then R else order[k - 1], if gaps[k] then R else order[k + 1]))
        && Has(R, if gaps[k] then Replaced(old(ffn)[R], old(sfn)[R], order[0], order[k])
                  else if gaps[k - 1] then Replaced(old(ffn)[R], old(sfn)[R], order[|order| - 1], order[k])
                  else (old(ffn)[R], old(sfn)[R]))
        && triangles == old(triangles) + if gaps[k - 1] then [] else [(order[k], order[k - 1], R)]
    }

    /** Connect R to one of the neighbours strictly between its two fringe neighbours; `gaps[k]` says
        that no triangle is to be formed between neighbours k and k + 1. */
    method ConnectNeighbor(order: seq<nat>, gaps: seq<bool>, k: nat)
      requires Valid() && AllBelow(order, n) && NoDuplicates(order) && |order| == |gaps| && 0 < k < |order| - 1
        && StateSet(R)
      modifies this
      ensures Valid() && R == old(R)
      ensures Develops(old(state), old(triangles), state, triangles, Waiting(order, gaps, k))
      ensures !gaps[k - 1] ==>
        (order[k], order[k - 1], R) in Added(triangles, |old(triangles)|) && Cornered(triangles, order[k - 1])
      ensures fringeQueue == old(fringeQueue) + if gaps[k] && gaps[k - 1] then [] else [order[k]]
      ensures state[order[k]] != FREE
      ensures gaps[k] && gaps[k - 1] ==>
        && state == (if old(StateSet(order[k])) then old(state) else old(state)[order[k] := NONE])
        && ffn == old(ffn) && sfn == old(sfn) && triangles == old(triangles)
      ensures !(gaps[k] && gaps[k - 1]) && !old(StateSet(order[k])) && !old(alreadyConnected) ==>
        Joined(order, gaps, k)
    {
      hide Develops, Cornered, Advances, PointConnected;
      MakeCurrent(order, gaps, k);
      ghost var s1 := state;
      if gaps[k] && gaps[k - 1] {
        if isCurrentFree {
          state := state[currentIndex := NONE];
          assert state == old(state)[currentIndex := NONE];
          MayGiveUp(old(state), triangles, currentIndex, Waiting(order, gaps, k));
        }
      } else {
        Extend(order, gaps, k, old(state), isCurrentFree);
        StaysTaken(s1, state, order[k]);
      }
    }

    /** Take up the k-th neighbour. A free one joins the fringe; for any other its links to the
        neighbours on both sides are looked up. */
    method MakeCurrent(order: seq<nat>, gaps: seq<bool>, k: nat)
      requires Valid() && AllBelow(order, n) && |order| == |gaps| && 0 < k < |order| - 1
      modifies this`currentIndex, this`isCurrentFree, this`state,
               this`prevIsFfn, this`prevIsSfn, this`nextIsFfn, this`nextIsSfn
      ensures Valid() && currentIndex == order[k] && isCurrentFree == !old(StateSet(order[k]))
      ensures state == if isCurrentFree then old(state)[order[k] := FRINGE] else old(state)
    {
      currentIndex := order[k];
      isCurrentFree := false;
      if !StateSet(currentIndex) {
        state := state[currentIndex := FRINGE];
        isCurrentFree := true;
      } else if !alreadyConnected {
        LookUpLinks(order[k - 1], order[k + 1], gaps[k - 1], gaps[k]);
      }
    }

    method LookUpLinks(prev: nat, next: nat, gapBefore: bool, gapAfter: bool)
      requires Valid()
      modifies this`prevIsFfn, this`prevIsSfn, this`nextIsFfn, this`nextIsSfn
      ensures Valid()
      ensures prevIsFfn == (ffn[currentIndex] == prev && !gapBefore)
        && prevIsSfn == (sfn[currentIndex] == prev && !gapBefore)
      ensures nextIsFfn == (ffn[currentIndex] == next && !gapAfter)
        && nextIsSfn == (sfn[currentIndex] == next && !gapAfter)
    {
      hide AllBelow;
      prevIsFfn := ffn[currentIndex] == prev && !gapBefore;
      prevIsSfn := sfn[currentIndex] == prev && !gapBefore;
      nextIsFfn := ffn[currentIndex] == next && !gapAfter;
      nextIsSfn := sfn[currentIndex] == next && !gapAfter;
    }

    /** The k-th neighbour is taken up and at least one of its sides is no gap. The states were s0 before,
        and it joined the front since if `joined`. */
    ghost predicate Taken(order: seq<nat>, gaps: seq<bool>, k: nat, s0: seq<GP3Type>, joined: bool)
      reads this
    {
      && Valid() && AllBelow(order, n) && NoDuplicates(order) && |order| == |gaps| && 0 < k < |order| - 1
      && StateSet(R) && currentIndex == order[k] && StateSet(currentIndex) && !(gaps[k] && gaps[k - 1])
      && |s0| == n && if joined then Rank(s0[order[k]]) == 2 && state == s0[order[k] := FRINGE] else state == s0
    }

    /** It is connected. */
    twostate predicate Extended(order: seq<nat>, gaps: seq<bool>, k: nat, s0: seq<GP3Type>)
      requires |order| == |gaps| && 0 < k < |order| - 1
      reads this
    {
      && Valid() && order[k] < n && R == old(R) && |old(ffn)| == |old(sfn)| == n
      && fringeQueue == old(fringeQueue) + [order[k]]
      && Develops(s0, old(triangles), state, triangles, Waiting(order, gaps, k))
      && Advances(old(state), state)
      && (!gaps[k - 1] ==>
        (order[k], order[k - 1], R) in Added(triangles, |old(triangles)|) && Cornered(triangles, order[k - 1]))
      && (old(isCurrentFree) && !old(alreadyConnected) ==> Joined(order, gaps, k))
    }

    /** The three cases in which at least one side of the neighbour is no gap. */
    method Extend(order: seq<nat>, gaps: seq<bool>, k: nat, ghost s0: seq<GP3Type>, ghost joined: bool)
      requires Taken(order, gaps, k, s0, joined)
      modifies this
      ensures Extended(order, gaps, k, s0)
    {
      var afterNext := Behind(order, k);
      if gaps[k] {
        ExtendToGap(order, gaps, k, s0, joined);
      } else if gaps[k - 1] {
        ExtendFromGap(order, gaps, k, afterNext, s0, joined);
      } else {
        ExtendBetween(order, gaps, k, if afterNext != -1 && gaps[k + 1] then R else afterNext, s0, joined);
      }
    }

    function Behind(order: seq<nat>, k: nat): int
      requires k + 1 < |order|
    {
      if k + 2 == |order| then -1 else order[k + 2]
    }

    method ExtendToGap(order: seq<nat>, gaps: seq<bool>, k: nat, ghost s0: seq<GP3Type>, ghost joined: bool)
      requires Taken(order, gaps, k, s0, joined) && gaps[k]
      modifies this
      ensures Extended(order, gaps, k, s0)
    {
      hide Develops, Cornered, Advances, AllBelow, NoDuplicates, PointConnected, Replaced, Added;
      InOrder(order, n, k);
      ghost var s1, t0 := state, triangles;
      TriangleAtR(order[k - 1]);
      ghost var t1 := triangles;
      new2boundary := currentIndex;
      ConnectOnce(order[k - 1], R, order[k + 1]);
      Relink(R, order[0], new2boundary);
      TakenUp(s0, s1, t0, t1, state, triangles, order[k], joined, -1);
      CorneredStays(t1, triangles, order[k - 1]);
      TriangleStays(t0, triangles, (order[k], order[k - 1], R));
    }

    method ExtendFromGap(order: seq<nat>, gaps: seq<bool>, k: nat, afterNext: int, ghost s0: seq<GP3Type>,
      ghost joined: bool)
      requires Taken(order, gaps, k, s0, joined) && !gaps[k] && gaps[k - 1]
      modifies this
      ensures Extended(order, gaps, k, s0)
    {
      hide Develops, Cornered, Advances, AllBelow, NoDuplicates, PointConnected, Replaced, Added;
      InOrder(order, n, k);
      ghost var s1, t0 := state, triangles;
      AddFringePoint(currentIndex, R);
      new2boundary := currentIndex;
      ConnectOnce(R, order[k + 1], afterNext);
      Relink(R, order[|order| - 1], new2boundary);
      TakenUp(s0, s1, t0, t0, state, triangles, order[k], joined, order[k]);
    }

    method ExtendBetween(order: seq<nat>, gaps: seq<bool>, k: nat, afterNext: int, ghost s0: seq<GP3Type>,
      ghost joined: bool)
      requires Taken(order, gaps, k, s0, joined) && !gaps[k] && !gaps[k - 1]
      modifies this
      ensures Extended(order, gaps, k, s0)
    {
      hide Develops, Cornered, Advances, AllBelow, NoDuplicates, PointConnected, Replaced, Added;
      InOrder(order, n, k);
      ghost var s1, t0 := state, triangles;
      TriangleAtR(order[k - 1]);
      ghost var t1 := triangles;
      ConnectOnce(order[k - 1], order[k + 1], afterNext);
      TakenUp(s0, s1, t0, t1, state, triangles, order[k], joined, order[k]);
      CorneredStays(t1, triangles, order[k - 1]);
      TriangleStays(t0, triangles, (order[k], order[k - 1], R));
    }

    method TriangleAtR(before: nat)
      requires Valid() && before < n
      modifies this`triangles, this`source, this`part, this`fringeQueue
      ensures Valid() && triangles == old(triangles) + [(currentIndex, before, R)]
        && fringeQueue == old(fringeQueue) + [currentIndex]
      ensures Cornered(triangles, currentIndex) && Cornered(triangles, before)
    {
      hide Develops, Cornered, Advances;
      AddTriangle(currentIndex, before, R);
      AddCorners(state, old(triangles), currentIndex, before, R);
      AddFringePoint(currentIndex, R);
    }

    /** Connect the current vertex unless the step before has done so. */
    method ConnectOnce(prev: nat, next: nat, nextNext: int)
      requires Valid() && prev < n && next < n && StateSet(R) && StateSet(currentIndex)
      requires next == R || next != currentIndex
      modifies this`state, this`ffn, this`sfn, this`triangles, this`new2boundary, this`alreadyConnected
      ensures Valid() && DevelopedFrom(old(state), old(triangles))
      ensures !old(alreadyConnected) ==> PointConnected(prev, next)
      ensures isCurrentFree && !old(alreadyConnected) ==>
        && ffn == old(ffn)[currentIndex := prev] && sfn == old(sfn)[currentIndex := next]
        && triangles == old(triangles) && new2boundary == old(new2boundary)
      ensures old(alreadyConnected) ==>
        && !alreadyConnected && state == old(state) && ffn == old(ffn) && sfn == old(sfn)
        && triangles == old(triangles) && new2boundary == old(new2boundary)
      ensures old(new2boundary) >= 0 ==> new2boundary >= 0
    {
      hide Develops, Cornered, Advances;
      if !alreadyConnected {
        ConnectPoint(prev, next, nextNext);
      } else {
        alreadyConnected := false;
      }
    }

    /** Vertex v loses R as a fringe neighbour and gets `to` instead. */
    method Detach(v: nat, to: nat)
      requires Valid() && v < n && to < n && Cornered(triangles, v)
      modifies this`state, this`ffn, this`sfn
      ensures Valid() && DevelopedFrom(old(state), old(triangles))
      ensures var l := Unlink(old(ffn)[v], old(sfn)[v], R, to);
              && ffn == old(ffn)[v := l.ffn] && sfn == old(sfn)[v := l.sfn]
              && state == Marked(old(state), v, l.closed)
    {
      hide Develops, Cornered, Advances;
      if ffn[v] == R {
        if sfn[v] == to {
          Complete(v);
        } else {
          ffn := ffn[v := to];
        }
      } else if sfn[v] == R {
        if ffn[v] == to {
          Complete(v);
        } else {
          sfn := sfn[v := to];
        }
      }
    }

    /** The end of a fringe iteration: the last triangle, which completes the fan around R that began with
        the m-th triangle, and the ends of the way lose R as a fringe neighbour unless a gap is beside them. */
    method FinishR(order: seq<nat>, gaps: seq<bool>, ghost m: nat)
      requires Valid() && AllBelow(order, n) && NoDuplicates(order) && |order| == |gaps| >= 2 && StateSet(R)
      requires m <= |triangles| && Fan(triangles, m, order, gaps, R, |order| - 2)
      modifies this`state, this`source, this`part, this`ffn, this`sfn, this`fringeQueue, this`triangles
      ensures Valid() && DevelopedFrom(old(state), old(triangles))
      ensures Fan(triangles, m, order, gaps, R, |order| - 1)
      ensures fringeQueue == old(fringeQueue) + if gaps[|order| - 2] then [] else [order[|order| - 2]]
      ensures triangles == old(triangles) + if gaps[|order| - 2] then [] else [Wedge(order, R, |order| - 2)]
      ensures
        var first, last := order[0], order[|order| - 1];
        var l0 := EndLinks(old(ffn)[first], old(sfn)[first], R, order[1], gaps[0]);
        var l1 := EndLinks(old(ffn)[last], old(sfn)[last], R, order[|order| - 2], gaps[|order| - 2]);
        && ffn == old(ffn)[last := l1.ffn][first := l0.ffn] && sfn == old(sfn)[last := l1.sfn][first := l0.sfn]
        && state == Marked(Marked(Marked(old(state), R, old(ffn[R] == sfn[R])), last, l1.closed), first, l0.closed)
    {
      hide Develops, Cornered, Advances, Fan, Unlink, Wedge, Added, NoDuplicates, AllBelow;
      var last := |order| - 1;
      Apart(order, 0, last);
      Below(order, n, 0);
      Below(order, n, 1);
      Below(order, n, last);
      if ffn[R] == sfn[R] {
        Complete(R);
      }
      ghost var s1, t1 := state, triangles;
      if !gaps[last - 1] {
        LastTriangle(order, last);
        TriangleStays(t1, triangles, Wedge(order, R, last - 1));
      }
      ghost var s2, t2 := state, triangles;
      DevelopsTrans(old(state), old(triangles), s1, t1, s2, t2, -1, -1);
      FanNext(t1, t2, m, order, gaps, R, last - 1);
      if !gaps[0] {
        FanCorners(t2, m, order, gaps, R, last, 0);
        Detach(order[0], order[1]);
        DevelopsTrans(old(state), old(triangles), s2, t2, state, t2, -1, -1);
      }
    }

    method LastTriangle(order: seq<nat>, last: nat)
      requires Valid() && AllBelow(order, n) && 0 < last == |order| - 1
      modifies this`state, this`source, this`part, this`ffn, this`sfn, this`fringeQueue, this`triangles
      ensures Valid() && DevelopedFrom(old(state), old(triangles))
      ensures triangles == old(triangles) + [Wedge(order, R, last - 1)]
        && fringeQueue == old(fringeQueue) + [order[last - 1]]
      ensures var l := Unlink(old(ffn)[order[last]], old(sfn)[order[last]], R, order[last - 1]);
              && ffn == old(ffn)[order[last] := l.ffn] && sfn == old(sfn)[order[last] := l.sfn]
              && state == Marked(old(state), order[last], l.closed)
    {
      hide Develops, Cornered, Advances, Unlink;
      AddTriangle(order[last - 1], order[last], R);
      ghost var s1, t1 := state, triangles;
      AddCorners(s1, old(triangles), order[last - 1], order[last], R);
      AddFringePoint(order[last - 1], R);
      Detach(order[last], order[last - 1]);
      DevelopsTrans(s1, old(triangles), s1, t1, state, t1, -1, -1);
    }

    /** Only the state of R changes. */
    twostate predicate OnlyR(t: GP3Type)
      requires R < |old(state)|
      reads this
    {
      && state == old(state)[R := t] && source == old(source) && part == old(part) && ffn == old(ffn)
      && sfn == old(sfn) && fringeQueue == old(fringeQueue) && triangles == old(triangles)
    }

    /** What the geometry may tell of R: a way leads from one fringe neighbour to the other, and a gap in it
        makes R a boundary vertex. */
    predicate Sees(sight: Sight)
      requires R < |ffn| && R < |sfn|
      reads this
    {
      sight.Way? ==>
        Around(sight.order, sight.gaps, n, ffn[R], sfn[R]) && (true in sight.gaps ==> sight.isBoundary)
    }

    /** The triangle of R and its two fringe neighbours is closed: the geometry allows it, and R does not
        come from one of them. */
    predicate Closes(sight: Sight)
      requires R < |source| && R < |ffn| && R < |sfn|
      reads this
    {
      sight.TwoVisible? && sight.closable && source[R] != ffn[R] && source[R] != sfn[R]
    }

    /** One fringe iteration: R leaves the fringe for good. */
    method ProcessFringe(sight: Sight)
      requires Valid() && state[R] == FRINGE
      requires ffn[R] != sfn[R] ==> Sees(sight)
      modifies this
      ensures Valid() && DevelopedFrom(old(state), old(triangles)) && R == old(R) && Settled(state[R])
      ensures old(fringeQueue) <= fringeQueue
      ensures old(ffn[R] == sfn[R]) ==> OnlyR(COMPLETED)
      ensures old(ffn[R] != sfn[R]) ==>
        && (state[R] == COMPLETED ==> Cornered(Added(triangles, |old(triangles)|), R))
        && (!sight.Way? && !old(Closes(sight)) ==> OnlyR(BOUNDARY))
        && (old(Closes(sight)) ==> Closed(sight.ffnFirst))
        && (sight.Way? ==> Connected(sight.order, sight.gaps))
        && (sight.Way? && !sight.isBoundary ==> state[R] == COMPLETED)
        && (sight.Way? && NoGaps(sight.gaps) ==> Leads(Added(triangles, |old(triangles)|), sight.order, R))
    {
      hide Develops, Cornered, Advances, Fan, Unlink, Leads, AllBelow, Around, Added, NoGaps;
      Below(ffn, n, R);
      Below(sfn, n, R);
      if ffn[R] == sfn[R] {
        Complete(R);
        return;
      }
      MaySettle(state, triangles, R, BOUNDARY);
      match sight
      case OutOfRange | NotLocated =>
        state := state[R := BOUNDARY];
      case TwoVisible(closable, ffnFirst) =>
        if !closable || source[R] == ffn[R] || source[R] == sfn[R] {
          state := state[R := BOUNDARY];
        } else {
          var a0, a1 := if ffnFirst then ffn[R] else sfn[R], if ffnFirst then sfn[R] else ffn[R];
          CloseTriangle(a0, a1);
          TriangleCorner(old(triangles), a0, a1, R);
        }
      case Way(order, gaps, isBoundary) =>
        Finish(order, gaps, isBoundary);
    }

    /** R and its two fringe neighbours form a triangle, R is completed, and the neighbours close or have
        each other in place of R. */
    twostate predicate Closed(ffnFirst: bool)
      requires R < |old(ffn)| == |old(sfn)| == |old(state)| == n && old(ffn)[R] < n && old(sfn)[R] < n
      reads this
    {
      var f, s := old(ffn)[R], old(sfn)[R];
      var lf, ls := Unlink(old(ffn)[f], old(sfn)[f], R, s), Unlink(old(ffn)[s], old(sfn)[s], R, f);
      && triangles == old(triangles) + [if ffnFirst then (f, s, R) else (s, f, R)]
      && source == old(source) && part == old(part) && fringeQueue == old(fringeQueue)
      && ffn == old(ffn)[f := lf.ffn][s := ls.ffn] && sfn == old(sfn)[f := lf.sfn][s := ls.sfn]
      && state == Marked(Marked(old(state)[R := COMPLETED], f, lf.closed), s, ls.closed)
    }

    /** The triangles around R are formed, and exactly the neighbours that are not between two gaps queued. */
    twostate predicate Connected(order: seq<nat>, gaps: seq<bool>)
      requires |order| == |gaps| >= 2
      reads this
    {
      && Fan(triangles, |old(triangles)|, order, gaps, R, |order| - 1)
      && (forall i :: 0 < i < |order| - 1 ==> order[i] < |state| && state[order[i]] != FREE)
      && fringeQueue == old(fringeQueue) + Linked(order, gaps, |order| - 1)
                        + if gaps[|order| - 2] then [] else [order[|order| - 2]]
    }

    /** R is settled and connected to its neighbours. */
    method Finish(order: seq<nat>, gaps: seq<bool>, isBoundary: bool)
      requires Valid() && state[R] == FRINGE && Around(order, gaps, n, ffn[R], sfn[R])
      requires isBoundary || true !in gaps
      modifies this
      ensures Valid() && DevelopedFrom(old(state), old(triangles)) && R == old(R) && Settled(state[R])
      ensures Connected(order, gaps)
      ensures state[R] == COMPLETED ==> Cornered(Added(triangles, |old(triangles)|), R)
      ensures !isBoundary ==> state[R] == COMPLETED
      ensures NoGaps(gaps) ==> Leads(Added(triangles, |old(triangles)|), order, R)
    {
      hide Develops, Cornered, Advances, Fan, Unlink, EndLinks, Leads, AllGaps, NoGaps, Added, Wedge, Marked;
      var settled := if isBoundary then BOUNDARY else COMPLETED;
      MaySettle(state, triangles, R, settled);
      state := state[R := settled];
      new2boundary := -1;
      ghost var s1 := state;
      ConnectAll(order, gaps);
      ghost var s2, t2 := state, triangles;
      FinishR(order, gaps, |old(triangles)|);
      StaysSettled(s1, s2, R);
      StaysSettled(s2, state, R);
      AllStayTaken(s2, state, order, |order| - 1);
      ghost var waiting := Waiting(order, gaps, |order| - 2);
      if waiting >= 0 {
        FanCorners(triangles, |old(triangles)|, order, gaps, R, |order| - 1, |order| - 2);
      }
      DevelopsTrans(old(state), old(triangles), s1, old(triangles), s2, t2, -1, waiting);
      DevelopsTrans(old(state), old(triangles), s2, t2, state, triangles, waiting, -1);
      if !AllGaps(gaps) {
        ghost var i := SomeFill(gaps);
        FanCorners(triangles, |old(triangles)|, order, gaps, R, |order| - 1, i);
      } else {
        GapsAtEnds(gaps);
      }
      if NoGaps(gaps) {
        FanLeads(triangles, |old(triangles)|, order, gaps, R);
      }
    }

    /** Visibility, sorting by angle and dropping neighbours that would form skinny triangles are geometry:
        some answer comes back. Dropping neighbours may close a gap that made R a boundary vertex, but opens
        none. */
    method Look() returns (sight: Sight)
      requires Valid()
      ensures ffn[R] != sfn[R] ==> Sees(sight)
    {
      sight := *;
      if !Sees(sight) {
        sight := OutOfRange;
      }
    }

    method ConnectAll(order: seq<nat>, gaps: seq<bool>)
      requires Valid() && AllBelow(order, n) && NoDuplicates(order) && |order| == |gaps| >= 2 && Settled(state[R])
      modifies this
      ensures Valid() && R == old(R) && Settled(state[R])
      ensures Develops(old(state), old(triangles), state, triangles, Waiting(order, gaps, |order| - 2))
      ensures Fan(triangles, |old(triangles)|, order, gaps, R, |order| - 2)
      ensures forall i :: 0 < i < |order| - 1 ==> state[order[i]] != FREE
      ensures fringeQueue == old(fringeQueue) + Linked(order, gaps, |order| - 1)
      ensures AllGaps(gaps) ==>
        ffn == old(ffn) && sfn == old(sfn) && triangles == old(triangles) && state[R] == old(state[R])
    {
      hide Develops, Cornered, Advances, Fan, AllGaps, Added;
      FanStart(triangles, |triangles|, order, gaps, R);
      WaitingAtStart(state, triangles, order, gaps);
      var k := 1;
      while k < |order| - 1
        invariant 1 <= k <= |order| - 1
        invariant Valid() && R == old(R) && Settled(state[R])
        invariant Develops(old(state), old(triangles), state, triangles, Waiting(order, gaps, k - 1))
        invariant Fan(triangles, |old(triangles)|, order, gaps, R, k - 1)
        invariant forall i :: 0 < i < k ==> state[order[i]] != FREE
        invariant fringeQueue == old(fringeQueue) + Linked(order, gaps, k)
        invariant AllGaps(gaps) ==>
          ffn == old(ffn) && sfn == old(sfn) && triangles == old(triangles) && state[R] == old(state[R])
      {
        ghost var s1, t1 := state, triangles;
        ConnectNeighbor(order, gaps, k);
        if AllGaps(gaps) {
          GapsAround(gaps, k);
        }
        StaysSettled(s1, state, R);
        AllStayTaken(s1, state, order, k);
        DevelopsTrans(old(state), old(triangles), s1, t1, state, triangles, Waiting(order, gaps, k - 1),
          Waiting(order, gaps, k));
        FanNext(t1, triangles, |old(triangles)|, order, gaps, R, k - 1);
        k := k + 1;
      }
    }

    /** The filter: seed a part at the first free vertex, grow it until no fringe vertex of the queue is
        left, and start over. `processed` lists the fringe vertices in the order in which they are handled. */
    method Filter(knn: seq<seq<nat>>) returns (ghost processed: seq<nat>)
      requires Valid() && fringeQueue == [] && triangles == []
      requires forall i :: 0 <= i < n ==> state[i] == FREE
      requires |knn| == n && forall i :: 0 <= i < n ==> AllBelow(knn[i], n) && NoDuplicates(knn[i])
      modifies this
      ensures Valid()
      ensures forall i :: 0 <= i < n ==> state[i] == NONE || (state[i] != FREE && Cornered(triangles, i))
      ensures forall i, j :: 0 <= i < j < |processed| ==> processed[i] != processed[j]
      ensures forall i :: 0 <= i < |processed| ==> processed[i] < n && Settled(state[processed[i]])
    {
      hide Develops, Cornered, Advances;
      processed := [];
      var isFree: nat, fqIdx: nat, done := 0, 0, false;
      while !done
        invariant Valid() && isFree < n && fqIdx <= |fringeQueue| && Handled(processed)
        invariant state[isFree] == FREE || fqIdx == |fringeQueue|
        invariant Meshed(state, triangles)
        invariant done ==> FreeSet(state) == {}
        decreases FreeSet(state), if state[isFree] != FREE then 1 else 0, if done then 0 else 1
      {
        ghost var s1, t1 := state, triangles;
        done, isFree, fqIdx, processed := Pass(knn[isFree], isFree, fqIdx, processed);
        MeshedStays(s1, t1, state, triangles);
      }
      forall i | 0 <= i < n ensures state[i] == NONE || (state[i] != FREE && Cornered(triangles, i)) {
        assert i !in FreeSet(state);
      }
    }

    /** One pass of the outer loop. The first free vertex is looked for before the front has grown over it,
        so a pass may start from a vertex that is no longer free: exactly such a pass takes no free vertex,
        and it leaves states, links, triangles and the queue as they are. StaleStart reaches one. */
    method Pass(nnIdx: seq<nat>, isFree: nat, start: nat, ghost before: seq<nat>)
      returns (done: bool, found: nat, fqIdx: nat, ghost processed: seq<nat>)
      requires Valid() && AllBelow(nnIdx, n) && NoDuplicates(nnIdx) && isFree < n && start <= |fringeQueue|
        && Handled(before)
      requires state[isFree] == FREE || start == |fringeQueue|
      modifies this
      ensures Valid() && found < n && fqIdx == |fringeQueue| && Handled(processed)
      ensures DevelopedFrom(old(state), old(triangles))
      ensures FreeSet(state) < old(FreeSet(state)) <==> old(state[isFree]) == FREE
      ensures old(state[isFree]) != FREE ==>
        Untouched() && processed == before && (!done ==> state[found] == FREE)
      ensures old(state[isFree]) == FREE && start == |old(fringeQueue)| ==>
        state[isFree] == NONE || Settled(state[isFree])
      ensures done ==> FreeSet(state) == {}
    {
      hide Develops, Cornered, Advances;
      R := isFree;
      if state[R] == FREE {
        SeedTriangle(nnIdx);
        StillHandled(old(state), state, before);
      }
      ghost var seeded, seededTriangles, waiting := state, triangles, fringeQueue;
      assert old(state[isFree]) == FREE ==>
        (waiting == old(fringeQueue) && state[isFree] == NONE)
        || (|waiting| == |old(fringeQueue)| + 3 && waiting[|waiting| - 1] == isFree && state[isFree] == FRINGE);
      AdvancesFree(old(state), seeded);
      done, found := FindFree(isFree);
      fqIdx, processed := GrowFront(start, before);
      AdvancesFree(seeded, state);
      DevelopsTrans(old(state), old(triangles), seeded, seededTriangles, state, triangles, -1, -1);
    }

    /** Handled fringe vertices are distinct and settled. */
    ghost predicate Handled(processed: seq<nat>)
      reads this
    {
      && (forall i, j :: 0 <= i < j < |processed| ==> processed[i] != processed[j])
      && (forall i :: 0 <= i < |processed| ==> processed[i] < |state| && Settled(state[processed[i]]))
    }

    method FindFree(isFree: nat) returns (done: bool, found: nat)
      requires Valid() && isFree < n
      ensures found < n
      ensures done ==> found == isFree && FreeSet(state) == {}
      ensures !done ==> state[found] == FREE && forall i :: 0 <= i < found ==> state[i] != FREE
    {
      var it := 0;
      while it < n && state[it] != FREE
        invariant 0 <= it <= n
        invariant forall i :: 0 <= i < it ==> state[i] != FREE
      {
        it := it + 1;
      }
      if it == n {
        return true, isFree;
      }
      return false, it;
    }

    /** The fringe loop: every fringe vertex that waits in the queue is settled in the end. */
    method GrowFront(start: nat, ghost before: seq<nat>) returns (fqIdx: nat, ghost processed: seq<nat>)
      requires Valid() && start <= |fringeQueue| && Handled(before)
      modifies this
      ensures Valid() && fqIdx == |fringeQueue| && DevelopedFrom(old(state), old(triangles)) && Handled(processed)
      ensures old(fringeQueue) <= fringeQueue
      ensures forall i :: start <= i < |old(fringeQueue)| && old(state)[old(fringeQueue)[i]] == FRINGE ==>
        Settled(state[old(fringeQueue)[i]])
      ensures start == |old(fringeQueue)| ==> Untouched() && processed == before
    {
      hide Develops, Cornered, Advances, Served;
      fqIdx, processed := start, before;
      ServedAtStart(state, fringeQueue, start);
      var isFringe := true;
      while isFringe
        invariant Valid() && fqIdx <= |fringeQueue| && DevelopedFrom(old(state), old(triangles)) && Handled(processed)
        invariant old(fringeQueue) <= fringeQueue && start <= fqIdx
        invariant Served(old(state), old(fringeQueue), start, fqIdx, state)
        invariant !isFringe ==> fqIdx == |fringeQueue|
        invariant start == |old(fringeQueue)| ==> Untouched() && processed == before && fqIdx == start
        decreases TotalRank(state), if isFringe then 1 else 0
      {
        isFringe := false;
        var fqSize := |fringeQueue|;
        ghost var from := fqIdx;
        while fqIdx < fqSize && state[fringeQueue[fqIdx]] != FRINGE
          invariant from <= fqIdx <= fqSize
          invariant forall i :: from <= i < fqIdx ==> state[fringeQueue[i]] != FRINGE
        {
          fqIdx := fqIdx + 1;
        }
        ServedNext(old(state), old(fringeQueue), start, from, fqIdx, state);
        if fqIdx >= fqSize {
          continue;
        }
        R := fringeQueue[fqIdx];
        isFringe := true;
        ghost var s0, t0 := state, triangles;
        var sight := Look();
        ProcessFringe(sight);
        DevelopsTrans(old(state), old(triangles), s0, t0, state, triangles, -1, -1);
        AdvancesLowers(s0, state);
        StillHandled(s0, state, processed);
        ServedStays(old(state), old(fringeQueue), start, fqIdx, s0, state);
        processed := processed + [R];
      }
      ServedAtEnd(old(state), old(fringeQueue), start, fqIdx, state);
    }
  }

  /** A run that comes to a stale start: a first pass on four vertices seeds the triangle 0, 1, 2 and finds
      that vertex 3 is free; then the front takes vertex 3, which lies between the neighbours 0 and 1 of
      the first fringe vertex 2, and goes on as it may. The next pass starts at vertex 3. */
  method StaleStart() returns (front: GreedyProjection, isFree: nat, fqIdx: nat, ghost processed: seq<nat>)
    ensures fresh(front) && front.Valid() && front.Handled(processed) && fqIdx == |front.fringeQueue|
    ensures isFree < front.n && front.state[isFree] != FREE
  {
    hide Develops, Cornered, Advances, Fan, AllBelow;
    front := new GreedyProjection(4);
    front.R := 0;
    front.StartPart();
    front.FormTriangle(1, 2);
    var done: bool;
    done, isFree := front.FindFree(0);
    assert 3 in FreeSet(front.state);
    assert isFree == 3;
    front.R := front.fringeQueue[0];
    var order, gaps := [0, 3, 1], [false, false, false];
    WayOfFour(order);
    front.Finish(order, gaps, false);
    assert order[1] == 3;
    ghost var taken := front.state;
    fqIdx, processed := front.GrowFront(0, [2]);
    StaysTaken(taken, front.state, 3);
  }

  lemma WayOfFour(order: seq<nat>)
    requires order == [0, 3, 1]
    ensures AllBelow(order, 4) && NoDuplicates(order)
  {
  }
}
