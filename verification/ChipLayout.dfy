/** How the chips lie in the plane, in terms of the coordinates of their points: every block is halved across
    its wider extent, and every chip lists its points along one axis.
 */
module ChipLayout {
  import opened Arithmetic
  import opened ChipperSpec
  import opened Points

  /** p is a point of the view in one of the chips. */
  ghost predicate Among(view: seq<Point>, chips: seq<seq<nat>>, p: nat) {
    p < |view| && exists k :: 0 <= k < |chips| && p in chips[k]
  }

  /** w is the largest difference of two X coordinates. */
  ghost predicate WidthX(view: seq<Point>, chips: seq<seq<nat>>, w: real) {
    && (exists p: nat, q: nat :: Among(view, chips, p) && Among(view, chips, q) && view[q].x - view[p].x == w)
    && (forall p: nat, q: nat :: Among(view, chips, p) && Among(view, chips, q) ==> view[q].x - view[p].x <= w)
  }

  /** w is the largest difference of two Y coordinates. */
  ghost predicate WidthY(view: seq<Point>, chips: seq<seq<nat>>, w: real) {
    && (exists p: nat, q: nat :: Among(view, chips, p) && Among(view, chips, q) && view[q].y - view[p].y == w)
    && (forall p: nat, q: nat :: Among(view, chips, p) && Among(view, chips, q) ==> view[q].y - view[p].y <= w)
  }

  /** No point of the first chips lies to the right of a point of the second ones. */
  ghost predicate LeftOf(view: seq<Point>, first: seq<seq<nat>>, second: seq<seq<nat>>) {
    forall p: nat, q: nat :: Among(view, first, p) && Among(view, second, q) ==> view[p].x <= view[q].x
  }

  /** No point of the first chips lies above a point of the second ones. */
  ghost predicate Under(view: seq<Point>, first: seq<seq<nat>>, second: seq<seq<nat>>) {
    forall p: nat, q: nat :: Among(view, first, p) && Among(view, second, q) ==> view[p].y <= view[q].y
  }

  ghost predicate ListedByX(view: seq<Point>, chip: seq<nat>) {
    forall i, j :: 0 <= i < j < |chip| && chip[i] < |view| && chip[j] < |view| ==> view[chip[i]].x <= view[chip[j]].x
  }

  ghost predicate ListedByY(view: seq<Point>, chip: seq<nat>) {
    forall i, j :: 0 <= i < j < |chip| && chip[i] < |view| && chip[j] < |view| ==> view[chip[i]].y <= view[chip[j]].y
  }

  /** The layout of a block of chips. If it is wider along X than along Y, its first half lies to the left of
      its second half, otherwise under it; at equal widths the axis changes against the block around it.
      Halves of more than one chip are blocks again; one or two chips list their points along the axis. */
  ghost predicate LaidOut(view: seq<Point>, chips: seq<seq<nat>>, aroundByX: bool)
    decreases |chips|, 1
  {
    && chips != []
    && exists wx, wy ::
      && WidthX(view, chips, wx) && WidthY(view, chips, wy)
      && if wx > wy || (wx == wy && !aroundByX) then HalvedByX(view, chips) else HalvedByY(view, chips)
  }

  ghost predicate HalvedByX(view: seq<Point>, chips: seq<seq<nat>>)
    decreases |chips|, 0
  {
    var h := |chips| / 2;
    && LeftOf(view, chips[..h], chips[h..])
    && if |chips| <= 2 then forall k :: 0 <= k < |chips| ==> ListedByX(view, chips[k])
       else LaidOut(view, chips[..h], true) && LaidOut(view, chips[h..], true)
  }

  ghost predicate HalvedByY(view: seq<Point>, chips: seq<seq<nat>>)
    decreases |chips|, 0
  {
    var h := |chips| / 2;
    && Under(view, chips[..h], chips[h..])
    && if |chips| <= 2 then forall k :: 0 <= k < |chips| ==> ListedByY(view, chips[k])
       else LaidOut(view, chips[..h], false) && LaidOut(view, chips[h..], false)
  }

  ghost predicate Halved(view: seq<Point>, chips: seq<seq<nat>>, byX: bool) {
    if byX then HalvedByX(view, chips) else HalvedByY(view, chips)
  }

  // ----- the chips of a block are laid out

  lemma {:induction false} FlatAmong(chips: seq<seq<nat>>, x: nat)
    ensures x in Flat(chips) <==> exists k :: 0 <= k < |chips| && x in chips[k]
  {
    if chips != [] {
      FlatAmong(chips[1..], x);
      if k :| 0 <= k < |chips| && x in chips[k] {
        assert k == 0 || x in chips[1..][k - 1];
      }
      if k :| 0 <= k < |chips[1..]| && x in chips[1..][k] {
        assert x in chips[k + 1];
      }
    }
  }

  lemma AmongCovered(view: seq<Point>, chips: seq<seq<nat>>, s: seq<nat>, p: nat)
    requires Covers(chips, s)
    ensures Among(view, chips, p) <==> p < |view| && p in s
  {
    hide Flat;
    FlatAmong(chips, p);
    assert p in multiset(Flat(chips)) <==> p in multiset(s);
  }

  /** The ends of a sorted list attain the width. */
  lemma WidthOfBlock(view: seq<Point>, chips: seq<seq<nat>>, axis: Axis, s: seq<nat>)
    requires s != [] && Covers(chips, s) && Ascending(view, axis, s) && forall p :: p in s ==> p < |view|
    ensures if axis == XAxis then WidthX(view, chips, Range(view, axis, s))
            else WidthY(view, chips, Range(view, axis, s))
  {
    hide Covers;
    var first, last := s[0], s[|s| - 1];
    assert first in s && last in s;
    forall p: nat ensures Among(view, chips, p) <==> p < |view| && p in s {
      AmongCovered(view, chips, s, p);
    }
    hide Among;
    forall p: nat, q: nat | Among(view, chips, p) && Among(view, chips, q)
      ensures At(view, axis, q) - At(view, axis, p) <= Range(view, axis, s)
    {
      EndsBound(view, axis, s, p);
      EndsBound(view, axis, s, q);
    }
  }

  lemma EndsBound(view: seq<Point>, axis: Axis, s: seq<nat>, p: nat)
    requires Ascending(view, axis, s) && p in s
    ensures At(view, axis, s[0]) <= At(view, axis, p) <= At(view, axis, s[|s| - 1])
  {
    hide At;
    var i :| 0 <= i < |s| && s[i] == p;
  }

  lemma BelowLeftOf(view: seq<Point>, axis: Axis, s: seq<nat>, t: seq<nat>, first: seq<seq<nat>>, second: seq<seq<nat>>)
    requires Below(view, axis, s, t) && Covers(first, s) && Covers(second, t)
    ensures if axis == XAxis then LeftOf(view, first, second) else Under(view, first, second)
  {
    hide Covers, Among;
    forall p: nat, q: nat | Among(view, first, p) && Among(view, second, q)
      ensures p in s && q in t && p < |view| && q < |view|
    {
      AmongCovered(view, first, s, p);
      AmongCovered(view, second, t, q);
    }
  }

  lemma AscendingListed(view: seq<Point>, axis: Axis, s: seq<nat>)
    requires Ascending(view, axis, s)
    ensures if axis == XAxis then ListedByX(view, s) else ListedByY(view, s)
  {
    forall i, j | 0 <= i < j < |s| && s[i] < |view| && s[j] < |view|
      ensures if axis == XAxis then view[s[i]].x <= view[s[j]].x else view[s[i]].y <= view[s[j]].y
    {
      assert At(view, axis, s[i]) <= At(view, axis, s[j]);
    }
  }

  lemma {:induction false} ChipsLaidOut(view: seq<Point>, axis: Axis, a: seq<nat>, b: seq<nat>, parts: seq<int>,
    l: nat, r: nat)
    requires Block(a, b, parts, l, r) && forall p :: p in a ==> p < |view|
    requires Ascending(view, axis, a) && Ascending(view, axis.Other(), b)
    ensures LaidOut(view, Chips(view, axis, a, b, parts, l, r), axis == XAxis)
    decreases r - l, 1
  {
    hide Cut, Covers, Ascending, WidthX, WidthY, HalvedByX, HalvedByY, Increasing, Distinct;
    var chips := Chips(view, axis, a, b, parts, l, r);
    SameMembers(a, b);
    ChipsCover(view, axis, a, b, parts, l, r);
    CoverOther(chips, a, b, parts, l, r);
    NotEmpty(a, b, parts, l, r);
    var w, v := Range(view, axis, a), Range(view, axis.Other(), b);
    WidthOfBlock(view, chips, axis, a);
    WidthOfBlock(view, chips, axis.Other(), b);
    if w > v {
      CutLaidOut(view, axis, a, b, parts, l, r);
    } else {
      CutLaidOut(view, axis.Other(), b, a, parts, l, r);
    }
  }

  lemma SameMembers(a: seq<nat>, b: seq<nat>)
    requires Elems(a) == Elems(b)
    ensures forall p :: p in a <==> p in b
  {
    forall p ensures p in a <==> p in b {
      assert p in a <==> p in Elems(a);
      assert p in b <==> p in Elems(b);
    }
  }

  lemma NotEmpty(a: seq<nat>, b: seq<nat>, parts: seq<int>, l: nat, r: nat)
    requires Block(a, b, parts, l, r)
    ensures a != [] && b != [] && l < r < |parts|
  {
  }

  lemma InnerPart(a: seq<nat>, b: seq<nat>, parts: seq<int>, l: nat, r: nat)
    requires Block(a, b, parts, l, r) && r - l == 2
    ensures 0 <= parts[r - 1] - parts[l] <= |a|
  {
  }

  lemma CoverOther(chips: seq<seq<nat>>, a: seq<nat>, b: seq<nat>, parts: seq<int>, l: nat, r: nat)
    requires Block(a, b, parts, l, r) && Covers(chips, a)
    ensures Covers(chips, b)
  {
    hide Flat;
    SameElements(a, b);
  }

  lemma {:induction false} CutLaidOut(view: seq<Point>, axis: Axis, wide: seq<nat>, narrow: seq<nat>, parts: seq<int>,
    l: nat, r: nat)
    requires Block(wide, narrow, parts, l, r) && forall p :: p in wide ==> p < |view|
    requires Ascending(view, axis, wide) && Ascending(view, axis.Other(), narrow)
    ensures Halved(view, Cut(view, axis, wide, narrow, parts, l, r), axis == XAxis)
    decreases r - l, 0
  {
    hide *;
    NotEmpty(wide, narrow, parts, l, r);
    if r - l <= 2 {
      SmallCutLaidOut(view, axis, wide, narrow, parts, l, r);
    } else {
      var m := (l + r) / 2;
      var c := parts[m] - parts[l];
      HalfBlocks(wide, narrow, parts, l, r);
      HalvesBelow(view, axis, wide, c);
      var left := Keep(narrow, Elems(wide[..c]));
      var right := Keep(narrow, Elems(wide[c..]));
      KeepAscending(view, axis.Other(), narrow, Elems(wide[..c]));
      KeepAscending(view, axis.Other(), narrow, Elems(wide[c..]));
      var first := Chips(view, axis, wide[..c], left, parts, l, m);
      var second := Chips(view, axis, wide[c..], right, parts, m, r);
      assert forall p :: p in wide[..c] || p in wide[c..] ==> p in wide;
      ChipsLaidOut(view, axis, wide[..c], left, parts, l, m);
      ChipsLaidOut(view, axis, wide[c..], right, parts, m, r);
      ChipsCover(view, axis, wide[..c], left, parts, l, m);
      ChipsCover(view, axis, wide[c..], right, parts, m, r);
      JoinHalves(view, axis, wide, c, first, second);
      CutHalves(view, axis, wide, narrow, parts, l, r);
    }
  }

  lemma CutHalves(view: seq<Point>, axis: Axis, wide: seq<nat>, narrow: seq<nat>, parts: seq<int>, l: nat, r: nat)
    requires Block(wide, narrow, parts, l, r) && r - l > 2
    ensures var m := (l + r) / 2;
            var c := parts[m] - parts[l];
            var left, right := Keep(narrow, Elems(wide[..c])), Keep(narrow, Elems(wide[c..]));
            && 0 < c < |wide| && Block(wide[..c], left, parts, l, m) && Block(wide[c..], right, parts, m, r)
            && Cut(view, axis, wide, narrow, parts, l, r) ==
               Chips(view, axis, wide[..c], left, parts, l, m) + Chips(view, axis, wide[c..], right, parts, m, r)
  {
    HalfBlocks(wide, narrow, parts, l, r);
    hide Block, Chips, Keep, Elems;
  }

  lemma SmallCutLaidOut(view: seq<Point>, axis: Axis, wide: seq<nat>, narrow: seq<nat>, parts: seq<int>,
    l: nat, r: nat)
    requires Block(wide, narrow, parts, l, r) && r - l <= 2 && Ascending(view, axis, wide)
    ensures Halved(view, Cut(view, axis, wide, narrow, parts, l, r), axis == XAxis)
  {
    hide Covers, Ascending, Below, LeftOf, Under, ListedByX, ListedByY, LaidOut, Increasing, Distinct;
    if r - l == 1 {
      AscendingListed(view, axis, wide);
      NothingLeft(view, [wide]);
    } else {
      var c := parts[r - 1] - parts[l];
      InnerPart(wide, narrow, parts, l, r);
      HalvesBelow(view, axis, wide, c);
      OneCovers(wide[..c]);
      OneCovers(wide[c..]);
      BelowLeftOf(view, axis, wide[..c], wide[c..], [wide[..c]], [wide[c..]]);
      AscendingListed(view, axis, wide[..c]);
      AscendingListed(view, axis, wide[c..]);
      var two := [wide[..c], wide[c..]];
      assert two[..1] == [wide[..c]] && two[1..] == [wide[c..]];
    }
  }

  lemma JoinHalves(view: seq<Point>, axis: Axis, wide: seq<nat>, c: int, first: seq<seq<nat>>, second: seq<seq<nat>>)
    requires 0 <= c <= |wide| && Below(view, axis, wide[..c], wide[c..])
    requires Covers(first, wide[..c]) && Covers(second, wide[c..])
    requires LaidOut(view, first, axis == XAxis) && LaidOut(view, second, axis == XAxis)
    requires |first| == (|first| + |second|) / 2 && |first| + |second| > 2
    ensures Halved(view, first + second, axis == XAxis)
  {
    hide Covers, Below, LeftOf, Under, LaidOut;
    BelowLeftOf(view, axis, wide[..c], wide[c..], first, second);
    var all := first + second;
    assert all[..|all| / 2] == first && all[|all| / 2..] == second;
  }

  lemma NothingLeft(view: seq<Point>, chips: seq<seq<nat>>)
    ensures LeftOf(view, [], chips) && Under(view, [], chips)
  {
  }

  /** The chips of a view are laid out this way; at equal widths the whole view is halved along Y. */
  lemma ChipViewLaidOut(view: seq<Point>, capacity: nat)
    requires |view| > 0 && capacity > 0
    ensures LaidOut(view, ChipView(view, capacity), true)
  {
    hide Chips, LaidOut, Ascending, Block, SortedIds;
    var parts := Boundaries(|view|, capacity);
    WholeBlock(view, capacity);
    SortedIdsCorrect(view, XAxis);
    SortedIdsCorrect(view, YAxis);
    SameMembers(SortedIds(view, XAxis), Iota(|view|));
    ChipsLaidOut(view, XAxis, SortedIds(view, XAxis), SortedIds(view, YAxis), parts, 0, |parts| - 1);
  }

  // ----- every point once

  predicate Holds(chips: seq<seq<nat>>, k: nat, i: nat, p: nat) {
    k < |chips| && i < |chips[k]| && chips[k][i] == p
  }

  /** Every point has one place in one chip. */
  ghost predicate EachOnce(view: seq<Point>, chips: seq<seq<nat>>) {
    && (forall k: nat, i: nat, p: nat :: Holds(chips, k, i, p) ==> p < |view|)
    && (forall p: nat :: p < |view| ==> HeldSomewhere(chips, p))
    && (forall k: nat, i: nat, l: nat, j: nat, p: nat :: Holds(chips, k, i, p) && Holds(chips, l, j, p) ==>
      k == l && i == j)
  }

  ghost predicate HeldSomewhere(chips: seq<seq<nat>>, p: nat) {
    exists k: nat, i: nat :: Holds(chips, k, i, p)
  }

  lemma {:induction false} OnePlace(chips: seq<seq<nat>>, k: nat, i: nat, l: nat, j: nat)
    requires k < |chips| && i < |chips[k]| && l < |chips| && j < |chips[l]| && chips[k][i] == chips[l][j]
    requires multiset(Flat(chips))[chips[k][i]] <= 1
    ensures k == l && i == j
  {
    var x := chips[k][i];
    var head, tail := chips[0], chips[1..];
    assert multiset(Flat(chips))[x] == multiset(head)[x] + multiset(Flat(tail))[x];
    if k > 0 && l > 0 {
      OnePlace(tail, k - 1, i, l - 1, j);
    } else if k == 0 && l == 0 {
      if i < j {
        TwiceInOne(head, i, j);
      } else if j < i {
        TwiceInOne(head, j, i);
      }
    } else {
      InFlat(tail, (if k > 0 then k else l) - 1, x);
      CountTwo(head, Flat(tail), x);
    }
  }

  lemma CountTwo(s: seq<nat>, t: seq<nat>, x: nat)
    requires x in s && x in t
    ensures multiset(s)[x] + multiset(t)[x] >= 2
  {
    assert x in multiset(s) && x in multiset(t);
  }

  lemma TwiceInOne(s: seq<nat>, i: nat, j: nat)
    requires i < j < |s| && s[i] == s[j]
    ensures multiset(s)[s[i]] >= 2
  {
    assert s == s[..j] + [s[j]] + s[j + 1..];
    assert s[..j][i] == s[i];
    assert s[i] in multiset(s[..j]);
  }

  lemma ChipViewOnce(view: seq<Point>, capacity: nat)
    requires |view| > 0 && capacity > 0
    ensures EachOnce(view, ChipView(view, capacity))
  {
    var chips := ChipView(view, capacity);
    ChipViewCovers(view, capacity);
    hide ChipView, Flat;
    CoveredOnce(view, chips);
  }

  lemma CoveredOnce(view: seq<Point>, chips: seq<seq<nat>>)
    requires Covers(chips, Iota(|view|))
    ensures EachOnce(view, chips)
  {
    hide Flat;
    var ids := Iota(|view|);
    forall k: nat, i: nat, p: nat | Holds(chips, k, i, p) ensures p < |view| {
      ChipMember(chips, ids, k, p);
    }
    forall p: nat | p < |view| ensures HeldSomewhere(chips, p) {
      assert ids[p] == p;
      assert p in multiset(ids);
      assert p in multiset(Flat(chips));
      FlatAmong(chips, p);
      var k :| 0 <= k < |chips| && p in chips[k];
      var i :| 0 <= i < |chips[k]| && chips[k][i] == p;
      assert Holds(chips, k, i, p);
    }
    forall k: nat, i: nat, l: nat, j: nat, p: nat | Holds(chips, k, i, p) && Holds(chips, l, j, p)
      ensures k == l && i == j
    {
      IotaOnce(|view|, p);
      OnePlace(chips, k, i, l, j);
    }
  }

  lemma IotaOnce(n: nat, x: nat)
    ensures multiset(Iota(n))[x] <= 1
  {
    var s := Iota(n);
    if x < n {
      assert s == s[..x] + [x] + s[x + 1..];
      assert x !in s[..x] && x !in s[x + 1..];
    } else {
      assert x !in s;
    }
  }

  // ----- the sizes

  /** The number of points in some chips. */
  function Total(chips: seq<seq<nat>>): nat {
    if chips == [] then 0 else Total(chips[..|chips| - 1]) + |chips[|chips| - 1]|
  }

  /** There are as few chips as the capacity allows, and the first k of them hold k * n / |chips| points,
      rounded to the nearest whole number and up at a half. */
  ghost predicate Shared(view: seq<Point>, capacity: nat, chips: seq<seq<nat>>) {
    && (|chips| - 1) * capacity < |view| <= |chips| * capacity
    && forall k :: 0 <= k <= |chips| ==>
      var b := Total(chips[..k]);
      (2 * b - 1) * |chips| <= 2 * (k * |view|) < (2 * b + 1) * |chips|
  }

  lemma BoundaryMeaning(size: nat, chips: nat, k: nat)
    requires chips > 0
    ensures var b := Boundary(size, chips, k);
            (2 * b - 1) * chips <= 2 * (k * size) < (2 * b + 1) * chips
  {
    var b := Boundary(size, chips, k);
    var q := size as real / chips as real;
    var x := k as real * q;
    assert b as real <= x + 0.5 < b as real + 1.0;
    ShareTimes(size, chips, k, q, x);
    hide Boundary;
    RoundedShare(k * size, chips, b, x);
  }

  lemma ShareTimes(size: nat, chips: nat, k: nat, q: real, x: real)
    requires chips > 0 && q == size as real / chips as real && x == k as real * q
    ensures x * chips as real == (k * size) as real
  {
    assert q * chips as real == size as real;
    assert x * chips as real == k as real * (q * chips as real);
    assert (k * size) as real == k as real * size as real;
  }

  lemma RoundedShare(n: nat, c: nat, b: int, x: real)
    requires c > 0 && x * c as real == n as real && b as real <= x + 0.5 < b as real + 1.0
    ensures (2 * b - 1) * c <= 2 * n < (2 * b + 1) * c
  {
    RealTimes(2 * b - 1, c, 2.0 * x, 2 * n);
    RealTimes(2 * b + 1, c, 2.0 * x, 2 * n);
  }

  lemma RealTimes(a: int, c: nat, y: real, m: int)
    requires c > 0 && y * c as real == m as real
    ensures a as real <= y ==> a * c <= m
    ensures y < a as real ==> m < a * c
  {
    assert (a * c) as real == a as real * c as real;
    if y < a as real {
      MulBelow(y, a as real, c as real);
    } else if a as real < y {
      MulBelow(a as real, y, c as real);
    }
  }

  lemma {:induction false} TotalOfParts(chips: seq<seq<nat>>, parts: seq<int>, k: nat)
    requires k <= |chips| < |parts| && forall i :: 0 <= i < |chips| ==> |chips[i]| == parts[i + 1] - parts[i]
    ensures Total(chips[..k]) == parts[k] - parts[0]
  {
    if k > 0 {
      assert chips[..k][..k - 1] == chips[..k - 1];
      TotalOfParts(chips, parts, k - 1);
    }
  }

  lemma ChipViewShared(view: seq<Point>, capacity: nat)
    requires |view| > 0 && capacity > 0
    ensures Shared(view, capacity, ChipView(view, capacity))
  {
    hide Ceil, Boundary, SortedIds, Block, Total, Chips;
    var parts := Boundaries(|view|, capacity);
    var chips := ChipView(view, capacity);
    WholeBlock(view, capacity);
    CeilPositive(|view|, capacity);
    BoundariesEnds(|view|, capacity);
    forall i | 0 <= i < |chips| ensures |chips[i]| == parts[i + 1] - parts[i] {
      ChipSizes(view, XAxis, SortedIds(view, XAxis), SortedIds(view, YAxis), parts, 0, |parts| - 1, i);
    }
    forall k | 0 <= k <= |chips|
      ensures var b := Total(chips[..k]);
              (2 * b - 1) * |chips| <= 2 * (k * |view|) < (2 * b + 1) * |chips|
    {
      TotalOfParts(chips, parts, k);
      BoundaryMeaning(|view|, |chips|, k);
    }
  }

  /** What the chips of a view are, in terms of its points. */
  lemma ChipViewMeaning(view: seq<Point>, capacity: nat)
    requires |view| > 0 && capacity > 0
    ensures var chips := ChipView(view, capacity);
            EachOnce(view, chips) && Shared(view, capacity, chips) && LaidOut(view, chips, true)
  {
    hide *;
    ChipViewOnce(view, capacity);
    ChipViewShared(view, capacity);
    ChipViewLaidOut(view, capacity);
  }
}
