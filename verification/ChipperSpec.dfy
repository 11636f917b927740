/** A plain account of `filters.chipper` on lists of point ids: cut the ids sorted along the wider
    axis, filter the ids sorted along the other axis, recurse. The in-place algorithm of module
    Chipper is proved to produce exactly these chips; the geometry is proved here.
 */
module ChipperSpec {
  import opened Arithmetic
  import opened Points
  import opened StableInsertion

  datatype Axis = XAxis | YAxis {
    function Other(): Axis {
      if XAxis? then YAxis else XAxis
    }
  }

  function At(view: seq<Point>, axis: Axis, id: nat): real {
    if id >= |view| then 0.0 else if axis.XAxis? then view[id].x else view[id].y
  }

  function CoordLess(view: seq<Point>, axis: Axis): (nat, nat) -> bool {
    (p: nat, q: nat) => At(view, axis, p) < At(view, axis, q)
  }

  /** The ids of a view in increasing order of one coordinate; ties keep their input order. */
  function SortedIds(view: seq<Point>, axis: Axis): seq<nat> {
    InsertAll(CoordLess(view, axis), Iota(|view|))
  }

  ghost predicate Distinct(s: seq<nat>) {
    forall i, j :: 0 <= i < j < |s| ==> s[i] != s[j]
  }

  function Elems(s: seq<nat>): set<nat> {
    set x | x in s
  }

  ghost predicate Ascending(view: seq<Point>, axis: Axis, s: seq<nat>) {
    forall i, j :: 0 <= i < j < |s| ==> At(view, axis, s[i]) <= At(view, axis, s[j])
  }

  // ----- filtering

  /** The elements of `s` that belong to `keep`, in their order. */
  function Keep(s: seq<nat>, keep: set<nat>): (r: seq<nat>)
    ensures |r| <= |s|
    ensures forall x :: x in r <==> x in s && x in keep
  {
    if s == [] then []
    else
      var last := |s| - 1;
      Keep(s[..last], keep) + if s[last] in keep then [s[last]] else []
  }

  lemma {:induction false} KeepDistinct(s: seq<nat>, keep: set<nat>)
    requires Distinct(s)
    ensures Distinct(Keep(s, keep))
  {
    if s != [] {
      KeepDistinct(s[..|s| - 1], keep);
    }
  }

  lemma {:induction false} KeepAscending(view: seq<Point>, axis: Axis, s: seq<nat>, keep: set<nat>)
    requires Ascending(view, axis, s)
    ensures Ascending(view, axis, Keep(s, keep))
  {
    if s != [] {
      hide Ascending;
      var last := |s| - 1;
      var front := Keep(s[..last], keep);
      AscendingFront(view, axis, s);
      KeepAscending(view, axis, s[..last], keep);
      assert forall i :: 0 <= i < |front| ==> front[i] in s[..last];
      AscendingPush(view, axis, front, s[last]);
      assert front + [] == front;
    }
  }

  lemma AscendingFront(view: seq<Point>, axis: Axis, s: seq<nat>)
    requires s != [] && Ascending(view, axis, s)
    ensures Ascending(view, axis, s[..|s| - 1])
    ensures forall x :: x in s[..|s| - 1] ==> At(view, axis, x) <= At(view, axis, s[|s| - 1])
  {
  }

  lemma AscendingPush(view: seq<Point>, axis: Axis, s: seq<nat>, x: nat)
    requires Ascending(view, axis, s)
    requires forall i :: 0 <= i < |s| ==> At(view, axis, s[i]) <= At(view, axis, x)
    ensures Ascending(view, axis, s + [x])
  {
  }

  lemma {:induction false} DistinctSize(s: seq<nat>)
    requires Distinct(s)
    ensures |Elems(s)| == |s|
  {
    if s != [] {
      var last := |s| - 1;
      DistinctSize(s[..last]);
      assert s == s[..last] + [s[last]];
      assert Elems(s) == Elems(s[..last]) + {s[last]};
      assert s[last] !in s[..last];
    }
  }

  lemma KeepSize(s: seq<nat>, keep: set<nat>)
    requires Distinct(s) && keep <= Elems(s)
    ensures |Keep(s, keep)| == |keep| && Elems(Keep(s, keep)) == keep && Distinct(Keep(s, keep))
  {
    KeepDistinct(s, keep);
    DistinctSize(Keep(s, keep));
    assert Elems(Keep(s, keep)) == keep;
  }

  // ----- partition sizes

  function Ceil(size: nat, capacity: nat): nat
    requires capacity > 0
  {
    if size % capacity != 0 then size / capacity + 1 else size / capacity
  }

  /** `lround` on the non-negative reals. */
  function Round(x: real): int {
    (x + 0.5).Floor
  }

  function Boundary(size: nat, chips: nat, k: nat): int
    requires chips > 0
  {
    Round(k as real * (size as real / chips as real))
  }

  /** The cumulate-and-round boundaries of the chips. */
  function Boundaries(size: nat, capacity: nat): (parts: seq<int>)
    requires size > 0 && capacity > 0
    ensures |parts| == Ceil(size, capacity) + 1
  {
    var chips := Ceil(size, capacity);
    CeilPositive(size, capacity);
    seq(chips + 1, k requires k >= 0 => Boundary(size, chips, k))
  }

  /** The running total after k steps. */
  ghost predicate IsTotal(total: real, k: nat, width: real) {
    total == k as real * width
  }

  lemma TotalNext(total: real, k: nat, width: real)
    requires IsTotal(total, k, width)
    ensures IsTotal(total + width, k + 1, width)
  {
  }

  lemma BoundaryTotal(size: nat, chips: nat, k: nat, total: real)
    requires chips > 0 && IsTotal(total, k, size as real / chips as real)
    ensures Round(total) == Boundary(size, chips, k) && (k == 0 ==> Boundary(size, chips, k) == 0)
  {
  }

  lemma CeilPositive(size: nat, capacity: nat)
    requires size > 0 && capacity > 0
    ensures 0 < Ceil(size, capacity) <= size
    ensures (Ceil(size, capacity) - 1) * capacity < size <= Ceil(size, capacity) * capacity
  {
    var q, r := size / capacity, size % capacity;
    Divided(size, capacity);
    MulPred(q, capacity);
    MulPred(q + 1, capacity);
    if r == 0 {
      assert q > 0;
    }
  }

  lemma Divided(size: nat, d: nat)
    requires d > 0
    ensures size == (size / d) * d + size % d && 0 <= size / d <= (size / d) * d
  {
    MulAtLeast(size / d, d);
  }

  lemma MulAtLeast(q: nat, d: nat)
    requires d > 0
    ensures q <= q * d
  {
  }

  lemma MulPred(q: int, c: int)
    ensures (q - 1) * c == q * c - c
  {
  }

  ghost predicate Increasing(parts: seq<int>) {
    forall i, j :: 0 <= i < j < |parts| ==> parts[i] < parts[j]
  }

  /** Every boundary lies above the previous one by floor(size/chips) or ceil(size/chips), which
      never exceeds the capacity. */
  lemma BoundaryStep(size: nat, capacity: nat, k: nat)
    requires size > 0 && capacity > 0
    ensures var chips := Ceil(size, capacity);
            chips > 0 &&
            var width := Boundary(size, chips, k + 1) - Boundary(size, chips, k);
            1 <= size / chips <= width <= Ceil(size, chips) <= capacity
  {
    hide Ceil, Round, Boundary;
    var chips := Ceil(size, capacity);
    CeilPositive(size, capacity);
    QuotientBounds(size, chips);
    CeilAtMost(size, chips, capacity);
    var d := size as real / chips as real;
    BoundaryNext(size, chips, k, d);
    RoundStep(k as real * d, d, size / chips, Ceil(size, chips));
  }

  lemma BoundaryNext(size: nat, chips: nat, k: nat, d: real)
    requires chips > 0 && d == size as real / chips as real
    ensures Boundary(size, chips, k) == Round(k as real * d)
    ensures Boundary(size, chips, k + 1) == Round(k as real * d + d)
  {
    var k' := k as real + 1.0;
    assert (k + 1) as real == k';
    Next(k as real, d);
    var x := k' * d;
    assert x == k as real * d + d;
    assert Boundary(size, chips, k + 1) == Round(x);
  }

  lemma Next(k: real, d: real)
    ensures (k + 1.0) * d == k * d + d
  {
  }

  /** A step whose length lies between two integers moves the rounded value by one of them or by
      something in between. */
  lemma RoundStep(x: real, d: real, low: int, high: int)
    requires low as real <= d <= high as real
    ensures low <= Round(x + d) - Round(x) <= high
  {
    var f := Round(x);
    assert f as real <= x + 0.5 < f as real + 1.0;
  }

  lemma QuotientBounds(size: nat, chips: nat)
    requires 0 < chips <= size
    ensures 1 <= size / chips
    ensures (size / chips) as real <= size as real / chips as real <= Ceil(size, chips) as real
  {
    var q, c := size / chips, Ceil(size, chips);
    Divided(size, chips);
    CeilPositive(size, chips);
    QuotientBetween(size as real, chips as real, q as real, c as real);
  }

  lemma CeilAtMost(size: nat, chips: nat, capacity: nat)
    requires size > 0 && 0 < chips && size <= chips * capacity
    ensures Ceil(size, chips) <= capacity
  {
    var c := Ceil(size, chips);
    CeilPositive(size, chips);
    if c > capacity {
      MulAtMost(capacity, c - 1, chips);
    }
  }

  lemma MulAtMost(a: int, b: int, c: nat)
    requires a <= b
    ensures c * a <= b * c
  {
  }

  lemma BoundariesEnds(size: nat, capacity: nat)
    requires size > 0 && capacity > 0
    ensures var parts := Boundaries(size, capacity);
            parts[0] == 0 && parts[|parts| - 1] == size
  {
    var chips := Ceil(size, capacity);
    CeilPositive(size, capacity);
    assert chips as real * (size as real / chips as real) == size as real;
    assert (size as real + 0.5).Floor == size;
  }

  lemma {:induction false} BoundariesFrom(size: nat, capacity: nat, i: nat, j: nat)
    requires size > 0 && capacity > 0
    requires i < j < |Boundaries(size, capacity)|
    ensures Boundaries(size, capacity)[i] < Boundaries(size, capacity)[j]
  {
    BoundaryStep(size, capacity, j - 1);
    if i < j - 1 {
      BoundariesFrom(size, capacity, i, j - 1);
    }
  }

  lemma BoundariesIncreasing(size: nat, capacity: nat)
    requires size > 0 && capacity > 0
    ensures Increasing(Boundaries(size, capacity))
  {
    var parts := Boundaries(size, capacity);
    forall i, j | 0 <= i < j < |parts| ensures parts[i] < parts[j] {
      BoundariesFrom(size, capacity, i, j);
    }
  }

  // ----- chips

  /** `a` and `b` list the same points, one block `[parts[l], parts[r])` of them. */
  ghost predicate Block(a: seq<nat>, b: seq<nat>, parts: seq<int>, l: nat, r: nat) {
    && l < r < |parts| && Increasing(parts)
    && |a| == |b| == parts[r] - parts[l]
    && Distinct(a) && Distinct(b) && Elems(a) == Elems(b)
  }

  function Range(view: seq<Point>, axis: Axis, ids: seq<nat>): real
    requires ids != []
  {
    At(view, axis, ids[|ids| - 1]) - At(view, axis, ids[0])
  }

  /** The chips of a block whose points are listed in `a` along `axis` and in `b` along the other
      axis: the block is cut along the wider axis. */
  function Chips(view: seq<Point>, axis: Axis, a: seq<nat>, b: seq<nat>, parts: seq<int>, l: nat, r: nat)
    : (chips: seq<seq<nat>>)
    requires Block(a, b, parts, l, r)
    ensures |chips| == r - l
    decreases r - l, 1
  {
    if Range(view, axis, a) > Range(view, axis.Other(), b)
    then Cut(view, axis, a, b, parts, l, r)
    else Cut(view, axis.Other(), b, a, parts, l, r)
  }

  function Cut(view: seq<Point>, axis: Axis, wide: seq<nat>, narrow: seq<nat>, parts: seq<int>, l: nat, r: nat)
    : (chips: seq<seq<nat>>)
    requires Block(wide, narrow, parts, l, r)
    ensures |chips| == r - l
    decreases r - l, 0
  {
    if r - l == 1 then [wide]
    else if r - l == 2 then
      var c := parts[r - 1] - parts[l];
      [wide[..c], wide[c..]]
    else
      var m := (l + r) / 2;
      var c := parts[m] - parts[l];
      HalfBlocks(wide, narrow, parts, l, r);
      Chips(view, axis, wide[..c], Keep(narrow, Elems(wide[..c])), parts, l, m)
      + Chips(view, axis, wide[c..], Keep(narrow, Elems(wide[c..])), parts, m, r)
  }

  lemma SliceElems(s: seq<nat>, m: int, n: int)
    requires 0 <= m <= n <= |s| && Distinct(s)
    ensures Elems(s[m..n]) <= Elems(s) && Distinct(s[m..n]) && |Elems(s[m..n])| == n - m
    ensures m == 0 ==> s[m..n] == s[..n]
    ensures n == |s| ==> s[m..n] == s[m..]
  {
    DistinctSize(s[m..n]);
  }

  lemma HalfBlocks(wide: seq<nat>, narrow: seq<nat>, parts: seq<int>, l: nat, r: nat)
    requires Block(wide, narrow, parts, l, r) && r - l >= 2
    ensures var m := (l + r) / 2;
            var c := parts[m] - parts[l];
            && 0 < c < |wide|
            && Block(wide[..c], Keep(narrow, Elems(wide[..c])), parts, l, m)
            && Block(wide[c..], Keep(narrow, Elems(wide[c..])), parts, m, r)
  {
    hide Elems, Keep;
    var m := (l + r) / 2;
    var c := parts[m] - parts[l];
    SliceElems(wide, 0, c);
    SliceElems(wide, c, |wide|);
    KeepSize(narrow, Elems(wide[..c]));
    KeepSize(narrow, Elems(wide[c..]));
  }

  /** All chips of a view, in the order in which they are emitted. */
  function ChipView(view: seq<Point>, capacity: nat): (chips: seq<seq<nat>>)
    requires |view| > 0 && capacity > 0
    ensures |chips| == Ceil(|view|, capacity)
  {
    var parts := Boundaries(|view|, capacity);
    WholeBlock(view, capacity);
    Chips(view, XAxis, SortedIds(view, XAxis), SortedIds(view, YAxis), parts, 0, |parts| - 1)
  }

  lemma SortedIdsCorrect(view: seq<Point>, axis: Axis)
    ensures var s := SortedIds(view, axis);
            && |s| == |view| && Distinct(s) && Elems(s) == Elems(Iota(|view|))
            && Ascending(view, axis, s)
            && StablySorted(CoordLess(view, axis), (id: nat) => id, s)
  {
    var less, id := CoordLess(view, axis), (id: nat) => id;
    var s := SortedIds(view, axis);
    assert StrictWeakOrder(less);
    InsertAllStable(less, id, Iota(|view|));
    assert Ascending(view, axis, s) by {
      forall i, j | 0 <= i < j < |s| ensures At(view, axis, s[i]) <= At(view, axis, s[j]) {
        assert !less(s[j], s[i]);
      }
    }
    forall x | x in s ensures x in Iota(|view|) { assert x in multiset(s); }
    forall x | x in Iota(|view|) ensures x in s { assert x in multiset(Iota(|view|)); }
  }

  lemma WholeBlock(view: seq<Point>, capacity: nat)
    requires |view| > 0 && capacity > 0
    ensures var parts := Boundaries(|view|, capacity);
            |parts| > 1 && Block(SortedIds(view, XAxis), SortedIds(view, YAxis), parts, 0, |parts| - 1)
  {
    CeilPositive(|view|, capacity);
    BoundariesEnds(|view|, capacity);
    BoundariesIncreasing(|view|, capacity);
    SortedIdsCorrect(view, XAxis);
    SortedIdsCorrect(view, YAxis);
  }

  // ----- what the chips are

  /** The k-th chip has exactly the size of the k-th part. */
  lemma {:induction false} ChipSizes(view: seq<Point>, axis: Axis, a: seq<nat>, b: seq<nat>, parts: seq<int>, l: nat,
    r: nat, k: nat)
    requires Block(a, b, parts, l, r) && k < r - l
    ensures |Chips(view, axis, a, b, parts, l, r)[k]| == parts[l + k + 1] - parts[l + k]
    decreases r - l, 1
  {
    if Range(view, axis, a) > Range(view, axis.Other(), b) {
      CutSizes(view, axis, a, b, parts, l, r, k);
    } else {
      CutSizes(view, axis.Other(), b, a, parts, l, r, k);
    }
  }

  lemma {:induction false} CutSizes(view: seq<Point>, axis: Axis, wide: seq<nat>, narrow: seq<nat>,
                                    parts: seq<int>, l: nat, r: nat, k: nat)
    requires Block(wide, narrow, parts, l, r) && k < r - l
    ensures |Cut(view, axis, wide, narrow, parts, l, r)[k]| == parts[l + k + 1] - parts[l + k]
    decreases r - l, 0
  {
    hide Keep, Elems, Distinct, Increasing;
    if r - l <= 2 {
      SmallCutSizes(view, axis, wide, narrow, parts, l, r, k);
    } else {
      var m := (l + r) / 2;
      var c := parts[m] - parts[l];
      HalfBlocks(wide, narrow, parts, l, r);
      if k < m - l {
        ChipSizes(view, axis, wide[..c], Keep(narrow, Elems(wide[..c])), parts, l, m, k);
      } else {
        ChipSizes(view, axis, wide[c..], Keep(narrow, Elems(wide[c..])), parts, m, r, k - (m - l));
      }
    }
  }

  lemma SmallCutSizes(view: seq<Point>, axis: Axis, wide: seq<nat>, narrow: seq<nat>,
                      parts: seq<int>, l: nat, r: nat, k: nat)
    requires Block(wide, narrow, parts, l, r) && r - l <= 2 && k < r - l
    ensures |Cut(view, axis, wide, narrow, parts, l, r)[k]| == parts[l + k + 1] - parts[l + k]
  {
    hide Keep, Elems, Distinct;
  }

  function Flat(chips: seq<seq<nat>>): seq<nat> {
    if chips == [] then [] else chips[0] + Flat(chips[1..])
  }

  lemma {:induction false} FlatAppend(a: seq<seq<nat>>, b: seq<seq<nat>>)
    ensures Flat(a + b) == Flat(a) + Flat(b)
  {
    if a == [] {
      assert a + b == b;
    } else {
      hide Flat;
      FlatAppend(a[1..], b);
      FlatCons(a[0], a[1..]);
      FlatCons(a[0], a[1..] + b);
      assert a == [a[0]] + a[1..];
      assert a + b == [a[0]] + (a[1..] + b);
      Associative(a[0], Flat(a[1..]), Flat(b));
    }
  }

  lemma FlatCons(chip: seq<nat>, rest: seq<seq<nat>>)
    ensures Flat([chip] + rest) == chip + Flat(rest)
  {
    assert ([chip] + rest)[1..] == rest;
  }

  lemma Associative(a: seq<nat>, b: seq<nat>, c: seq<nat>)
    ensures a + (b + c) == (a + b) + c
  {
  }

  /** Laid end to end, the chips list the points of the block once each. */
  ghost predicate Covers(chips: seq<seq<nat>>, s: seq<nat>) {
    multiset(Flat(chips)) == multiset(s)
  }

  lemma SameElements(a: seq<nat>, b: seq<nat>)
    requires Distinct(a) && Distinct(b) && Elems(a) == Elems(b)
    ensures multiset(a) == multiset(b)
  {
    forall x ensures multiset(a)[x] == multiset(b)[x] {
      DistinctCount(a, x);
      DistinctCount(b, x);
      assert x in Elems(a) <==> x in Elems(b);
    }
  }

  lemma {:induction false} DistinctCount(s: seq<nat>, x: nat)
    requires Distinct(s)
    ensures multiset(s)[x] == if x in s then 1 else 0
  {
    if s != [] {
      var last := |s| - 1;
      DistinctCount(s[..last], x);
      assert s == s[..last] + [s[last]];
      assert s[last] !in s[..last];
    }
  }

  lemma {:induction false} ChipsCover(view: seq<Point>, axis: Axis, a: seq<nat>, b: seq<nat>, parts: seq<int>, l: nat,
    r: nat)
    requires Block(a, b, parts, l, r)
    ensures Covers(Chips(view, axis, a, b, parts, l, r), a)
    decreases r - l, 1
  {
    if Range(view, axis, a) > Range(view, axis.Other(), b) {
      CutCovers(view, axis, a, b, parts, l, r);
    } else {
      CutCovers(view, axis.Other(), b, a, parts, l, r);
      SameElements(a, b);
    }
  }

  lemma {:induction false} CutCovers(view: seq<Point>, axis: Axis, wide: seq<nat>, narrow: seq<nat>, parts: seq<int>,
    l: nat, r: nat)
    requires Block(wide, narrow, parts, l, r)
    ensures Covers(Cut(view, axis, wide, narrow, parts, l, r), wide)
    decreases r - l, 0
  {
    hide Keep, Elems, Distinct, Covers;
    if r - l == 1 {
      OneCovers(wide);
    } else if r - l == 2 {
      TwoCover(wide, parts[r - 1] - parts[l]);
    } else {
      var m := (l + r) / 2;
      var c := parts[m] - parts[l];
      HalfBlocks(wide, narrow, parts, l, r);
      var left := Keep(narrow, Elems(wide[..c]));
      var right := Keep(narrow, Elems(wide[c..]));
      ChipsCover(view, axis, wide[..c], left, parts, l, m);
      ChipsCover(view, axis, wide[c..], right, parts, m, r);
      JoinCovers(wide, c, Chips(view, axis, wide[..c], left, parts, l, m),
        Chips(view, axis, wide[c..], right, parts, m, r));
    }
  }

  lemma OneCovers(chip: seq<nat>)
    ensures Covers([chip], chip)
  {
    assert Flat([chip]) == chip + Flat([chip][1..]) == chip;
  }

  lemma TwoCover(wide: seq<nat>, c: int)
    requires 0 <= c <= |wide|
    ensures Covers([wide[..c], wide[c..]], wide)
  {
    var two := [wide[..c], wide[c..]];
    assert Flat(two) == two[0] + (two[1] + Flat(two[1..][1..])) == wide;
  }

  lemma JoinCovers(wide: seq<nat>, c: int, first: seq<seq<nat>>, second: seq<seq<nat>>)
    requires 0 <= c <= |wide| && Covers(first, wide[..c]) && Covers(second, wide[c..])
    ensures Covers(first + second, wide)
  {
    hide Flat;
    FlatAppend(first, second);
    assert wide == wide[..c] + wide[c..];
  }

  /** No point of the second chip lies below a point of the first along `axis`. */
  ghost predicate Below(view: seq<Point>, axis: Axis, first: seq<nat>, second: seq<nat>) {
    forall p, q :: p in first && q in second ==> At(view, axis, p) <= At(view, axis, q)
  }

  /** Of any two chips, the earlier one lies below the later one along X or along Y. */
  ghost predicate Separated(view: seq<Point>, chips: seq<seq<nat>>) {
    forall i, j :: 0 <= i < j < |chips| ==>
      Below(view, XAxis, chips[i], chips[j]) || Below(view, YAxis, chips[i], chips[j])
  }

  lemma {:induction false} InFlat(chips: seq<seq<nat>>, k: nat, x: nat)
    requires k < |chips| && x in chips[k]
    ensures x in Flat(chips)
  {
    if k > 0 {
      InFlat(chips[1..], k - 1, x);
    }
  }

  lemma ChipMember(chips: seq<seq<nat>>, s: seq<nat>, k: nat, x: nat)
    requires Covers(chips, s) && k < |chips| && x in chips[k]
    ensures x in s
  {
    InFlat(chips, k, x);
    assert x in multiset(Flat(chips));
  }

  lemma {:induction false} ChipsSeparated(view: seq<Point>, axis: Axis, a: seq<nat>, b: seq<nat>, parts: seq<int>,
    l: nat, r: nat)
    requires Block(a, b, parts, l, r)
    requires Ascending(view, axis, a) && Ascending(view, axis.Other(), b)
    ensures Separated(view, Chips(view, axis, a, b, parts, l, r))
    decreases r - l, 1
  {
    if Range(view, axis, a) > Range(view, axis.Other(), b) {
      CutSeparated(view, axis, a, b, parts, l, r);
    } else {
      CutSeparated(view, axis.Other(), b, a, parts, l, r);
    }
  }

  lemma {:induction false} CutSeparated(view: seq<Point>, axis: Axis, wide: seq<nat>, narrow: seq<nat>,
    parts: seq<int>, l: nat, r: nat)
    requires Block(wide, narrow, parts, l, r)
    requires Ascending(view, axis, wide) && Ascending(view, axis.Other(), narrow)
    ensures Separated(view, Cut(view, axis, wide, narrow, parts, l, r))
    decreases r - l, 0
  {
    hide Keep, Elems, Distinct, Below, Covers, Ascending, Separated;
    if r - l == 1 {
      OneSeparated(view, wide);
    } else if r - l == 2 {
      var c := parts[r - 1] - parts[l];
      HalvesBelow(view, axis, wide, c);
      TwoSeparated(view, axis, wide[..c], wide[c..]);
    } else if r - l > 2 {
      var m := (l + r) / 2;
      var c := parts[m] - parts[l];
      HalfBlocks(wide, narrow, parts, l, r);
      HalvesBelow(view, axis, wide, c);
      var left := Keep(narrow, Elems(wide[..c]));
      var right := Keep(narrow, Elems(wide[c..]));
      KeepAscending(view, axis.Other(), narrow, Elems(wide[..c]));
      KeepAscending(view, axis.Other(), narrow, Elems(wide[c..]));
      ChipsSeparated(view, axis, wide[..c], left, parts, l, m);
      ChipsSeparated(view, axis, wide[c..], right, parts, m, r);
      ChipsCover(view, axis, wide[..c], left, parts, l, m);
      ChipsCover(view, axis, wide[c..], right, parts, m, r);
      JoinSeparated(view, axis, wide[..c], wide[c..],
        Chips(view, axis, wide[..c], left, parts, l, m), Chips(view, axis, wide[c..], right, parts, m, r));
    }
  }

  lemma OneSeparated(view: seq<Point>, chip: seq<nat>)
    ensures Separated(view, [chip])
  {
  }

  lemma TwoSeparated(view: seq<Point>, axis: Axis, first: seq<nat>, second: seq<nat>)
    requires Below(view, axis, first, second)
    ensures Separated(view, [first, second])
  {
    hide Below;
  }

  lemma HalvesBelow(view: seq<Point>, axis: Axis, wide: seq<nat>, c: int)
    requires 0 <= c <= |wide| && Ascending(view, axis, wide)
    ensures Below(view, axis, wide[..c], wide[c..])
    ensures Ascending(view, axis, wide[..c]) && Ascending(view, axis, wide[c..])
  {
    forall p, q | p in wide[..c] && q in wide[c..] ensures At(view, axis, p) <= At(view, axis, q) {
      var i :| 0 <= i < c && wide[..c][i] == p;
      var j :| 0 <= j < |wide| - c && wide[c..][j] == q;
      assert At(view, axis, wide[i]) <= At(view, axis, wide[c + j]);
    }
  }

  lemma JoinSeparated(view: seq<Point>, axis: Axis, s: seq<nat>, t: seq<nat>, first: seq<seq<nat>>,
    second: seq<seq<nat>>)
    requires Below(view, axis, s, t) && Covers(first, s) && Covers(second, t)
    requires Separated(view, first) && Separated(view, second)
    ensures Separated(view, first + second)
  {
    var both := first + second;
    forall i, j | 0 <= i < j < |both|
      ensures Below(view, XAxis, both[i], both[j]) || Below(view, YAxis, both[i], both[j])
    {
      if i < |first| <= j {
        forall p, q | p in both[i] && q in both[j] ensures At(view, axis, p) <= At(view, axis, q) {
          ChipMember(first, s, i, p);
          ChipMember(second, t, j - |first|, q);
        }
        assert Below(view, axis, both[i], both[j]);
      } else if j < |first| {
        assert both[i] == first[i] && both[j] == first[j];
      } else {
        assert both[i] == second[i - |first|] && both[j] == second[j - |first|];
      }
    }
  }

  /** The promise of the filter: the chips hold every point of the view exactly once, there are
      ceil(n / capacity) of them, each of size floor(n / chips) or ceil(n / chips) and so neither
      empty nor over capacity, and any two are separated along X or along Y. */
  lemma ChipViewCorrect(view: seq<Point>, capacity: nat)
    requires |view| > 0 && capacity > 0
    ensures var chips := ChipView(view, capacity);
            && |chips| == Ceil(|view|, capacity)
            && Covers(chips, Iota(|view|))
            && Separated(view, chips)
            && forall k :: 0 <= k < |chips| ==> Balanced(view, capacity, k)
  {
    ChipViewCovers(view, capacity);
    ChipViewSeparated(view, capacity);
    forall k | 0 <= k < |ChipView(view, capacity)| ensures Balanced(view, capacity, k) {
      ChipBalanced(view, capacity, k);
    }
  }

  /** The k-th chip is neither empty nor over capacity, and within one point of any other. */
  ghost predicate Balanced(view: seq<Point>, capacity: nat, k: nat)
    requires |view| > 0 && capacity > 0 && k < |ChipView(view, capacity)|
  {
    var chips := ChipView(view, capacity);
    0 < |view| / |chips| <= |chips[k]| <= Ceil(|view|, |chips|) <= capacity
  }

  lemma ChipBalanced(view: seq<Point>, capacity: nat, k: nat)
    requires |view| > 0 && capacity > 0 && k < |ChipView(view, capacity)|
    ensures Balanced(view, capacity, k)
  {
    hide Ceil, Boundary, SortedIds, Block;
    var parts := Boundaries(|view|, capacity);
    WholeBlock(view, capacity);
    ChipSizes(view, XAxis, SortedIds(view, XAxis), SortedIds(view, YAxis), parts, 0, |parts| - 1, k);
    BoundaryStep(|view|, capacity, k);
  }

  lemma ChipViewCovers(view: seq<Point>, capacity: nat)
    requires |view| > 0 && capacity > 0
    ensures Covers(ChipView(view, capacity), Iota(|view|))
  {
    var parts := Boundaries(|view|, capacity);
    WholeBlock(view, capacity);
    ChipsCover(view, XAxis, SortedIds(view, XAxis), SortedIds(view, YAxis), parts, 0, |parts| - 1);
  }

  lemma ChipViewSeparated(view: seq<Point>, capacity: nat)
    requires |view| > 0 && capacity > 0
    ensures Separated(view, ChipView(view, capacity))
  {
    var parts := Boundaries(|view|, capacity);
    WholeBlock(view, capacity);
    SortedIdsCorrect(view, XAxis);
    SortedIdsCorrect(view, YAxis);
    ChipsSeparated(view, XAxis, SortedIds(view, XAxis), SortedIds(view, YAxis), parts, 0, |parts| - 1);
  }
}
