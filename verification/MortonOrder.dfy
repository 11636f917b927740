/** `filters.mortonorder`: both modes insert every point under its code into an ordered multimap and
    append the points to the output view in the order of the map.
 */
module MortonOrder {
  import opened Arithmetic
  import opened Points
  import opened StableInsertion
  import opened UnsignedOrder
  import opened ZOrder
  import opened ReverseZOrder

  const INT_MAX := 2147483647

  /** What the multimap holds: a key and the point inserted under it. */
  datatype Entry<K> = Entry(key: K, id: nat)

  function Ids<K>(s: seq<Entry<K>>): (r: seq<nat>)
    ensures |r| == |s| && forall i :: 0 <= i < |s| ==> r[i] == s[i].id
  {
    seq(|s|, i requires 0 <= i < |s| => s[i].id)
  }

  /** The output lists every point of the view once, in the given order; points that compare equal
      stay in input order. */
  ghost predicate OrderedBy(n: nat, before: (nat, nat) -> bool, out: seq<nat>) {
    && |out| == n
    && (forall k :: 0 <= k < |out| ==> out[k] < n)
    && (forall id :: 0 <= id < n ==> id in out)
    && StablySorted(before, (id: nat) => id, out)
  }

  /** The entries as they were inserted, one for each point. */
  ghost predicate Listed<K>(entries: seq<Entry<K>>) {
    forall i :: 0 <= i < |entries| ==> entries[i].id == i
  }

  /** Reading an ordered multimap from front to back. */
  lemma MapOrder<K(!new)>(less: (Entry<K>, Entry<K>) -> bool, entries: seq<Entry<K>>, before: (nat, nat) -> bool)
    requires StrictWeakOrder(less) && Listed(entries)
    requires forall i, j :: 0 <= i < |entries| && 0 <= j < |entries| ==>
      (less(entries[i], entries[j]) <==> before(i, j))
    ensures OrderedBy(|entries|, before, Ids(InsertAll(less, entries)))
  {
    hide InsertAll, StablySorted, StrictWeakOrder;
    var r := InsertAll(less, entries);
    InsertAllStable(less, (e: Entry<K>) => e.id, entries);
    MapEntries(entries, r);
    MapSorted(less, entries, before, r);
  }

  /** A permutation of the entries holds every point once, under its own key. */
  lemma MapEntries<K(!new)>(entries: seq<Entry<K>>, r: seq<Entry<K>>)
    requires Listed(entries) && multiset(r) == multiset(entries)
    ensures forall i :: 0 <= i < |r| ==> r[i].id < |entries| && entries[r[i].id] == r[i]
    ensures forall id :: 0 <= id < |entries| ==> id in Ids(r)
  {
    forall i | 0 <= i < |r| ensures r[i].id < |entries| && entries[r[i].id] == r[i] {
      assert r[i] in multiset(r);
      assert r[i] in entries;
    }
    forall id | 0 <= id < |entries| ensures id in Ids(r) {
      assert entries[id] in multiset(entries);
      assert entries[id] in r;
      var i :| 0 <= i < |r| && r[i] == entries[id];
      assert Ids(r)[i] == id;
    }
  }

  lemma MapSorted<K>(less: (Entry<K>, Entry<K>) -> bool, entries: seq<Entry<K>>, before: (nat, nat) -> bool,
    r: seq<Entry<K>>)
    requires StablySorted(less, (e: Entry<K>) => e.id, r)
    requires forall i :: 0 <= i < |r| ==> r[i].id < |entries| && entries[r[i].id] == r[i]
    requires forall i, j :: 0 <= i < |entries| && 0 <= j < |entries| ==>
      (less(entries[i], entries[j]) <==> before(i, j))
    ensures StablySorted(before, (id: nat) => id, Ids(r))
  {
    forall i, j | 0 <= i < j < |r|
      ensures !before(r[j].id, r[i].id) && (before(r[i].id, r[j].id) || r[i].id < r[j].id)
    {
      assert less(entries[r[i].id], entries[r[j].id]) <==> before(r[i].id, r[j].id);
      assert less(entries[r[j].id], entries[r[i].id]) <==> before(r[j].id, r[i].id);
    }
  }

  /** The map after inserting the entries one by one. */
  ghost predicate Mapped<K>(less: (Entry<K>, Entry<K>) -> bool, keyed: seq<Entry<K>>, entries: seq<Entry<K>>) {
    Listed(entries) && keyed == InsertAll(less, entries)
  }

  lemma EmptyMap<K>(less: (Entry<K>, Entry<K>) -> bool)
    ensures Mapped(less, [], [])
  {
  }

  lemma MappedNext<K>(less: (Entry<K>, Entry<K>) -> bool, keyed: seq<Entry<K>>, entries: seq<Entry<K>>, key: K)
    requires Mapped(less, keyed, entries)
    ensures var e := Entry(key, |entries|);
            Mapped(less, Insert(less, keyed, e), entries + [e])
  {
    hide InsertAll, Insert;
    InsertAllNext(less, entries, Entry(key, |entries|));
  }

  /** The loop that appends the points of the map to the output view. */
  method AppendAll<K>(sorted: seq<Entry<K>>) returns (out: seq<nat>)
    ensures out == Ids(sorted)
  {
    out := [];
    var pos := 0;
    while pos < |sorted|
      invariant 0 <= pos <= |sorted|
      invariant out == Ids(sorted[..pos])
    {
      out := out + [sorted[pos].id];
      pos := pos + 1;
    }
    assert sorted[..pos] == sorted;
  }

  // ----- bounds of the view

  function Lowest(s: seq<real>): (m: real)
    requires s != []
    ensures m in s && forall i :: 0 <= i < |s| ==> m <= s[i]
  {
    if |s| == 1 then s[0]
    else
      var m := Lowest(s[..|s| - 1]);
      if s[|s| - 1] < m then s[|s| - 1] else m
  }

  function Highest(s: seq<real>): (m: real)
    requires s != []
    ensures m in s && forall i :: 0 <= i < |s| ==> s[i] <= m
  {
    if |s| == 1 then s[0]
    else
      var m := Highest(s[..|s| - 1]);
      if m < s[|s| - 1] then s[|s| - 1] else m
  }

  function Xs(view: seq<Point>): (s: seq<real>)
    ensures |s| == |view| && forall i :: 0 <= i < |s| ==> s[i] == view[i].x
  {
    seq(|view|, i requires 0 <= i < |view| => view[i].x)
  }

  function Ys(view: seq<Point>): (s: seq<real>)
    ensures |s| == |view| && forall i :: 0 <= i < |s| ==> s[i] == view[i].y
  {
    seq(|view|, i requires 0 <= i < |view| => view[i].y)
  }

  datatype Box = Box(minx: real, maxx: real, miny: real, maxy: real)

  function Bounds(view: seq<Point>): Box
    requires view != []
  {
    Box(Lowest(Xs(view)), Highest(Xs(view)), Lowest(Ys(view)), Highest(Ys(view)))
  }

  /** The bounds have a positive extent in both directions. */
  ghost predicate Spread(view: seq<Point>) {
    view != [] && Bounds(view).minx < Bounds(view).maxx && Bounds(view).miny < Bounds(view).maxy
  }

  lemma InBounds(view: seq<Point>, id: nat)
    requires id < |view|
    ensures Bounds(view).minx <= view[id].x <= Bounds(view).maxx
    ensures Bounds(view).miny <= view[id].y <= Bounds(view).maxy
  {
    assert Xs(view)[id] == view[id].x && Ys(view)[id] == view[id].y;
  }

  /** The box holds the least and the greatest coordinates of the view. */
  ghost predicate IsBox(view: seq<Point>, box: Box) {
    && (forall p :: 0 <= p < |view| ==> box.minx <= view[p].x <= box.maxx && box.miny <= view[p].y <= box.maxy)
    && (exists p :: 0 <= p < |view| && view[p].x == box.minx)
    && (exists p :: 0 <= p < |view| && view[p].x == box.maxx)
    && (exists p :: 0 <= p < |view| && view[p].y == box.miny)
    && (exists p :: 0 <= p < |view| && view[p].y == box.maxy)
  }

  lemma BoundsAreBox(view: seq<Point>, box: Box)
    requires view != [] && IsBox(view, box)
    ensures Bounds(view) == box
  {
    var b := Bounds(view);
    var xs, ys := Xs(view), Ys(view);
    var i :| 0 <= i < |xs| && xs[i] == b.minx;
    var j :| 0 <= j < |xs| && xs[j] == b.maxx;
    var k :| 0 <= k < |ys| && ys[k] == b.miny;
    var l :| 0 <= l < |ys| && ys[l] == b.maxy;
    forall p | 0 <= p < |view| ensures b.minx <= view[p].x <= b.maxx && b.miny <= view[p].y <= b.maxy {
      InBounds(view, p);
    }
  }

  // ----- ordinary mode

  /** A position between two bounds, as a share of their distance. */
  type Share = r: real | 0.0 <= r <= 1.0 witness 0.0

  lemma ShareBetween(value: real, low: real, high: real)
    requires low <= value <= high && low < high
    ensures 0.0 <= (value - low) / (high - low) <= 1.0
  {
    QuotientBetween(value - low, high - low, 0.0, 1.0);
  }

  datatype Coord = Coord(first: Share, second: Share)

  /** `(int)(share * INT_MAX)`. */
  function Scaled(share: Share): (k: nat)
  {
    ProductInUnit(share, INT_MAX as real);
    (share * INT_MAX as real).Floor
  }

  /** What scaling does: the range of a share is cut into INT_MAX equal parts, numbered from 0, and the
      number of the part fits an `int`; only the whole range gets the last number. */
  lemma ScaledMeaning(share: Share, k: int)
    ensures Scaled(share) == k <==> k as real <= share * INT_MAX as real < (k + 1) as real
    ensures Scaled(share) <= INT_MAX && (Scaled(share) == INT_MAX <==> share == 1.0)
  {
    ProductInUnit(share, INT_MAX as real);
    if share < 1.0 {
      MulBelow(share, 1.0, INT_MAX as real);
    }
  }

  /** A position farther along an axis never gets a smaller number. */
  lemma ScaledMonotone(a: Share, b: Share)
    requires a <= b
    ensures Scaled(a) <= Scaled(b)
  {
    if a < b {
      MulBelow(a, b, INT_MAX as real);
    }
  }

  /** The shares of a point in the bounds of its view. */
  function Location(view: seq<Point>, id: nat): Coord
    requires Spread(view) && id < |view|
  {
    var box := Bounds(view);
    InBounds(view, id);
    ShareBetween(view[id].x, box.minx, box.maxx);
    ShareBetween(view[id].y, box.miny, box.maxy);
    Coord((view[id].x - box.minx) / (box.maxx - box.minx), (view[id].y - box.miny) / (box.maxy - box.miny))
  }

  function Code(loc: Coord): nat {
    Interleave(Scaled(loc.first), Scaled(loc.second))
  }

  /** The Morton code of a point; X is the more significant coordinate. */
  ghost function ZKey(view: seq<Point>, id: nat): int {
    if Spread(view) && id < |view| then Code(Location(view, id)) else 0
  }

  ghost function ZBefore(view: seq<Point>): (nat, nat) -> bool {
    (p: nat, q: nat) => ZKey(view, p) < ZKey(view, q)
  }

  /** The comparator of the map. */
  predicate ZLess(a: Entry<Coord>, b: Entry<Coord>) {
    CmpZOrder((Scaled(a.key.first), Scaled(a.key.second)), (Scaled(b.key.first), Scaled(b.key.second)))
  }

  /** It is the order of the codes. */
  lemma ZLessMeaning(a: Entry<Coord>, b: Entry<Coord>)
    ensures ZLess(a, b) <==> Code(a.key) < Code(b.key)
  {
    hide CmpZOrder, Interleave, Scaled;
    CmpZOrderMeaning((Scaled(a.key.first), Scaled(a.key.second)), (Scaled(b.key.first), Scaled(b.key.second)));
  }

  lemma ZLessOrder()
    ensures StrictWeakOrder(ZLess)
  {
    hide ZLess, Code;
    forall a: Entry<Coord>, b: Entry<Coord> ensures ZLess(a, b) ==> !ZLess(b, a) {
      ZLessMeaning(a, b);
      ZLessMeaning(b, a);
    }
    forall a: Entry<Coord>, b: Entry<Coord>, c: Entry<Coord> | !ZLess(a, b) && !ZLess(b, c)
      ensures !ZLess(a, c)
    {
      ZLessMeaning(a, b);
      ZLessMeaning(b, c);
      ZLessMeaning(a, c);
    }
  }

  /** The entries hold the shares of the first points. */
  ghost predicate Located(view: seq<Point>, entries: seq<Entry<Coord>>)
    requires Spread(view)
  {
    |entries| <= |view| && forall i :: 0 <= i < |entries| ==> entries[i].key == Location(view, i)
  }

  lemma NoneLocated(view: seq<Point>)
    requires Spread(view)
    ensures Located(view, [])
  {
  }

  lemma LocatedNext(view: seq<Point>, entries: seq<Entry<Coord>>, loc: Coord)
    requires Spread(view) && Located(view, entries) && |entries| < |view| && loc == Location(view, |entries|)
    ensures Located(view, entries + [Entry(loc, |entries|)])
  {
    hide Location, Spread;
  }

  lemma ZMapOrder(view: seq<Point>, sorted: seq<Entry<Coord>>, entries: seq<Entry<Coord>>)
    requires Spread(view) && Mapped(ZLess, sorted, entries) && |entries| == |view|
    requires Located(view, entries)
    ensures OrderedBy(|view|, ZBefore(view), Ids(sorted))
  {
    hide OrderedBy, Code, Location, Spread, ZLess, StrictWeakOrder;
    ZLessOrder();
    forall i, j | 0 <= i < |entries| && 0 <= j < |entries|
      ensures ZLess(entries[i], entries[j]) <==> ZBefore(view)(i, j)
    {
      ZLessMeaning(entries[i], entries[j]);
    }
    MapOrder(ZLess, entries, ZBefore(view));
  }

  /** k is the scaled position of a value between low and high, rounded down. */
  ghost predicate IsScaled(value: real, low: real, high: real, k: int)
    requires low < high
  {
    k as real <= (value - low) / (high - low) * INT_MAX as real < (k + 1) as real
  }

  /** The points stand in the order of the interleaved codes of their scaled coordinates, X the more
      significant one, and in input order if these are equal. */
  ghost predicate ZSorted(view: seq<Point>, box: Box, out: seq<nat>)
    requires box.minx < box.maxx && box.miny < box.maxy
  {
    forall i, j, kx: nat, ky: nat, lx: nat, ly: nat
      {:trigger IsScaled(view[out[i]].x, box.minx, box.maxx, kx), IsScaled(view[out[i]].y, box.miny, box.maxy, ky),
                IsScaled(view[out[j]].x, box.minx, box.maxx, lx), IsScaled(view[out[j]].y, box.miny, box.maxy, ly)} ::
      0 <= i < |out| && 0 <= j < |out| && out[i] < |view| && out[j] < |view|
      && IsScaled(view[out[i]].x, box.minx, box.maxx, kx) && IsScaled(view[out[i]].y, box.miny, box.maxy, ky)
      && IsScaled(view[out[j]].x, box.minx, box.maxx, lx) && IsScaled(view[out[j]].y, box.miny, box.maxy, ly) ==>
        (i < j <==>
          Interleave(kx, ky) < Interleave(lx, ly) || (Interleave(kx, ky) == Interleave(lx, ly) && out[i] < out[j]))
  }

  /** The code of a point is that of its scaled coordinates. */
  lemma ZKeyIs(view: seq<Point>, box: Box, p: nat, kx: nat, ky: nat)
    requires Spread(view) && IsBox(view, box) && p < |view|
    requires IsScaled(view[p].x, box.minx, box.maxx, kx) && IsScaled(view[p].y, box.miny, box.maxy, ky)
    ensures ZKey(view, p) == Interleave(kx, ky)
  {
    BoundsAreBox(view, box);
    hide Interleave, Bounds, Scaled, Location, IsScaled;
    LocationScaled(view, p, kx, ky);
  }

  lemma LocationScaled(view: seq<Point>, p: nat, kx: nat, ky: nat)
    requires Spread(view) && p < |view|
    requires var box := Bounds(view);
             IsScaled(view[p].x, box.minx, box.maxx, kx) && IsScaled(view[p].y, box.miny, box.maxy, ky)
    ensures var loc := Location(view, p);
            Scaled(loc.first) == kx && Scaled(loc.second) == ky
  {
    hide Bounds, Scaled;
    var loc := Location(view, p);
    ScaledMeaning(loc.first, kx);
    ScaledMeaning(loc.second, ky);
  }

  lemma SortedPair(before: (nat, nat) -> bool, out: seq<nat>, i: int, j: int)
    requires StablySorted(before, (id: nat) => id, out) && 0 <= i < |out| && 0 <= j < |out|
    requires before(out[i], out[j]) ==> !before(out[j], out[i])
    ensures i < j <==> before(out[i], out[j]) || (!before(out[j], out[i]) && out[i] < out[j])
  {
  }

  lemma ZSortedOutput(view: seq<Point>, box: Box, out: seq<nat>)
    requires Spread(view) && IsBox(view, box) && box.minx < box.maxx && box.miny < box.maxy
    requires OrderedBy(|view|, ZBefore(view), out)
    ensures ZSorted(view, box, out)
  {
    hide ZKey, IsScaled, Interleave, IsBox, Spread, StablySorted;
    forall i, j, kx: nat, ky: nat, lx: nat, ly: nat
      | 0 <= i < |out| && 0 <= j < |out|
        && IsScaled(view[out[i]].x, box.minx, box.maxx, kx) && IsScaled(view[out[i]].y, box.miny, box.maxy, ky)
        && IsScaled(view[out[j]].x, box.minx, box.maxx, lx) && IsScaled(view[out[j]].y, box.miny, box.maxy, ly)
      ensures i < j <==>
        Interleave(kx, ky) < Interleave(lx, ly) || (Interleave(kx, ky) == Interleave(lx, ly) && out[i] < out[j])
    {
      ZKeyIs(view, box, out[i], kx, ky);
      ZKeyIs(view, box, out[j], lx, ly);
      SortedPair(ZBefore(view), out, i, j);
    }
  }

  /** The western half comes first: a scaled X below 2^30 puts a point before any with a greater one. */
  lemma WestFirst(kx: nat, ky: nat, lx: nat, ly: nat)
    requires kx < 0x4000_0000 <= lx && ky <= INT_MAX
    ensures Interleave(kx, ky) < Interleave(lx, ly)
  {
    Power2At30();
    HighBitDecides(30, (kx, ky), (lx, ly));
  }

  /** Ordinary mode returns no view for an empty input, and else one view in Z-order. */
  method Morton(view: seq<Point>) returns (viewSet: seq<seq<nat>>)
    requires view == [] || Spread(view)
    ensures view == [] ==> viewSet == []
    ensures view != [] ==> |viewSet| == 1 && OrderedBy(|view|, ZBefore(view), viewSet[0])
    ensures view != [] ==> forall box :: IsBox(view, box) && box.minx < box.maxx && box.miny < box.maxy ==>
      ZSorted(view, box, viewSet[0])
  {
    if view == [] {
      return [];
    }
    hide *;
    var sorted: seq<Entry<Coord>> := [];
    ghost var entries: seq<Entry<Coord>> := [];
    var idx := 0;
    EmptyMap(ZLess);
    NoneLocated(view);
    while idx < |view|
      invariant 0 <= idx <= |view|
      invariant Mapped(ZLess, sorted, entries) && |entries| == idx
      invariant Located(view, entries)
    {
      var loc := Locate(view, idx);
      LocatedNext(view, entries, loc);
      MappedNext(ZLess, sorted, entries, loc);
      sorted := Insert(ZLess, sorted, Entry(loc, idx));
      entries := entries + [Entry(loc, idx)];
      idx := idx + 1;
    }
    ZMapOrder(view, sorted, entries);
    var out := AppendAll(sorted);
    viewSet := [out];
    forall box | IsBox(view, box) && box.minx < box.maxx && box.miny < box.maxy ensures ZSorted(view, box, out) {
      ZSortedOutput(view, box, out);
    }
  }

  /** The body of the loop in `morton`. */
  method Locate(view: seq<Point>, idx: nat) returns (loc: Coord)
    requires Spread(view) && idx < |view|
    ensures loc == Location(view, idx)
  {
    var box := Bounds(view);
    var xrange, yrange := box.maxx - box.minx, box.maxy - box.miny;
    InBounds(view, idx);
    ShareBetween(view[idx].x, box.minx, box.maxx);
    ShareBetween(view[idx].y, box.miny, box.maxy);
    var xpos := (view[idx].x - box.minx) / xrange;
    var ypos := (view[idx].y - box.miny) / yrange;
    loc := Coord(xpos, ypos);
  }

  // ----- reverse mode

  /** `static_cast<int32_t>(sqrt(n))`. */
  function FloorSqrt(n: nat): (r: nat)
    ensures n > 0 ==> r > 0
  {
    if n == 0 then 0
    else
      var r := FloorSqrt(n - 1);
      if (r + 1) * (r + 1) <= n then r + 1 else r
  }

  lemma {:induction false} FloorSqrtMeaning(n: nat)
    ensures var r := FloorSqrt(n); r * r <= n < (r + 1) * (r + 1)
  {
    if n > 0 {
      FloorSqrtMeaning(n - 1);
    }
  }

  /** The index of the cell, out of `cells` between two bounds, that holds a value. */
  function CellOf(value: real, low: real, high: real, cells: nat): int
    requires low < high && cells > 0
  {
    var width := (high - low) / cells as real;
    QuotientPositive(high - low, cells as real);
    ((value - low) / width).Floor
  }

  /** Cells are equal half-open parts of the extent, numbered from 0; only a value on the upper bound gets
      the number past the last part. */
  lemma CellMeaning(value: real, low: real, high: real, cells: nat, c: int)
    requires low <= value <= high && low < high && cells > 0
    ensures var width := (high - low) / cells as real;
            CellOf(value, low, high, cells) == c <==> low + c as real * width <= value < low + (c + 1) as real * width
    ensures 0 <= CellOf(value, low, high, cells) <= cells
    ensures CellOf(value, low, high, cells) == cells <==> value == high
  {
    var width := (high - low) / cells as real;
    QuotientPositive(high - low, cells as real);
    assert width * cells as real == high - low;
    QuotientFloor(value - low, width, c);
    QuotientFloor(value - low, width, cells);
    QuotientBetween(value - low, width, 0.0, cells as real);
  }

  lemma QuotientFloor(a: real, b: real, c: int)
    requires b > 0.0
    ensures (a / b).Floor == c <==> c as real * b <= a < (c + 1) as real * b
  {
    QuotientBelow(a, b, c as real);
    QuotientBelow(a, b, (c + 1) as real);
  }

  /** The conversion to `uint32_t`. */
  function Low32(c: int): bv32
    requires 0 <= c <= INT_MAX
  {
    c as bv32
  }

  /** The cell of a point on the sqrt(n) by sqrt(n) grid. */
  function Cell(view: seq<Point>, id: nat): (bv32, bv32)
    requires Spread(view) && id < |view| && FloorSqrt(|view|) <= INT_MAX
  {
    var box, cells := Bounds(view), FloorSqrt(|view|);
    InBounds(view, id);
    CellMeaning(view[id].x, box.minx, box.maxx, cells, 0);
    CellMeaning(view[id].y, box.miny, box.maxy, cells, 0);
    (Low32(CellOf(view[id].x, box.minx, box.maxx, cells)), Low32(CellOf(view[id].y, box.miny, box.maxy, cells)))
  }

  lemma CellAt(view: seq<Point>, id: nat)
    requires Spread(view) && id < |view| && FloorSqrt(|view|) <= INT_MAX
    ensures var box, cells := Bounds(view), FloorSqrt(|view|);
            && 0 <= CellOf(view[id].x, box.minx, box.maxx, cells) <= INT_MAX
            && 0 <= CellOf(view[id].y, box.miny, box.maxy, cells) <= INT_MAX
            && Cell(view, id) == (Low32(CellOf(view[id].x, box.minx, box.maxx, cells)),
                                  Low32(CellOf(view[id].y, box.miny, box.maxy, cells)))
  {
    hide CellOf, Low32, FloorSqrt;
    InBounds(view, id);
    CellMeaning(view[id].x, Bounds(view).minx, Bounds(view).maxx, FloorSqrt(|view|), 0);
    CellMeaning(view[id].y, Bounds(view).miny, Bounds(view).maxy, FloorSqrt(|view|), 0);
  }

  /** The reversed Morton code of a point's cell. */
  ghost function ReverseCode(view: seq<Point>, id: nat): bv32 {
    if Spread(view) && id < |view| && FloorSqrt(|view|) <= INT_MAX
    then ReverseMorton(EncodeMorton(Cell(view, id).0, Cell(view, id).1)) else 0
  }

  ghost function ReverseBefore(view: seq<Point>): (nat, nat) -> bool {
    (p: nat, q: nat) => Less(ReverseCode(view, p), ReverseCode(view, q))
  }

  predicate CodeLess(a: Entry<bv32>, b: Entry<bv32>) {
    Less(a.key, b.key)
  }

  lemma CodeLessOrder()
    ensures StrictWeakOrder(CodeLess)
  {
    hide Less;
    forall a: Entry<bv32>, b: Entry<bv32> ensures CodeLess(a, b) ==> !CodeLess(b, a) {
      Asymmetric(a.key, b.key);
    }
    forall a: Entry<bv32>, b: Entry<bv32>, c: Entry<bv32> | !CodeLess(a, b) && !CodeLess(b, c)
      ensures !CodeLess(a, c)
    {
      Order32(a.key, b.key, c.key);
    }
  }

  lemma CodeMapOrder(view: seq<Point>, sorted: seq<Entry<bv32>>, entries: seq<Entry<bv32>>)
    requires Mapped(CodeLess, sorted, entries) && |entries| == |view|
    requires forall i :: 0 <= i < |view| ==> entries[i].key == ReverseCode(view, i)
    ensures OrderedBy(|view|, ReverseBefore(view), Ids(sorted))
  {
    hide OrderedBy, ReverseCode, StrictWeakOrder, Less;
    CodeLessOrder();
    MapOrder(CodeLess, entries, ReverseBefore(view));
  }

  /** c is the number of the cell of a value, out of equal parts between low and high. */
  ghost predicate IsCell(value: real, low: real, high: real, cells: nat, c: int)
    requires cells > 0
  {
    var width := (high - low) / cells as real;
    low + c as real * width <= value < low + (c + 1) as real * width
  }

  function CodeOfCell(cx: nat, cy: nat): bv32
    requires cx <= INT_MAX && cy <= INT_MAX
  {
    ReverseMorton(EncodeMorton(cx as bv32, cy as bv32))
  }

  ghost predicate InCell(p: Point, box: Box, cells: nat, cx: nat, cy: nat)
    requires cells > 0
  {
    IsCell(p.x, box.minx, box.maxx, cells, cx) && IsCell(p.y, box.miny, box.maxy, cells, cy)
  }

  /** The points stand in the order of the reversed codes of their cells on a grid of `cells` times `cells`. */
  ghost predicate ReverseSorted(view: seq<Point>, box: Box, cells: nat, out: seq<nat>)
    requires cells > 0
  {
    forall i, j, cx: nat, cy: nat, dx: nat, dy: nat
      {:trigger InCell(view[out[i]], box, cells, cx, cy), InCell(view[out[j]], box, cells, dx, dy)} ::
      0 <= i < |out| && 0 <= j < |out| && out[i] < |view| && out[j] < |view|
      && cx <= INT_MAX && cy <= INT_MAX && dx <= INT_MAX && dy <= INT_MAX
      && InCell(view[out[i]], box, cells, cx, cy) && InCell(view[out[j]], box, cells, dx, dy) ==>
        (i < j <==>
          Less(CodeOfCell(cx, cy), CodeOfCell(dx, dy))
          || (!Less(CodeOfCell(dx, dy), CodeOfCell(cx, cy)) && out[i] < out[j]))
  }

  lemma ReverseCodeIs(view: seq<Point>, box: Box, cells: nat, p: nat, cx: nat, cy: nat)
    requires Spread(view) && IsBox(view, box) && p < |view|
    requires cells > 0 && cells * cells <= |view| < (cells + 1) * (cells + 1)
    requires FloorSqrt(|view|) <= INT_MAX && cx <= INT_MAX && cy <= INT_MAX
    requires IsCell(view[p].x, box.minx, box.maxx, cells, cx) && IsCell(view[p].y, box.miny, box.maxy, cells, cy)
    ensures ReverseCode(view, p) == CodeOfCell(cx, cy)
  {
    hide *;
    BoundsAreBox(view, box);
    OneRoot(|view|, cells);
    SpreadBox(view);
    InBounds(view, p);
    CellIs(view[p].x, box.minx, box.maxx, cells, cx);
    CellIs(view[p].y, box.miny, box.maxy, cells, cy);
    ReverseCodeOf(view, p, cx, cy);
  }

  lemma SpreadBox(view: seq<Point>)
    requires Spread(view)
    ensures view != [] && Bounds(view).minx < Bounds(view).maxx && Bounds(view).miny < Bounds(view).maxy
  {
  }

  lemma CellIs(value: real, low: real, high: real, cells: nat, c: nat)
    requires low <= value <= high && low < high && cells > 0 && IsCell(value, low, high, cells, c)
    ensures CellOf(value, low, high, cells) == c
  {
    hide CellOf;
    CellMeaning(value, low, high, cells, c);
  }

  lemma ReverseCodeOf(view: seq<Point>, p: nat, cx: nat, cy: nat)
    requires Spread(view) && p < |view| && FloorSqrt(|view|) <= INT_MAX && cx <= INT_MAX && cy <= INT_MAX
    requires var box, cells := Bounds(view), FloorSqrt(|view|);
             && CellOf(view[p].x, box.minx, box.maxx, cells) == cx
             && CellOf(view[p].y, box.miny, box.maxy, cells) == cy
    ensures ReverseCode(view, p) == CodeOfCell(cx, cy)
  {
    hide FloorSqrt, CellOf, ReverseMorton, EncodeMorton, Bounds, Cell;
    CellAt(view, p);
  }

  lemma OneRoot(n: nat, r: nat)
    requires r * r <= n < (r + 1) * (r + 1)
    ensures FloorSqrt(n) == r
  {
    FloorSqrtMeaning(n);
    var q := FloorSqrt(n);
    hide FloorSqrt;
    if q < r {
      SquaresGrow(q + 1, r);
    } else if r < q {
      SquaresGrow(r + 1, q);
    }
  }

  lemma SquaresGrow(a: nat, b: nat)
    requires a <= b
    ensures a * a <= b * b
  {
  }

  lemma ReverseSortedOutput(view: seq<Point>, box: Box, cells: nat, out: seq<nat>)
    requires Spread(view) && IsBox(view, box) && FloorSqrt(|view|) <= INT_MAX
    requires cells > 0 && cells * cells <= |view| < (cells + 1) * (cells + 1)
    requires OrderedBy(|view|, ReverseBefore(view), out)
    ensures ReverseSorted(view, box, cells, out)
  {
    hide ReverseCode, CodeOfCell, IsCell, IsBox, Spread, StablySorted, FloorSqrt, Less;
    forall i, j, cx: nat, cy: nat, dx: nat, dy: nat
      | 0 <= i < |out| && 0 <= j < |out| && cx <= INT_MAX && cy <= INT_MAX && dx <= INT_MAX && dy <= INT_MAX
        && InCell(view[out[i]], box, cells, cx, cy) && InCell(view[out[j]], box, cells, dx, dy)
      ensures i < j <==>
        Less(CodeOfCell(cx, cy), CodeOfCell(dx, dy))
          || (!Less(CodeOfCell(dx, dy), CodeOfCell(cx, cy)) && out[i] < out[j])
    {
      ReverseCodeIs(view, box, cells, out[i], cx, cy);
      ReverseCodeIs(view, box, cells, out[j], dx, dy);
      Asymmetric(CodeOfCell(cx, cy), CodeOfCell(dx, dy));
      SortedPair(ReverseBefore(view), out, i, j);
    }
  }

  /** Reverse mode always returns one view, ordered by reversed Morton code; on every level the points of
      that level are a prefix of it. */
  method ReverseMortonOrder(view: seq<Point>) returns (viewSet: seq<seq<nat>>)
    requires view == [] || Spread(view)
    requires FloorSqrt(|view|) <= INT_MAX
    ensures |viewSet| == 1 && OrderedBy(|view|, ReverseBefore(view), viewSet[0])
    ensures view != [] ==> LevelOfDetail(view, viewSet[0])
    ensures view != [] ==> forall box, cells: nat ::
      IsBox(view, box) && cells > 0 && cells * cells <= |view| < (cells + 1) * (cells + 1) ==>
        ReverseSorted(view, box, cells, viewSet[0])
  {
    hide *;
    var cells := FloorSqrt(|view|);
    var sorted: seq<Entry<bv32>> := [];
    ghost var entries: seq<Entry<bv32>> := [];
    var idx := 0;
    EmptyMap(CodeLess);
    while idx < |view|
      invariant 0 <= idx <= |view|
      invariant Mapped(CodeLess, sorted, entries) && |entries| == idx
      invariant forall i :: 0 <= i < idx ==> entries[i].key == ReverseCode(view, i)
    {
      var reverse := CellCode(view, idx, cells);
      MappedNext(CodeLess, sorted, entries, reverse);
      sorted := Insert(CodeLess, sorted, Entry(reverse, idx));
      entries := entries + [Entry(reverse, idx)];
      idx := idx + 1;
    }
    CodeMapOrder(view, sorted, entries);
    var out := AppendAll(sorted);
    viewSet := [out];
    if view != [] {
      LevelsOfOutput(view, out);
      forall box, cells: nat | IsBox(view, box) && cells > 0 && cells * cells <= |view| < (cells + 1) * (cells + 1)
        ensures ReverseSorted(view, box, cells, out)
      {
        ReverseSortedOutput(view, box, cells, out);
      }
    }
  }

  /** The body of the loop in `reverseMorton`. */
  method CellCode(view: seq<Point>, idx: nat, cells: nat) returns (reverse: bv32)
    requires Spread(view) && idx < |view| && cells == FloorSqrt(|view|) <= INT_MAX
    ensures reverse == ReverseCode(view, idx)
  {
    hide CellOf, EncodeMorton, ReverseMorton, FloorSqrt, Low32, Cell;
    var box := Bounds(view);
    CellAt(view, idx);
    var xpos := CellOf(view[idx].x, box.minx, box.maxx, cells);
    var ypos := CellOf(view[idx].y, box.miny, box.maxy, cells);
    var code := EncodeMorton(Low32(xpos), Low32(ypos));
    reverse := ReverseMorton(code);
  }

  /** The points on the cells of level l: both cell coordinates are divisible by 2^l. */
  ghost predicate OnLevel(view: seq<Point>, l: bv32, id: nat)
    requires l <= 16 && Spread(view) && FloorSqrt(|view|) <= INT_MAX
  {
    id < |view| && Coarse(Cell(view, id).0, l) && Coarse(Cell(view, id).1, l)
  }

  /** How many leading points of the output are on level l. */
  ghost function LevelCount(view: seq<Point>, l: bv32, out: seq<nat>): (m: nat)
    requires l <= 16 && Spread(view) && FloorSqrt(|view|) <= INT_MAX
    ensures m <= |out|
  {
    if out == [] || !OnLevel(view, l, out[0]) then 0 else 1 + LevelCount(view, l, out[1..])
  }

  /** On every level the points of that level come first. */
  ghost predicate LevelOfDetail(view: seq<Point>, out: seq<nat>)
    requires Spread(view) && FloorSqrt(|view|) <= INT_MAX
  {
    forall l: bv32, i: nat :: l <= 16 && i < |out| ==> (OnLevel(view, l, out[i]) <==> i < LevelCount(view, l, out))
  }

  lemma LevelsOfOutput(view: seq<Point>, out: seq<nat>)
    requires Spread(view) && FloorSqrt(|view|) <= INT_MAX && OrderedBy(|view|, ReverseBefore(view), out)
    ensures LevelOfDetail(view, out)
  {
    hide OnLevel, ReverseBefore, Spread, FloorSqrt, StablySorted, LevelCount;
    forall l: bv32, i: nat | l <= 16 && i < |out| ensures OnLevel(view, l, out[i]) <==> i < LevelCount(view, l, out) {
      LevelsArePrefixes(view, out, l, i);
    }
  }

  lemma {:induction false} LevelsArePrefixes(view: seq<Point>, out: seq<nat>, l: bv32, i: nat)
    requires l <= 16 && Spread(view) && FloorSqrt(|view|) <= INT_MAX
    requires StablySorted(ReverseBefore(view), (id: nat) => id, out) && i < |out|
    requires forall k :: 0 <= k < |out| ==> out[k] < |view|
    ensures OnLevel(view, l, out[i]) <==> i < LevelCount(view, l, out)
  {
    hide Coarse, ReverseMorton, EncodeMorton, Cell, Spread, FloorSqrt;
    if i > 0 {
      var tail := out[1..];
      assert StablySorted(ReverseBefore(view), (id: nat) => id, tail);
      LevelsArePrefixes(view, tail, l, i - 1);
      assert !ReverseBefore(view)(out[i], out[0]);
      LevelDescends(view, l, out[0], out[i]);
    }
  }

  lemma LevelDescends(view: seq<Point>, l: bv32, p: nat, q: nat)
    requires l <= 16 && Spread(view) && FloorSqrt(|view|) <= INT_MAX && p < |view| && q < |view|
    requires !Less(ReverseCode(view, q), ReverseCode(view, p))
    ensures OnLevel(view, l, q) ==> OnLevel(view, l, p)
  {
    hide Coarse, ReverseMorton, EncodeMorton, Cell, Spread, FloorSqrt;
    CoarseCells(Cell(view, p).0, Cell(view, p).1, l);
    CoarseCells(Cell(view, q).0, Cell(view, q).1, l);
  }
}
