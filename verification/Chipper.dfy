/** `filters.chipper` as it runs: two arrays of point references, one sorted along each axis and
    each element linked to its counterpart, and a spare array into which `Split` distributes the
    narrow one. The three arrays trade places on every level of the recursion.
 */
module Chipper {
  import opened ChipLayout
  import opened ChipperSpec
  import opened Points
  import opened StableInsertion

  /** A coordinate, the point it belongs to, and where the other array holds that point. */
  datatype ChipPtRef = ChipPtRef(pos: real, ptindex: nat, oindex: nat)

  predicate PosLess(a: ChipPtRef, b: ChipPtRef) {
    a.pos < b.pos
  }

  function Ids(s: seq<ChipPtRef>): (r: seq<nat>)
    ensures |r| == |s| && forall i :: 0 <= i < |s| ==> r[i] == s[i].ptindex
  {
    seq(|s|, i requires 0 <= i < |s| => s[i].ptindex)
  }

  /** On [lo, hi) the links of `a` lead into `b`, to the same point, and back. */
  ghost predicate Links(a: seq<ChipPtRef>, b: seq<ChipPtRef>, lo: int, hi: int)
    requires 0 <= lo <= hi <= |a| == |b|
  {
    forall i :: lo <= i < hi ==>
      lo <= a[i].oindex < hi && b[a[i].oindex].oindex == i && b[a[i].oindex].ptindex == a[i].ptindex
  }

  /** On [lo, hi) every position is the point's coordinate on `axis`. */
  ghost predicate Placed(view: seq<Point>, axis: Axis, a: seq<ChipPtRef>, lo: int, hi: int)
    requires 0 <= lo <= hi <= |a|
  {
    forall i :: lo <= i < hi ==> a[i].pos == At(view, axis, a[i].ptindex)
  }

  /** What holds of the two active arrays at every level of the recursion: on [lo, hi) both are
      sorted and list the same points, and their links are mutually inverse. */
  ghost predicate Active(view: seq<Point>, axis: Axis, a: seq<ChipPtRef>, b: seq<ChipPtRef>, lo: int, hi: int)
    ensures Active(view, axis, a, b, lo, hi) ==> 0 <= lo < hi <= |a| == |b|
  {
    && 0 <= lo < hi <= |a| == |b|
    && Links(a, b, lo, hi) && Links(b, a, lo, hi)
    && Placed(view, axis, a, lo, hi) && Placed(view, axis.Other(), b, lo, hi)
    && Distinct(Ids(a[lo..hi])) && Distinct(Ids(b[lo..hi]))
    && Ascending(view, axis, Ids(a[lo..hi])) && Ascending(view, axis.Other(), Ids(b[lo..hi]))
  }

  ghost predicate SameOutside(a: seq<ChipPtRef>, b: seq<ChipPtRef>, lo: int, hi: int)
    ensures SameOutside(a, b, lo, hi) ==> |a| == |b|
    ensures a == b ==> SameOutside(a, b, lo, hi)
  {
    |a| == |b| && forall i :: 0 <= i < |a| && !(lo <= i < hi) ==> a[i] == b[i]
  }

  lemma IdsSlice(s: seq<ChipPtRef>, lo: int, hi: int, m: int, n: int)
    requires 0 <= lo <= m <= n <= hi <= |s|
    ensures Ids(s[lo..hi])[m - lo..n - lo] == Ids(s[m..n])
  {
    var t := Ids(s[lo..hi])[m - lo..n - lo];
    forall k | 0 <= k < n - m ensures t[k] == Ids(s[m..n])[k] {
      assert t[k] == Ids(s[lo..hi])[m - lo + k];
    }
  }

  lemma ActiveBlock(view: seq<Point>, axis: Axis, a: seq<ChipPtRef>, b: seq<ChipPtRef>, parts: seq<int>, l: nat, r: nat)
    requires l < r < |parts| && Increasing(parts)
    requires Active(view, axis, a, b, parts[l], parts[r])
    ensures Block(Ids(a[parts[l]..parts[r]]), Ids(b[parts[l]..parts[r]]), parts, l, r)
  {
    LinkedElems(a, b, parts[l], parts[r]);
    LinkedElems(b, a, parts[l], parts[r]);
  }

  lemma LinkedElems(a: seq<ChipPtRef>, b: seq<ChipPtRef>, lo: int, hi: int)
    requires 0 <= lo <= hi <= |a| == |b| && Links(a, b, lo, hi)
    ensures Elems(Ids(a[lo..hi])) <= Elems(Ids(b[lo..hi]))
  {
    forall x | x in Ids(a[lo..hi]) ensures x in Ids(b[lo..hi]) {
      var k :| 0 <= k < hi - lo && Ids(a[lo..hi])[k] == x;
      var j := a[lo + k].oindex;
      assert Ids(b[lo..hi])[j - lo] == x;
    }
  }

  // ----- one pass of the distribution loop

  /** `Split` has distributed narrow[lo..i) over spare[lo..ls) and spare[c..rs); W and N are the
      wide and narrow arrays before the pass, `wide` and `spare` the arrays now. */
  ghost predicate Distributed(view: seq<Point>, axis: Axis, W: seq<ChipPtRef>, N: seq<ChipPtRef>, wide: seq<ChipPtRef>,
    spare: seq<ChipPtRef>, lo: int, c: int, hi: int, i: int, ls: int, rs: int)
    ensures Distributed(view, axis, W, N, wide, spare, lo, c, hi, i, ls, rs) ==> lo <= ls <= c <= rs <= hi
  {
    && 0 <= lo <= ls <= c <= rs <= hi <= |W| == |N| == |wide| == |spare| && lo <= i <= hi
    && Relinked(W, wide, spare, lo, c, hi, i, ls, rs)
    && Half(view, axis, W, N, wide, spare, lo, hi, lo, c, i, lo, ls)
    && Half(view, axis, W, N, wide, spare, lo, hi, c, hi, i, c, rs)
  }

  /** In `wide` only links have changed, those of the distributed points, and they lead into spare. */
  ghost predicate Relinked(W: seq<ChipPtRef>, wide: seq<ChipPtRef>, spare: seq<ChipPtRef>,
    lo: int, c: int, hi: int, i: int, ls: int, rs: int)
    requires 0 <= lo <= ls <= c <= rs <= hi <= |W| == |wide| == |spare|
  {
    && SameOutside(W, wide, lo, hi)
    && forall j :: lo <= j < hi ==>
      && wide[j].pos == W[j].pos && wide[j].ptindex == W[j].ptindex
      && (W[j].oindex >= i ==> wide[j].oindex == W[j].oindex)
      && (W[j].oindex < i ==>
        && (if j < c then lo <= wide[j].oindex < ls else c <= wide[j].oindex < rs)
        && spare[wide[j].oindex].oindex == j)
  }

  /** spare[from..upto) holds, in their order, the points of narrow[lo..i) that lie in wide[m..n). */
  ghost predicate Half(view: seq<Point>, axis: Axis, W: seq<ChipPtRef>, N: seq<ChipPtRef>, wide: seq<ChipPtRef>,
    spare: seq<ChipPtRef>, lo: int, hi: int, m: int, n: int, i: int, from: int, upto: int)
    requires 0 <= lo <= m <= n <= hi <= |W| == |N| == |wide| == |spare| && lo <= i <= hi
    requires 0 <= from <= upto <= hi
  {
    && Placed(view, axis.Other(), spare, from, upto)
    && LinksBack(W, wide, spare, m, n, i, from, upto)
    && Ids(spare[from..upto]) == Keep(Ids(N[lo..i]), Elems(Ids(W[m..n])))
  }

  ghost predicate LinksBack(W: seq<ChipPtRef>, wide: seq<ChipPtRef>, spare: seq<ChipPtRef>,
    m: int, n: int, i: int, from: int, upto: int)
    requires 0 <= m <= n <= |W| == |wide| && 0 <= from <= upto <= |spare|
  {
    forall k :: from <= k < upto ==>
      && m <= spare[k].oindex < n && W[spare[k].oindex].oindex < i
      && wide[spare[k].oindex].oindex == k && wide[spare[k].oindex].ptindex == spare[k].ptindex
  }

  lemma {:induction false} KeepPrefix(s: seq<nat>, keep: set<nat>, i: nat)
    requires i <= |s|
    ensures |Keep(s[..i], keep)| <= |Keep(s, keep)|
  {
    if i < |s| {
      var last := |s| - 1;
      KeepPrefix(s[..last], keep, i);
      assert s[..last][..i] == s[..i];
    } else {
      assert s[..i] == s;
    }
  }

  /** How far a half has been filled: exactly the kept ids, never past its end. */
  lemma HalfRoom(view: seq<Point>, axis: Axis, W: seq<ChipPtRef>, N: seq<ChipPtRef>, lo: int, m: int, n: int, hi: int,
    i: int)
    requires Active(view, axis, W, N, lo, hi)
    requires lo <= m <= n <= hi && lo <= i <= hi
    ensures |Keep(Ids(N[lo..i]), Elems(Ids(W[m..n])))| <= n - m
    ensures i == hi ==> |Keep(Ids(N[lo..i]), Elems(Ids(W[m..n])))| == n - m
  {
    hide Placed, Ascending, Keep, Distinct, Elems, Ids, Links;
    var keep := Elems(Ids(W[m..n]));
    LinkedElems(W, N, lo, hi);
    IdsSlice(W, lo, hi, m, n);
    SliceElems(Ids(W[lo..hi]), m - lo, n - lo);
    KeepSize(Ids(N[lo..hi]), keep);
    KeepPrefix(Ids(N[lo..hi]), keep, i - lo);
    IdsSlice(N, lo, hi, lo, i);
  }

  /** The branch condition of the loop tests membership in the left half. */
  lemma SideOf(W: seq<ChipPtRef>, N: seq<ChipPtRef>, lo: int, hi: int, m: int, n: int, i: int)
    requires 0 <= lo <= m <= n <= hi <= |W| == |N| && lo <= i < hi
    requires Links(N, W, lo, hi) && Distinct(Ids(W[lo..hi]))
    ensures N[i].ptindex in Elems(Ids(W[m..n])) <==> m <= N[i].oindex < n
  {
    var j := N[i].oindex;
    if m <= j < n {
      assert Ids(W[m..n])[j - m] == N[i].ptindex;
    }
    if N[i].ptindex in Ids(W[m..n]) {
      var k :| 0 <= k < n - m && Ids(W[m..n])[k] == N[i].ptindex;
      assert Ids(W[lo..hi])[m - lo + k] == Ids(W[lo..hi])[j - lo];
    }
  }

  lemma KeepNext(N: seq<ChipPtRef>, lo: int, i: int, keep: set<nat>)
    requires 0 <= lo <= i < |N|
    ensures Keep(Ids(N[lo..i + 1]), keep) ==
            Keep(Ids(N[lo..i]), keep) + if N[i].ptindex in keep then [N[i].ptindex] else []
  {
    hide Keep;
    assert Ids(N[lo..i + 1]) == Ids(N[lo..i]) + [N[i].ptindex];
    KeepPush(Ids(N[lo..i]), N[i].ptindex, keep);
  }

  lemma KeepPush(s: seq<nat>, x: nat, keep: set<nat>)
    ensures Keep(s + [x], keep) == Keep(s, keep) + if x in keep then [x] else []
  {
    assert (s + [x])[..|s|] == s;
  }

  /** The next reference of the narrow array, and the element of the wide one that it links to. */
  ghost predicate Next(view: seq<Point>, axis: Axis, W: seq<ChipPtRef>, N: seq<ChipPtRef>, lo: int, hi: int, i: int,
    j: int) {
    && 0 <= lo <= i < hi <= |W| == |N| && lo <= j < hi
    && N[i].oindex == j && W[j].oindex == i && W[j].ptindex == N[i].ptindex
    && N[i].pos == At(view, axis.Other(), N[i].ptindex)
  }

  lemma LinksBackNext(W: seq<ChipPtRef>, wide: seq<ChipPtRef>, spare: seq<ChipPtRef>,
    m: int, n: int, i: int, from: int, upto: int, j: int, ref: ChipPtRef)
    requires 0 <= m <= n <= |W| == |wide| && 0 <= from <= upto < |spare|
    requires LinksBack(W, wide, spare, m, n, i, from, upto)
    requires m <= j < n && W[j].oindex == i && ref.oindex == j && wide[j].ptindex == ref.ptindex
    ensures LinksBack(W, wide[j := wide[j].(oindex := upto)], spare[upto := ref], m, n, i + 1, from, upto + 1)
  {
  }

  /** The half that receives the next reference. */
  lemma HalfGrows(view: seq<Point>, axis: Axis, W: seq<ChipPtRef>, N: seq<ChipPtRef>, wide: seq<ChipPtRef>,
    spare: seq<ChipPtRef>, lo: int, hi: int, m: int, n: int, i: int, from: int, upto: int, j: int)
    requires Next(view, axis, W, N, lo, hi, i, j)
    requires lo <= m <= n <= hi <= |wide| == |spare| == |W| && 0 <= from <= upto < hi
    requires Half(view, axis, W, N, wide, spare, lo, hi, m, n, i, from, upto)
    requires m <= j < n && wide[j].ptindex == W[j].ptindex && N[i].ptindex in Elems(Ids(W[m..n]))
    ensures Half(view, axis, W, N, wide[j := wide[j].(oindex := upto)], spare[upto := N[i]],
              lo, hi, m, n, i + 1, from, upto + 1)
  {
    hide Placed, LinksBack, Ids, Elems, Keep, At;
    KeepNext(N, lo, i, Elems(Ids(W[m..n])));
    IdsPush(spare, from, upto, N[i]);
    PlacedPush(view, axis.Other(), spare, from, upto, N[i]);
    LinksBackNext(W, wide, spare, m, n, i, from, upto, j, N[i]);
  }

  lemma IdsPush(spare: seq<ChipPtRef>, from: int, upto: int, ref: ChipPtRef)
    requires 0 <= from <= upto < |spare|
    ensures Ids(spare[upto := ref][from..upto + 1]) == Ids(spare[from..upto]) + [ref.ptindex]
  {
    assert spare[upto := ref][from..upto + 1] == spare[from..upto] + [ref];
  }

  lemma PlacedPush(view: seq<Point>, axis: Axis, spare: seq<ChipPtRef>, from: int, upto: int, ref: ChipPtRef)
    requires 0 <= from <= upto < |spare| && Placed(view, axis, spare, from, upto)
      && ref.pos == At(view, axis, ref.ptindex)
    ensures Placed(view, axis, spare[upto := ref], from, upto + 1)
  {
    hide At;
  }

  /** The other half. */
  lemma HalfStays(view: seq<Point>, axis: Axis, W: seq<ChipPtRef>, N: seq<ChipPtRef>, wide: seq<ChipPtRef>,
    spare: seq<ChipPtRef>, lo: int, hi: int, m: int, n: int, i: int, from: int, upto: int, at: int, j: int)
    requires Next(view, axis, W, N, lo, hi, i, j)
    requires lo <= m <= n <= hi <= |wide| == |spare| == |W|
    requires 0 <= from <= upto <= hi && 0 <= at < hi && !(from <= at < upto)
    requires Half(view, axis, W, N, wide, spare, lo, hi, m, n, i, from, upto)
    requires !(m <= j < n) && N[i].ptindex !in Elems(Ids(W[m..n]))
    ensures Half(view, axis, W, N, wide[j := wide[j].(oindex := at)], spare[at := N[i]],
              lo, hi, m, n, i + 1, from, upto)
  {
    hide Placed, LinksBack, Ids, Elems, Keep, At;
    KeepNext(N, lo, i, Elems(Ids(W[m..n])));
    assert spare[at := N[i]][from..upto] == spare[from..upto];
    PlacedElsewhere(view, axis.Other(), spare, from, upto, at, N[i]);
    LinksBackElsewhere(W, wide, spare, m, n, i, from, upto, at, j, N[i]);
  }

  lemma PlacedElsewhere(view: seq<Point>, axis: Axis, spare: seq<ChipPtRef>, from: int, upto: int, at: int,
    ref: ChipPtRef)
    requires 0 <= from <= upto <= |spare| && Placed(view, axis, spare, from, upto)
    requires 0 <= at < |spare| && !(from <= at < upto)
    ensures Placed(view, axis, spare[at := ref], from, upto)
  {
    hide At;
  }

  lemma LinksBackElsewhere(W: seq<ChipPtRef>, wide: seq<ChipPtRef>, spare: seq<ChipPtRef>,
    m: int, n: int, i: int, from: int, upto: int, at: int, j: int, ref: ChipPtRef)
    requires 0 <= m <= n <= |W| == |wide| && 0 <= from <= upto <= |spare|
    requires LinksBack(W, wide, spare, m, n, i, from, upto)
    requires 0 <= at < |spare| && !(from <= at < upto) && 0 <= j < |wide| && !(m <= j < n)
    ensures LinksBack(W, wide[j := wide[j].(oindex := at)], spare[at := ref], m, n, i + 1, from, upto)
  {
  }

  lemma RelinkNext(view: seq<Point>, axis: Axis, W: seq<ChipPtRef>, N: seq<ChipPtRef>, wide: seq<ChipPtRef>,
    spare: seq<ChipPtRef>, lo: int, c: int, hi: int, i: int, ls: int, rs: int, j: int)
    requires Next(view, axis, W, N, lo, hi, i, j) && Links(W, N, lo, hi)
    requires 0 <= lo <= ls <= c <= rs <= hi <= |W| == |wide| == |spare|
    requires Relinked(W, wide, spare, lo, c, hi, i, ls, rs)
    requires if j < c then ls < c else rs < hi
    ensures var at := if j < c then ls else rs;
            Relinked(W, wide[j := wide[j].(oindex := at)], spare[at := N[i]],
              lo, c, hi, i + 1, if j < c then ls + 1 else ls, if j < c then rs else rs + 1)
  {
    forall k | lo <= k < hi && W[k].oindex == i ensures k == j {
      assert N[W[k].oindex].oindex == k;
    }
  }

  /** One iteration of the loop. */
  lemma DistributeNext(view: seq<Point>, axis: Axis, W: seq<ChipPtRef>, N: seq<ChipPtRef>, wide: seq<ChipPtRef>,
    spare: seq<ChipPtRef>, lo: int, c: int, hi: int, i: int, ls: int, rs: int)
    requires Active(view, axis, W, N, lo, hi) && lo <= c <= hi && i < hi
    requires Distributed(view, axis, W, N, wide, spare, lo, c, hi, i, ls, rs)
    ensures var left := N[i].oindex < c;
            var at := if left then ls else rs;
            && lo <= N[i].oindex < hi && at < (if left then c else hi)
            && Distributed(view, axis, W, N, wide[N[i].oindex := wide[N[i].oindex].(oindex := at)], spare[at := N[i]],
                 lo, c, hi, i + 1, if left then ls + 1 else ls, if left then rs else rs + 1)
  {
    var j := N[i].oindex;
    assert Next(view, axis, W, N, lo, hi, i, j);
    SideOf(W, N, lo, hi, lo, c, i);
    SideOf(W, N, lo, hi, c, hi, i);
    if j < c {
      HalfNotFull(view, axis, W, N, lo, lo, c, hi, i);
      assert ls < c by { assert |Ids(spare[lo..ls])| == ls - lo; }
      HalfGrows(view, axis, W, N, wide, spare, lo, hi, lo, c, i, lo, ls, j);
      HalfStays(view, axis, W, N, wide, spare, lo, hi, c, hi, i, c, rs, ls, j);
    } else {
      HalfNotFull(view, axis, W, N, lo, c, hi, hi, i);
      assert rs < hi by { assert |Ids(spare[c..rs])| == rs - c; }
      HalfGrows(view, axis, W, N, wide, spare, lo, hi, c, hi, i, c, rs, j);
      HalfStays(view, axis, W, N, wide, spare, lo, hi, lo, c, i, lo, ls, rs, j);
    }
    RelinkNext(view, axis, W, N, wide, spare, lo, c, hi, i, ls, rs, j);
  }

  lemma HalfNotFull(view: seq<Point>, axis: Axis, W: seq<ChipPtRef>, N: seq<ChipPtRef>, lo: int, m: int, n: int,
    hi: int, i: int)
    requires Active(view, axis, W, N, lo, hi)
    requires lo <= m <= n <= hi && lo <= i < hi
    requires m <= N[i].oindex < n
    ensures |Keep(Ids(N[lo..i]), Elems(Ids(W[m..n])))| < n - m
  {
    hide Placed, Ascending, Keep, Elems, Ids, Links, Distinct;
    SideOf(W, N, lo, hi, m, n, i);
    KeepNext(N, lo, i, Elems(Ids(W[m..n])));
    HalfRoom(view, axis, W, N, lo, m, n, hi, i + 1);
  }

  lemma DistributeStart(view: seq<Point>, axis: Axis, W: seq<ChipPtRef>, N: seq<ChipPtRef>, spare: seq<ChipPtRef>,
    lo: int, c: int, hi: int)
    requires Active(view, axis, W, N, lo, hi) && |spare| == |W| && lo <= c <= hi
    ensures Distributed(view, axis, W, N, W, spare, lo, c, hi, lo, lo, c)
  {
    assert Ids(spare[lo..lo]) == [] == Ids(N[lo..lo]);
    assert Ids(spare[c..c]) == [];
  }

  /** After the pass both halves are full, and on each the wide array and the spare one are active:
      the spare array has been filled in sorted order, without sorting. */
  lemma DistributeDone(view: seq<Point>, axis: Axis, W: seq<ChipPtRef>, N: seq<ChipPtRef>, wide: seq<ChipPtRef>,
    spare: seq<ChipPtRef>, lo: int, c: int, hi: int, ls: int, rs: int)
    requires Active(view, axis, W, N, lo, hi) && lo < c < hi
    requires Distributed(view, axis, W, N, wide, spare, lo, c, hi, hi, ls, rs)
    ensures ls == c && rs == hi && SameOutside(W, wide, lo, hi)
    ensures Active(view, axis, wide, spare, lo, c) && Active(view, axis, wide, spare, c, hi)
    ensures Ids(wide[lo..c]) == Ids(W[lo..hi])[..c - lo] && Ids(wide[c..hi]) == Ids(W[lo..hi])[c - lo..]
    ensures Ids(spare[lo..c]) == Keep(Ids(N[lo..hi]), Elems(Ids(wide[lo..c])))
    ensures Ids(spare[c..hi]) == Keep(Ids(N[lo..hi]), Elems(Ids(wide[c..hi])))
  {
    hide LinksBack, Keep, Elems, Ids, Placed, Distinct, Ascending, SameOutside;
    HalfRoom(view, axis, W, N, lo, lo, c, hi, hi);
    HalfRoom(view, axis, W, N, lo, c, hi, hi, hi);
    assert ls == c by { assert |Ids(spare[lo..ls])| == ls - lo; }
    assert rs == hi by { assert |Ids(spare[c..rs])| == rs - c; }
    HalfActive(view, axis, W, N, wide, spare, lo, hi, lo, c);
    HalfActive(view, axis, W, N, wide, spare, lo, hi, c, hi);
    IdsSlice(W, lo, hi, lo, c);
    IdsSlice(W, lo, hi, c, hi);
    assert Ids(W[lo..hi])[lo - lo..c - lo] == Ids(W[lo..hi])[..c - lo];
    assert Ids(W[lo..hi])[c - lo..hi - lo] == Ids(W[lo..hi])[c - lo..];
  }

  lemma HalfActive(view: seq<Point>, axis: Axis, W: seq<ChipPtRef>, N: seq<ChipPtRef>, wide: seq<ChipPtRef>,
    spare: seq<ChipPtRef>, lo: int, hi: int, m: int, n: int)
    requires Active(view, axis, W, N, lo, hi)
    requires 0 <= lo <= m < n <= hi <= |wide| == |spare| == |W|
    requires Half(view, axis, W, N, wide, spare, lo, hi, m, n, hi, m, n)
    requires forall j :: m <= j < n ==>
      && wide[j].pos == W[j].pos && wide[j].ptindex == W[j].ptindex
      && m <= wide[j].oindex < n && spare[wide[j].oindex].oindex == j
    ensures Active(view, axis, wide, spare, m, n)
    ensures Ids(wide[m..n]) == Ids(W[m..n])
  {
    hide Links, LinksBack, Placed, Ids, Elems, Keep, At, Distinct, Ascending;
    HalfLinks(W, wide, spare, hi, m, n);
    HalfPlaced(view, axis, W, wide, lo, hi, m, n);
    IdsSlice(W, lo, hi, m, n);
    SliceSorted(view, axis, Ids(W[lo..hi]), m - lo, n - lo);
    KeepDistinct(Ids(N[lo..hi]), Elems(Ids(W[m..n])));
    KeepAscending(view, axis.Other(), Ids(N[lo..hi]), Elems(Ids(W[m..n])));
  }

  lemma HalfLinks(W: seq<ChipPtRef>, wide: seq<ChipPtRef>, spare: seq<ChipPtRef>, hi: int, m: int, n: int)
    requires 0 <= m < n <= hi <= |wide| == |spare| == |W| && LinksBack(W, wide, spare, m, n, hi, m, n)
    requires forall j :: m <= j < n ==> m <= wide[j].oindex < n && spare[wide[j].oindex].oindex == j
    ensures Links(wide, spare, m, n) && Links(spare, wide, m, n)
  {
    forall j | m <= j < n ensures spare[wide[j].oindex].ptindex == wide[j].ptindex {
      assert wide[spare[wide[j].oindex].oindex].ptindex == spare[wide[j].oindex].ptindex;
    }
  }

  lemma HalfPlaced(view: seq<Point>, axis: Axis, W: seq<ChipPtRef>, wide: seq<ChipPtRef>, lo: int, hi: int, m: int,
    n: int)
    requires 0 <= lo <= m < n <= hi <= |wide| == |W| && Placed(view, axis, W, lo, hi)
    requires forall j :: m <= j < n ==> wide[j].pos == W[j].pos && wide[j].ptindex == W[j].ptindex
    ensures Placed(view, axis, wide, m, n) && Ids(wide[m..n]) == Ids(W[m..n])
  {
    hide At;
  }

  lemma SliceSorted(view: seq<Point>, axis: Axis, s: seq<nat>, m: int, n: int)
    requires 0 <= m <= n <= |s| && Distinct(s) && Ascending(view, axis, s)
    ensures Distinct(s[m..n]) && Ascending(view, axis, s[m..n])
  {
  }

  /** An active range stays active when only other parts of the arrays change. */
  lemma ActiveElsewhere(view: seq<Point>, axis: Axis, a: seq<ChipPtRef>, b: seq<ChipPtRef>, a': seq<ChipPtRef>,
    b': seq<ChipPtRef>, lo: int, hi: int)
    requires Active(view, axis, a, b, lo, hi)
    requires |a'| == |a| && |b'| == |b| && a'[lo..hi] == a[lo..hi] && b'[lo..hi] == b[lo..hi]
    ensures Active(view, axis, a', b', lo, hi)
  {
    forall i | lo <= i < hi ensures a'[i] == a[i] && b'[i] == b[i] {
      assert a'[lo..hi][i - lo] == a[lo..hi][i - lo] && b'[lo..hi][i - lo] == b[lo..hi][i - lo];
    }
  }

  lemma ActiveSwap(view: seq<Point>, axis: Axis, a: seq<ChipPtRef>, b: seq<ChipPtRef>, lo: int, hi: int)
    requires Active(view, axis, a, b, lo, hi)
    ensures Active(view, axis.Other(), b, a, lo, hi)
  {
  }

  /** The widths that `DecideSplit` compares. */
  lemma ActiveRange(view: seq<Point>, axis: Axis, a: seq<ChipPtRef>, b: seq<ChipPtRef>, lo: int, hi: int)
    requires Active(view, axis, a, b, lo, hi)
    ensures 0 <= lo < hi <= |a| == |b|
    ensures a[hi - 1].pos - a[lo].pos == Range(view, axis, Ids(a[lo..hi]))
    ensures b[hi - 1].pos - b[lo].pos == Range(view, axis.Other(), Ids(b[lo..hi]))
  {
  }

  lemma SameOutsideSlice(a: seq<ChipPtRef>, b: seq<ChipPtRef>, lo: int, hi: int, m: int, n: int)
    requires SameOutside(a, b, lo, hi) && 0 <= m <= n <= |a| && (n <= lo || hi <= m)
    ensures a[m..n] == b[m..n]
  {
  }

  // ----- what `Split` hands to its recursive calls

  /** The right half is as it was when the recursion has worked on the left one. */
  lemma RightHalfStays(view: seq<Point>, axis: Axis, a: seq<ChipPtRef>, b: seq<ChipPtRef>, a': seq<ChipPtRef>,
    b': seq<ChipPtRef>, lo: int, c: int, hi: int)
    requires 0 <= lo <= c < hi <= |a| && Active(view, axis, a, b, c, hi)
    requires SameOutside(a, a', lo, c) && SameOutside(b, b', lo, c)
    ensures Active(view, axis, a', b', c, hi)
    ensures a'[c..hi] == a[c..hi] && b'[c..hi] == b[c..hi]
  {
    hide Active;
    ActiveRange(view, axis, a, b, c, hi);
    SameOutsideSlice(a, a', lo, c, c, hi);
    SameOutsideSlice(b, b', lo, c, c, hi);
    ActiveElsewhere(view, axis, a, b, a', b', c, hi);
  }

  lemma SameOutsideHalves(a: seq<ChipPtRef>, b: seq<ChipPtRef>, c: seq<ChipPtRef>, d: seq<ChipPtRef>, lo: int,
    mid: int, hi: int)
    requires 0 <= lo <= mid <= hi
    requires SameOutside(a, b, lo, hi) && SameOutside(b, c, lo, mid) && SameOutside(c, d, mid, hi)
    ensures SameOutside(a, d, lo, hi)
  {
  }

  lemma CutOne(view: seq<Point>, axis: Axis, wide: seq<nat>, narrow: seq<nat>, parts: seq<int>, l: nat)
    requires Block(wide, narrow, parts, l, l + 1)
    ensures Cut(view, axis, wide, narrow, parts, l, l + 1) == [wide]
  {
  }

  lemma CutTwo(view: seq<Point>, axis: Axis, W: seq<ChipPtRef>, narrow: seq<nat>, parts: seq<int>, l: nat, r: nat)
    requires l + 2 == r < |parts| && Increasing(parts) && 0 <= parts[l] && parts[r] <= |W|
    requires Block(Ids(W[parts[l]..parts[r]]), narrow, parts, l, r)
    ensures parts[l] < parts[l + 1] < parts[r]
    ensures Cut(view, axis, Ids(W[parts[l]..parts[r]]), narrow, parts, l, r) ==
            [Ids(W[parts[l]..parts[l + 1]])] + [Ids(W[parts[l + 1]..parts[r]])]
  {
    var lo, c, hi := parts[l], parts[l + 1], parts[r];
    var wide := Ids(W[lo..hi]);
    IdsSlice(W, lo, hi, lo, c);
    IdsSlice(W, lo, hi, c, hi);
    assert wide[c - lo..] == wide[c - lo..hi - lo] && wide[..c - lo] == wide[lo - lo..c - lo];
  }

  lemma CutMore(view: seq<Point>, axis: Axis, wide: seq<nat>, narrow: seq<nat>, parts: seq<int>, l: nat, r: nat)
    requires Block(wide, narrow, parts, l, r) && r - l > 2
    ensures var m := (l + r) / 2;
            var c := parts[m] - parts[l];
            && 0 < c < |wide|
            && Block(wide[..c], Keep(narrow, Elems(wide[..c])), parts, l, m)
            && Block(wide[c..], Keep(narrow, Elems(wide[c..])), parts, m, r)
            && Cut(view, axis, wide, narrow, parts, l, r) ==
              Chips(view, axis, wide[..c], Keep(narrow, Elems(wide[..c])), parts, l, m)
              + Chips(view, axis, wide[c..], Keep(narrow, Elems(wide[c..])), parts, m, r)
  {
    HalfBlocks(wide, narrow, parts, l, r);
  }

  // ----- loading

  /** References in input order, their links arbitrary. */
  ghost predicate Unsorted(view: seq<Point>, axis: Axis, s: seq<ChipPtRef>) {
    |s| <= |view| && forall i :: 0 <= i < |s| ==> s[i].ptindex == i && s[i].pos == At(view, axis, i)
  }

  /** The contract of `std::stable_sort`; `refs` is the array as it was. */
  ghost predicate StableSortOf(refs: seq<ChipPtRef>, s: seq<ChipPtRef>) {
    multiset(s) == multiset(refs) && StablySorted(PosLess, (r: ChipPtRef) => r.ptindex, s)
  }

  /** `std::stable_sort` of references in input order. */
  method StableSort(a: array<ChipPtRef>, ghost axis: Axis, ghost view: seq<Point>)
    requires Unsorted(view, axis, a[..])
    modifies a
    ensures StableSortOf(old(a[..]), a[..])
  {
    hide Unsorted, StableSortOf, InsertAll, PosLess;
    var s := InsertAll(PosLess, a[..]);
    RefsSorted(view, axis, a[..]);
    var i := 0;
    while i < a.Length
      invariant 0 <= i <= a.Length && a[..i] == s[..i]
    {
      a[i] := s[i];
      i := i + 1;
    }
    assert a[..] == a[..a.Length] == s[..a.Length] == s;
  }

  lemma RefsSorted(view: seq<Point>, axis: Axis, refs: seq<ChipPtRef>)
    requires Unsorted(view, axis, refs)
    ensures |InsertAll(PosLess, refs)| == |refs| && StableSortOf(refs, InsertAll(PosLess, refs))
  {
    hide StablySorted, InsertAll, At;
    InsertAllStable(PosLess, (r: ChipPtRef) => r.ptindex, refs);
    var s := InsertAll(PosLess, refs);
    assert |s| == |multiset(s)| == |refs|;
  }

  lemma SortedRefs(view: seq<Point>, axis: Axis, refs: seq<ChipPtRef>, s: seq<ChipPtRef>)
    requires Unsorted(view, axis, refs) && |refs| == |view| && StableSortOf(refs, s)
    ensures |s| == |view| && Distinct(Ids(s)) && Ids(s) == SortedIds(view, axis)
    ensures forall i :: 0 <= i < |s| ==> s[i].ptindex < |view| && s[i] == refs[s[i].ptindex]
    ensures forall p :: 0 <= p < |view| ==> p in Ids(s)
    ensures Placed(view, axis, s, 0, |s|) && Ascending(view, axis, Ids(s))
  {
    hide *;
    RefsOrigin(view, axis, refs, s);
    SortedIdsCorrect(view, axis);
    IdsOfAll(view, s);
    IdsSorted(view, axis, refs, s);
    SameElements(Ids(s), SortedIds(view, axis));
    CoordOrder(view, axis);
    StablySortedUnique(CoordLess(view, axis), (id: nat) => id, Ids(s), SortedIds(view, axis));
  }

  /** A permutation of the references holds every point once, as it was read. */
  lemma RefsOrigin(view: seq<Point>, axis: Axis, refs: seq<ChipPtRef>, s: seq<ChipPtRef>)
    requires Unsorted(view, axis, refs) && |refs| == |view| && StableSortOf(refs, s)
    ensures |s| == |view|
    ensures forall i :: 0 <= i < |s| ==> s[i].ptindex < |view| && s[i] == refs[s[i].ptindex]
    ensures forall p :: 0 <= p < |view| ==> p in Ids(s)
    ensures Placed(view, axis, s, 0, |s|)
  {
    hide StablySorted, At;
    assert |s| == |multiset(s)| == |refs|;
    forall i | 0 <= i < |s| ensures s[i].ptindex < |view| && s[i] == refs[s[i].ptindex] {
      assert s[i] in multiset(s);
      assert s[i] in refs;
    }
    forall p | 0 <= p < |view| ensures p in Ids(s) {
      assert refs[p] in multiset(refs);
      assert refs[p] in s;
      var i :| 0 <= i < |s| && s[i] == refs[p];
      assert Ids(s)[i] == p;
    }
  }

  lemma IdsOfAll(view: seq<Point>, s: seq<ChipPtRef>)
    requires forall i :: 0 <= i < |s| ==> s[i].ptindex < |view|
    requires forall p :: 0 <= p < |view| ==> p in Ids(s)
    ensures Elems(Ids(s)) == Elems(Iota(|view|))
  {
    hide Ids;
    forall x ensures x in Ids(s) <==> x in Iota(|view|) {
      if x in Ids(s) {
        assert Iota(|view|)[x] == x;
      }
    }
  }

  /** References sorted stably by position list ids sorted stably by coordinate. */
  lemma IdsSorted(view: seq<Point>, axis: Axis, refs: seq<ChipPtRef>, s: seq<ChipPtRef>)
    requires StableSortOf(refs, s) && Placed(view, axis, s, 0, |s|)
    requires forall i :: 0 <= i < |s| ==> s[i].ptindex < |view|
    ensures StablySorted(CoordLess(view, axis), (id: nat) => id, Ids(s))
    ensures Distinct(Ids(s)) && Ascending(view, axis, Ids(s))
  {
    hide At;
    forall i, j | 0 <= i < j < |s|
      ensures s[i].ptindex != s[j].ptindex && At(view, axis, s[i].ptindex) <= At(view, axis, s[j].ptindex)
      ensures At(view, axis, s[i].ptindex) < At(view, axis, s[j].ptindex) || s[i].ptindex < s[j].ptindex
    {
      assert !PosLess(s[j], s[i]) && (PosLess(s[i], s[j]) || s[i].ptindex < s[j].ptindex);
    }
  }

  lemma CoordOrder(view: seq<Point>, axis: Axis)
    ensures StrictWeakOrder(CoordLess(view, axis))
  {
    hide At;
  }

  /** What the first pass leaves: the reference to a point in the Y array knows its place in the X array. */
  ghost predicate PointsInto(X: seq<ChipPtRef>, Y: seq<ChipPtRef>) {
    |X| == |Y| && forall i :: 0 <= i < |Y| ==> Y[i].oindex < |X| && X[Y[i].oindex].ptindex == Y[i].ptindex
  }

  lemma SortedPointsInto(view: seq<Point>, axis: Axis, X: seq<ChipPtRef>, refs: seq<ChipPtRef>, Y: seq<ChipPtRef>)
    requires Unsorted(view, axis, refs) && |refs| == |view| == |X| && StableSortOf(refs, Y)
    requires forall k :: 0 <= k < |X| ==> X[k].ptindex < |refs| && refs[X[k].ptindex].oindex == k
    requires forall p :: 0 <= p < |view| ==> p in Ids(X)
    ensures PointsInto(X, Y)
  {
    SortedRefs(view, axis, refs, Y);
    forall i | 0 <= i < |Y| ensures Y[i].oindex < |X| && X[Y[i].oindex].ptindex == Y[i].ptindex {
      assert Y[i].ptindex in Ids(X);
      var k :| 0 <= k < |X| && Ids(X)[k] == Y[i].ptindex;
      assert X[k].ptindex == Y[i].ptindex;
    }
  }

  /** After the last pass the links are mutually inverse. */
  lemma Linked(X: seq<ChipPtRef>, Y: seq<ChipPtRef>)
    requires PointsInto(X, Y) && Distinct(Ids(X)) && Distinct(Ids(Y))
    requires forall k :: 0 <= k < |X| ==> X[k].ptindex in Ids(Y)
    requires forall k :: 0 <= k < |Y| ==> X[Y[k].oindex].oindex == k
    ensures Links(X, Y, 0, |X|) && Links(Y, X, 0, |X|)
  {
    forall i | 0 <= i < |X|
      ensures X[i].oindex < |X| && Y[X[i].oindex].oindex == i && Y[X[i].oindex].ptindex == X[i].ptindex
    {
      var k :| 0 <= k < |Y| && Ids(Y)[k] == X[i].ptindex;
      assert Ids(X)[Y[k].oindex] == Ids(X)[i];
    }
  }

  lemma LoadActive(view: seq<Point>, X: seq<ChipPtRef>, X': seq<ChipPtRef>, Y: seq<ChipPtRef>)
    requires |X| == |X'| == |Y| == |view| > 0
    requires forall k :: 0 <= k < |X| ==> X'[k] == X[k].(oindex := X'[k].oindex)
    requires PointsInto(X', Y) && Distinct(Ids(X)) && Distinct(Ids(Y))
    requires forall k :: 0 <= k < |Y| ==> X'[Y[k].oindex].oindex == k
    requires forall p :: 0 <= p < |view| ==> p in Ids(Y)
    requires forall k :: 0 <= k < |X| ==> X[k].ptindex < |view|
    requires Placed(view, XAxis, X, 0, |X|) && Placed(view, YAxis, Y, 0, |Y|)
    requires Ascending(view, XAxis, Ids(X)) && Ascending(view, YAxis, Ids(Y))
    ensures Active(view, XAxis, X', Y, 0, |view|) && Ids(X') == Ids(X)
  {
    assert Ids(X') == Ids(X);
    Linked(X', Y);
    assert X'[0..|view|] == X' && Y[0..|view|] == Y;
  }

  class ChipperFilter {
    const threshold: nat
    var view: seq<Point>
    var partitions: seq<int>
    var outViews: seq<seq<nat>>

    constructor (capacity: nat)
      ensures threshold == capacity
    {
      threshold := capacity;
      view, partitions, outViews := [], [], [];
    }

    /** The filter turns a view into the chips of the plain account: every point has one place, the points are
        shared out evenly, and every block is halved across its wider extent. */
    method Run(input: seq<Point>)
      requires |input| > 0 && threshold > 0
      modifies this
      ensures view == input && partitions == Boundaries(|input|, threshold)
      ensures outViews == ChipView(input, threshold)
      ensures EachOnce(input, outViews) && Shared(input, threshold, outViews) && LaidOut(input, outViews, true)
    {
      hide Active, Block, Ids, Chips, Boundaries, SortedIds, Increasing, EachOnce, Shared, LaidOut;
      view, partitions, outViews := input, [], [];
      var blank := ChipPtRef(0.0, 0, 0);
      var xvec := new ChipPtRef[|view|](_ => blank);
      var yvec := new ChipPtRef[|view|](_ => blank);
      var spare := new ChipPtRef[|view|](_ => blank);
      Load(xvec, yvec);
      Partition(|view|);
      WholeBlock(view, threshold);
      BoundariesEnds(|view|, threshold);
      BoundariesIncreasing(|view|, threshold);
      assert xvec[..][0..|view|] == xvec[..] && yvec[..][0..|view|] == yvec[..];
      DecideSplit(xvec, yvec, spare, 0, |partitions| - 1, XAxis);
      ChipViewMeaning(view, threshold);
    }

    /** Read the coordinates, sort both arrays and link each element to its counterpart. */
    method Load(xvec: array<ChipPtRef>, yvec: array<ChipPtRef>)
      requires xvec != yvec && xvec.Length == yvec.Length == |view| > 0
      modifies xvec, yvec
      ensures Active(view, XAxis, xvec[..], yvec[..], 0, |view|)
      ensures Ids(xvec[..]) == SortedIds(view, XAxis) && Ids(yvec[..]) == SortedIds(view, YAxis)
    {
      hide Active, Ids, SortedIds, Placed, StableSortOf, PointsInto, Distinct, Ascending;
      var n := |view|;
      var i := 0;
      while i < n
        invariant 0 <= i <= n
        invariant Unsorted(view, XAxis, xvec[..i]) && Unsorted(view, YAxis, yvec[..i])
      {
        xvec[i] := ChipPtRef(view[i].x, i, 0);
        yvec[i] := ChipPtRef(view[i].y, i, 0);
        i := i + 1;
      }
      assert xvec[..n] == xvec[..] && yvec[..n] == yvec[..];
      ghost var unsorted := xvec[..];
      StableSort(xvec, XAxis, view);
      ghost var X := xvec[..];
      SortedRefs(view, XAxis, unsorted, X);
      LinkForth(xvec, yvec);
      unsorted := yvec[..];
      StableSort(yvec, YAxis, view);
      ghost var Y := yvec[..];
      SortedRefs(view, YAxis, unsorted, Y);
      SortedPointsInto(view, YAxis, X, unsorted, Y);
      LinkBack(xvec, yvec);
      LoadActive(view, X, xvec[..], Y);
    }

    /** The second loop of `load`: tell every Y reference where the X array holds its point. */
    method LinkForth(xvec: array<ChipPtRef>, yvec: array<ChipPtRef>)
      requires xvec != yvec && xvec.Length == yvec.Length == |view|
      requires Unsorted(view, YAxis, yvec[..]) && Distinct(Ids(xvec[..]))
      requires forall k :: 0 <= k < xvec.Length ==> xvec[k].ptindex < |view|
      modifies yvec
      ensures Unsorted(view, YAxis, yvec[..])
      ensures forall k :: 0 <= k < xvec.Length ==> yvec[..][xvec[k].ptindex].oindex == k
    {
      ghost var X := xvec[..];
      var i := 0;
      while i < xvec.Length
        invariant 0 <= i <= xvec.Length
        invariant xvec[..] == X
        invariant Unsorted(view, YAxis, yvec[..])
        invariant forall k :: 0 <= k < i ==> yvec[..][X[k].ptindex].oindex == k
      {
        var idx := xvec[i].ptindex;
        assert idx == X[i].ptindex;
        assert forall k :: 0 <= k < i ==> Ids(X)[k] != Ids(X)[i];
        ghost var refs := yvec[..];
        yvec[idx] := yvec[idx].(oindex := i);
        assert yvec[..] == refs[idx := refs[idx].(oindex := i)];
        i := i + 1;
      }
    }

    /** The last loop of `load`: set the links of the X array from those of the Y array. */
    method LinkBack(xvec: array<ChipPtRef>, yvec: array<ChipPtRef>)
      requires xvec != yvec && PointsInto(xvec[..], yvec[..]) && Distinct(Ids(yvec[..]))
      modifies xvec
      ensures forall k :: 0 <= k < xvec.Length ==> xvec[k] == old(xvec[k]).(oindex := xvec[k].oindex)
      ensures PointsInto(xvec[..], yvec[..])
      ensures forall k :: 0 <= k < yvec.Length ==> xvec[..][yvec[k].oindex].oindex == k
    {
      ghost var X, Y := xvec[..], yvec[..];
      var i := 0;
      while i < yvec.Length
        invariant 0 <= i <= yvec.Length
        invariant yvec[..] == Y
        invariant forall k :: 0 <= k < xvec.Length ==> xvec[k] == X[k].(oindex := xvec[k].oindex)
        invariant PointsInto(xvec[..], Y)
        invariant forall k :: 0 <= k < i ==> xvec[..][Y[k].oindex].oindex == k
      {
        var j := yvec[i].oindex;
        assert j == Y[i].oindex;
        assert forall k :: 0 <= k < i ==> Ids(Y)[k] != Ids(Y)[i];
        ghost var x := xvec[..];
        xvec[j] := xvec[j].(oindex := i);
        assert xvec[..] == x[j := x[j].(oindex := i)];
        i := i + 1;
      }
    }

    method Partition(size: nat)
      requires size > 0 && threshold > 0 && partitions == []
      modifies this`partitions
      ensures partitions == Boundaries(size, threshold)
    {
      var numPartitions := size / threshold;
      if size % threshold != 0 {
        numPartitions := numPartitions + 1;
      }
      CeilPositive(size, threshold);
      var total := 0.0;
      var partitionSize := size as real / numPartitions as real;
      assert numPartitions == Ceil(size, threshold);
      hide Ceil, Boundary, Round;
      partitions := partitions + [0];
      BoundaryTotal(size, numPartitions, 0, total);
      var i := 0;
      while i < numPartitions
        invariant 0 <= i <= numPartitions == Ceil(size, threshold)
        invariant IsTotal(total, i, partitionSize)
        invariant |partitions| == i + 1
        invariant forall k :: 0 <= k <= i ==> partitions[k] == Boundary(size, numPartitions, k)
      {
        hide IsTotal;
        TotalNext(total, i, partitionSize);
        BoundaryTotal(size, numPartitions, i + 1, total + partitionSize);
        total := total + partitionSize;
        var itotal := Round(total);
        partitions := partitions + [itotal];
        i := i + 1;
      }
    }

    method DecideSplit(v1: array<ChipPtRef>, v2: array<ChipPtRef>, spare: array<ChipPtRef>,
      pleft: nat, pright: nat, ghost axis: Axis)
      requires v1 != v2 && v1 != spare && v2 != spare && v1.Length == v2.Length == spare.Length
      requires pleft < pright < |partitions| && Increasing(partitions)
      requires Active(view, axis, v1[..], v2[..], partitions[pleft], partitions[pright])
      modifies this`outViews, v1, v2, spare
      ensures SameOutside(old(v1[..]), v1[..], partitions[pleft], partitions[pright])
      ensures SameOutside(old(v2[..]), v2[..], partitions[pleft], partitions[pright])
      ensures SameOutside(old(spare[..]), spare[..], partitions[pleft], partitions[pright])
      ensures Block(Ids(old(v1[..])[partitions[pleft]..partitions[pright]]),
                Ids(old(v2[..])[partitions[pleft]..partitions[pright]]), partitions, pleft, pright)
      ensures outViews == old(outViews)
        + Chips(view, axis, Ids(old(v1[..])[partitions[pleft]..partitions[pright]]),
            Ids(old(v2[..])[partitions[pleft]..partitions[pright]]), partitions, pleft, pright)
      decreases pright - pleft, 1
    {
      hide Active, Block, Ids, SameOutside, Cut, Increasing, At;
      var left := partitions[pleft];
      var right := partitions[pright] - 1;
      ActiveBlock(view, axis, v1[..], v2[..], partitions, pleft, pright);
      ActiveRange(view, axis, v1[..], v2[..], left, right + 1);
      var v1range := v1[right].pos - v1[left].pos;
      var v2range := v2[right].pos - v2[left].pos;
      if v1range > v2range {
        Split(v1, v2, spare, pleft, pright, axis);
      } else {
        ActiveSwap(view, axis, v1[..], v2[..], left, right + 1);
        Split(v2, v1, spare, pleft, pright, axis.Other());
      }
    }

    method Split(wide: array<ChipPtRef>, narrow: array<ChipPtRef>, spare: array<ChipPtRef>,
      pleft: nat, pright: nat, ghost axis: Axis)
      requires wide != narrow && wide != spare && narrow != spare && wide.Length == narrow.Length == spare.Length
      requires pleft < pright < |partitions| && Increasing(partitions)
      requires Active(view, axis, wide[..], narrow[..], partitions[pleft], partitions[pright])
      modifies this`outViews, wide, narrow, spare
      ensures SameOutside(old(wide[..]), wide[..], partitions[pleft], partitions[pright])
      ensures SameOutside(old(narrow[..]), narrow[..], partitions[pleft], partitions[pright])
      ensures SameOutside(old(spare[..]), spare[..], partitions[pleft], partitions[pright])
      ensures Block(Ids(old(wide[..])[partitions[pleft]..partitions[pright]]),
                Ids(old(narrow[..])[partitions[pleft]..partitions[pright]]), partitions, pleft, pright)
      ensures outViews == old(outViews)
        + Cut(view, axis, Ids(old(wide[..])[partitions[pleft]..partitions[pright]]),
            Ids(old(narrow[..])[partitions[pleft]..partitions[pright]]), partitions, pleft, pright)
      decreases pright - pleft, 0, 1
    {
      hide *;
      var left := partitions[pleft];
      var right := partitions[pright] - 1;
      ghost var W, N := wide[..], narrow[..];
      ActiveBlock(view, axis, W, N, partitions, pleft, pright);
      if pright - pleft == 1 {
        CutOne(view, axis, Ids(W[left..right + 1]), Ids(N[left..right + 1]), partitions, pleft);
        Emit(wide, left, right);
      } else if pright - pleft == 2 {
        var center := partitions[pright - 1];
        CutTwo(view, axis, W, Ids(N[left..right + 1]), partitions, pleft, pright);
        Emit(wide, left, center - 1);
        Emit(wide, center, right);
        assert wide[..] == W;
      } else {
        SplitHalves(wide, narrow, spare, pleft, pright, axis);
      }
    }

    /** The last branch of `split`: more than two parts. */
    method SplitHalves(wide: array<ChipPtRef>, narrow: array<ChipPtRef>, spare: array<ChipPtRef>,
      pleft: nat, pright: nat, ghost axis: Axis)
      requires wide != narrow && wide != spare && narrow != spare && wide.Length == narrow.Length == spare.Length
      requires pleft + 2 < pright < |partitions| && Increasing(partitions)
      requires Active(view, axis, wide[..], narrow[..], partitions[pleft], partitions[pright])
      modifies this`outViews, wide, narrow, spare
      ensures SameOutside(old(wide[..]), wide[..], partitions[pleft], partitions[pright])
      ensures SameOutside(old(narrow[..]), narrow[..], partitions[pleft], partitions[pright])
      ensures SameOutside(old(spare[..]), spare[..], partitions[pleft], partitions[pright])
      ensures Block(Ids(old(wide[..])[partitions[pleft]..partitions[pright]]),
                Ids(old(narrow[..])[partitions[pleft]..partitions[pright]]), partitions, pleft, pright)
      ensures outViews == old(outViews)
        + Cut(view, axis, Ids(old(wide[..])[partitions[pleft]..partitions[pright]]),
            Ids(old(narrow[..])[partitions[pleft]..partitions[pright]]), partitions, pleft, pright)
      decreases pright - pleft, 0, 0
    {
      hide *;
      var left := partitions[pleft];
      var right := partitions[pright] - 1;
      ghost var W, N, S := wide[..], narrow[..], spare[..];
      var pcenter := (pleft + pright) / 2;
      var center := partitions[pcenter];
      ActiveBlock(view, axis, W, N, partitions, pleft, pright);
      CutMore(view, axis, Ids(W[left..right + 1]), Ids(N[left..right + 1]), partitions, pleft, pright);
      Distribute(wide, narrow, spare, left, center, right, axis);
      ghost var W1, S1 := wide[..], spare[..];
      DecideSplit(wide, spare, narrow, pleft, pcenter, axis);
      ghost var W2, N2, S2 := wide[..], narrow[..], spare[..];
      RightHalfStays(view, axis, W1, S1, W2, S2, left, center, right + 1);
      DecideSplit(wide, spare, narrow, pcenter, pright, axis);
      SameOutsideHalves(W, W1, W2, wide[..], left, center, right + 1);
      SameOutsideHalves(S, S1, S2, spare[..], left, center, right + 1);
      SameOutsideHalves(N, N, N2, narrow[..], left, center, right + 1);
    }

    /** The loop of `split`: distribute the narrow array over the two halves of the spare one. */
    method Distribute(wide: array<ChipPtRef>, narrow: array<ChipPtRef>, spare: array<ChipPtRef>,
      left: nat, center: nat, right: nat, ghost axis: Axis)
      requires wide != narrow && wide != spare && narrow != spare && wide.Length == narrow.Length == spare.Length
      requires Active(view, axis, wide[..], narrow[..], left, right + 1) && left < center <= right
      modifies wide, spare
      ensures SameOutside(old(wide[..]), wide[..], left, right + 1)
      ensures SameOutside(old(spare[..]), spare[..], left, right + 1)
      ensures Active(view, axis, wide[..], spare[..], left, center)
      ensures Active(view, axis, wide[..], spare[..], center, right + 1)
      ensures var ids := Ids(old(wide[..])[left..right + 1]);
              Ids(wide[..][left..center]) == ids[..center - left]
                && Ids(wide[..][center..right + 1]) == ids[center - left..]
      ensures var ids := Ids(narrow[..][left..right + 1]);
              && Ids(spare[..][left..center]) == Keep(ids, Elems(Ids(wide[..][left..center])))
              && Ids(spare[..][center..right + 1]) == Keep(ids, Elems(Ids(wide[..][center..right + 1])))
    {
      hide Active, Distributed, Ids, Keep, Elems;
      ghost var W, N, S := wide[..], narrow[..], spare[..];
      DistributeStart(view, axis, W, N, S, left, center, right + 1);
      var lstart, rstart := left, center;
      var i := left;
      while i <= right
        invariant left <= i <= right + 1
        invariant narrow[..] == N
        invariant Distributed(view, axis, W, N, wide[..], spare[..], left, center, right + 1, i, lstart, rstart)
        invariant SameOutside(S, spare[..], left, right + 1)
      {
        DistributeNext(view, axis, W, N, wide[..], spare[..], left, center, right + 1, i, lstart, rstart);
        var j := narrow[i].oindex;
        assert j == N[i].oindex;
        if narrow[i].oindex < center {
          ghost var w, s := wide[..], spare[..];
          spare[lstart] := narrow[i];
          wide[j] := wide[j].(oindex := lstart);
          assert wide[..] == w[j := w[j].(oindex := lstart)] && spare[..] == s[lstart := N[i]];
          lstart := lstart + 1;
        } else {
          ghost var w, s := wide[..], spare[..];
          spare[rstart] := narrow[i];
          wide[j] := wide[j].(oindex := rstart);
          assert wide[..] == w[j := w[j].(oindex := rstart)] && spare[..] == s[rstart := N[i]];
          rstart := rstart + 1;
        }
        i := i + 1;
      }
      DistributeDone(view, axis, W, N, wide[..], spare[..], left, center, right + 1, lstart, rstart);
    }

    method Emit(wide: array<ChipPtRef>, widemin: nat, widemax: int)
      requires widemin <= widemax + 1 <= wide.Length
      modifies this`outViews
      ensures outViews == old(outViews) + [Ids(wide[..][widemin..widemax + 1])]
    {
      var chip: seq<nat> := [];
      var idx := widemin;
      while idx <= widemax
        invariant widemin <= idx <= widemax + 1
        invariant chip == Ids(wide[..][widemin..idx])
      {
        chip := chip + [wide[idx].ptindex];
        idx := idx + 1;
      }
      outViews := outViews + [chip];
    }
  }
}
