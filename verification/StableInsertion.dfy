/** Insertion at the upper bound of a sorted list. `std::upper_bound` followed by `insert`,
    `std::multimap::insert` and `std::stable_sort` all keep elements that compare equal in their
    order of arrival; the filters that use them share the definitions and lemmas below.
 */
module StableInsertion {

  /** What `std::sort` and the ordered containers ask of a comparator. */
  ghost predicate StrictWeakOrder<T(!new)>(less: (T, T) -> bool) {
    && (forall a, b :: less(a, b) ==> !less(b, a))
    && (forall a, b, c :: !less(a, b) && !less(b, c) ==> !less(a, c))
  }

  ghost predicate Sorted<T>(less: (T, T) -> bool, s: seq<T>) {
    forall i, j :: 0 <= i < j < |s| ==> !less(s[j], s[i])
  }

  /** Sorted, and elements that compare equal are in increasing order of `id`. */
  ghost predicate StablySorted<T>(less: (T, T) -> bool, id: T -> int, s: seq<T>) {
    forall i, j :: 0 <= i < j < |s| ==>
      !less(s[j], s[i]) && (less(s[i], s[j]) || id(s[i]) < id(s[j]))
  }

  ghost predicate Arriving<T>(id: T -> int, s: seq<T>) {
    forall i, j :: 0 <= i < j < |s| ==> id(s[i]) < id(s[j])
  }

  /** The position before the first element that is greater than `x`. */
  function UpperBound<T>(less: (T, T) -> bool, s: seq<T>, x: T): (p: nat)
    ensures p <= |s|
    ensures forall i :: 0 <= i < p ==> !less(x, s[i])
    ensures p < |s| ==> less(x, s[p])
  {
    if s == [] || less(x, s[0]) then 0 else 1 + UpperBound(less, s[1..], x)
  }

  function Insert<T>(less: (T, T) -> bool, s: seq<T>, x: T): (r: seq<T>)
    ensures |r| == |s| + 1
    ensures multiset(r) == multiset(s) + multiset{x}
  {
    var p := UpperBound(less, s, x);
    assert s == s[..p] + s[p..];
    s[..p] + [x] + s[p..]
  }

  /** The list after inserting the elements of `s` one by one, first to last. */
  function InsertAll<T>(less: (T, T) -> bool, s: seq<T>): (r: seq<T>)
    ensures |r| == |s|
    ensures multiset(r) == multiset(s)
  {
    if s == [] then []
    else
      var last := |s| - 1;
      assert s == s[..last] + [s[last]];
      Insert(less, InsertAll(less, s[..last]), s[last])
  }

  lemma InsertAllNext<T>(less: (T, T) -> bool, s: seq<T>, x: T)
    ensures InsertAll(less, s + [x]) == Insert(less, InsertAll(less, s), x)
  {
    assert (s + [x])[..|s|] == s;
  }

  lemma UpperBoundSplits<T(!new)>(less: (T, T) -> bool, s: seq<T>, x: T, i: nat)
    requires StrictWeakOrder(less) && Sorted(less, s)
    requires UpperBound(less, s, x) <= i < |s|
    ensures less(x, s[i])
  {
    var p := UpperBound(less, s, x);
    assert i == p || !less(s[i], s[p]);
  }

  lemma InsertStable<T(!new)>(less: (T, T) -> bool, id: T -> int, s: seq<T>, x: T)
    requires StrictWeakOrder(less) && StablySorted(less, id, s)
    requires forall i :: 0 <= i < |s| ==> id(s[i]) < id(x)
    ensures StablySorted(less, id, Insert(less, s, x))
  {
    var p := UpperBound(less, s, x);
    forall i | p <= i < |s| ensures less(x, s[i]) && !less(s[i], x) {
      UpperBoundSplits(less, s, x, i);
    }
    hide StrictWeakOrder, UpperBound;
    SplitSorted(less, id, s, x, p);
  }

  lemma SplitSorted<T>(less: (T, T) -> bool, id: T -> int, s: seq<T>, x: T, p: nat)
    requires StablySorted(less, id, s) && p <= |s|
    requires forall i :: 0 <= i < p ==> !less(x, s[i]) && id(s[i]) < id(x)
    requires forall i :: p <= i < |s| ==> less(x, s[i]) && !less(s[i], x)
    ensures StablySorted(less, id, s[..p] + [x] + s[p..])
  {
    var r := s[..p] + [x] + s[p..];
    forall i, j | 0 <= i < j < |r| ensures !less(r[j], r[i]) && (less(r[i], r[j]) || id(r[i]) < id(r[j])) {
      assert r[i] == if i < p then s[i] else if i == p then x else s[i - 1];
      assert r[j] == if j < p then s[j] else if j == p then x else s[j - 1];
    }
  }

  /** Inserting elements in order of arrival sorts them stably. */
  lemma {:induction false} InsertAllStable<T(!new)>(less: (T, T) -> bool, id: T -> int, s: seq<T>)
    requires StrictWeakOrder(less) && Arriving(id, s)
    ensures StablySorted(less, id, InsertAll(less, s))
  {
    if s != [] {
      var last := |s| - 1;
      var front := InsertAll(less, s[..last]);
      InsertAllStable(less, id, s[..last]);
      forall i | 0 <= i < |front| ensures id(front[i]) < id(s[last]) {
        assert front[i] in multiset(front);
        assert front[i] in s[..last];
      }
      InsertStable(less, id, front, s[last]);
    }
  }

  /** A stably sorted arrangement of given elements is unique, so it does not matter which
      stable algorithm produced it. */
  lemma {:induction false} StablySortedUnique<T(!new)>(less: (T, T) -> bool, id: T -> int, r: seq<T>, s: seq<T>)
    requires StablySorted(less, id, r) && StablySorted(less, id, s)
    requires multiset(r) == multiset(s)
    ensures r == s
  {
    assert |r| == |multiset(r)| == |multiset(s)| == |s|;
    if r != [] {
      SameHead(less, id, r, s);
      SameTails(r, s);
      assert StablySorted(less, id, r[1..]) && StablySorted(less, id, s[1..]);
      StablySortedUnique(less, id, r[1..], s[1..]);
      assert r == [r[0]] + r[1..] && s == [s[0]] + s[1..];
    }
  }

  lemma SameTails<T>(r: seq<T>, s: seq<T>)
    requires |r| > 0 && |s| > 0 && r[0] == s[0] && multiset(r) == multiset(s)
    ensures multiset(r[1..]) == multiset(s[1..])
  {
    assert r == [r[0]] + r[1..] && s == [s[0]] + s[1..];
    assert multiset(r[1..]) == multiset(r) - multiset{r[0]};
    assert multiset(s[1..]) == multiset(s) - multiset{s[0]};
  }

  lemma SameHead<T(!new)>(less: (T, T) -> bool, id: T -> int, r: seq<T>, s: seq<T>)
    requires StablySorted(less, id, r) && StablySorted(less, id, s)
    requires multiset(r) == multiset(s) && |r| > 0 && |s| > 0
    ensures r[0] == s[0]
  {
    assert r[0] in multiset(r) && s[0] in multiset(s);
    assert r[0] in s && s[0] in r;
    var i :| 0 <= i < |s| && s[i] == r[0];
    var j :| 0 <= j < |r| && r[j] == s[0];
  }
}
