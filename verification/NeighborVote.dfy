/** Majority votes among the classes of a point's neighbours: the ordered-map tally of
    `filters.neighborclassifier`, the allocation-free array tally of the benchmark, and the filter
    that applies the votes of all points at once.
 */
module NeighborVote {

  // ----- the vote

  function Count(classes: seq<int>, c: int): nat {
    multiset(classes)[c]
  }

  /** The count is that of the positions that hold the class. */
  lemma {:induction false} CountPositions(classes: seq<int>, c: int)
    ensures Count(classes, c) == |set i: nat | i < |classes| && classes[i] == c|
  {
    var at := set i: nat | i < |classes| && classes[i] == c;
    if classes == [] {
      assert at == {};
    } else {
      var last := |classes| - 1;
      var front := classes[..last];
      var before := set i: nat | i < |front| && front[i] == c;
      CountPositions(front, c);
      assert classes == front + [classes[last]];
      assert at == if classes[last] == c then before + {last} else before;
    }
  }

  /** No class occurs more often than w, and none smaller than w as often. */
  ghost predicate IsWinner(classes: seq<int>, w: int) {
    && w in classes
    && forall c :: c in classes ==>
      && Count(classes, c) <= Count(classes, w)
      && (c < w ==> Count(classes, c) < Count(classes, w))
  }

  lemma WinnerUnique(classes: seq<int>, v: int, w: int)
    requires IsWinner(classes, v) && IsWinner(classes, w)
    ensures v == w
  {
  }

  /** The winner is the least of the classes that the most positions hold. */
  lemma WinnerMeaning(classes: seq<int>, w: int)
    requires IsWinner(classes, w)
    ensures exists i :: 0 <= i < |classes| && classes[i] == w
    ensures forall j :: 0 <= j < |classes| ==>
      var votes := |set i: nat | i < |classes| && classes[i] == w|;
      var others := |set i: nat | i < |classes| && classes[i] == classes[j]|;
      others < votes || (others == votes && w <= classes[j])
  {
    CountPositions(classes, w);
    forall j | 0 <= j < |classes|
      ensures var votes := |set i: nat | i < |classes| && classes[i] == w|;
              var others := |set i: nat | i < |classes| && classes[i] == classes[j]|;
              others < votes || (others == votes && w <= classes[j])
    {
      CountPositions(classes, classes[j]);
      assert classes[j] in classes;
    }
  }

  /** The class changes if the winner differs from the old one and has more than half of the votes. */
  ghost predicate Decides(classes: seq<int>, oldClass: int, w: int) {
    2 * Count(classes, w) > |classes| && oldClass != w
  }

  lemma CountAll(classes: seq<int>, v: int, w: int)
    requires v != w
    ensures Count(classes, v) + Count(classes, w) <= |classes|
  {
    var m := multiset(classes);
    assert |m[v := 0][w := 0]| == |m| - m[v] - m[w];
  }

  lemma CountPositive(classes: seq<int>, c: int)
    ensures c in classes <==> Count(classes, c) > 0
  {
    assert c in classes <==> c in multiset(classes);
  }

  /** A class with a strict majority is the winner, so there is only one. */
  lemma MajorityWins(classes: seq<int>, v: int, w: int)
    requires IsWinner(classes, w) && 2 * Count(classes, v) > |classes|
    ensures v == w
  {
    if v != w {
      CountPositive(classes, v);
      CountAll(classes, v, w);
    }
  }

  lemma MajorityIsWinner(classes: seq<int>, w: int)
    requires 2 * Count(classes, w) > |classes|
    ensures IsWinner(classes, w)
  {
    CountPositive(classes, w);
    forall c | c in classes && c != w ensures Count(classes, c) < Count(classes, w) {
      CountAll(classes, c, w);
    }
  }

  // ----- the ordered map

  /** `counts[class]++` for every neighbour. */
  method TallyMap(classes: seq<int>) returns (counts: map<int, nat>)
    ensures forall c :: c in counts <==> c in classes
    ensures forall c :: c in counts ==> counts[c] == Count(classes, c)
  {
    counts := map[];
    var j := 0;
    while j < |classes|
      invariant 0 <= j <= |classes|
      invariant forall c :: c in counts <==> c in classes[..j]
      invariant forall c :: c in counts ==> counts[c] == Count(classes[..j], c)
    {
      var c := classes[j];
      assert classes[..j + 1] == classes[..j] + [c];
      assert c !in classes[..j] ==> multiset(classes[..j])[c] == 0;
      counts := counts[c := (if c in counts then counts[c] else 0) + 1];
      j := j + 1;
    }
    assert classes[..j] == classes;
  }

  /** `std::max_element` over the map in ascending key order: the first entry with the most votes. */
  method MaxElement(counts: map<int, nat>) returns (key: int)
    requires counts != map[]
    ensures key in counts
    ensures forall c :: c in counts ==> counts[c] <= counts[key] && (c < key ==> counts[c] < counts[key])
  {
    var rest := counts.Keys;
    assert rest != {} by {
      var c :| c in counts;
      assert c in rest;
    }
    key := LeastKey(rest);
    rest := rest - {key};
    while rest != {}
      invariant key in counts && rest <= counts.Keys && key !in rest
      invariant forall c, d :: c in counts && c !in rest && d in rest ==> c < d
      invariant forall c :: c in counts && c !in rest ==>
        && counts[c] <= counts[key]
        && (c < key ==> counts[c] < counts[key])
      decreases rest
    {
      var next := LeastKey(rest);
      if counts[key] < counts[next] {
        key := next;
      }
      rest := rest - {next};
    }
  }

  lemma SomeKey(keys: set<int>)
    requires keys != {}
    ensures exists k :: k in keys
  {
    assert (forall k :: k !in keys) ==> keys == {};
  }

  /** The next key in ascending order. */
  method LeastKey(keys: set<int>) returns (k: int)
    requires keys != {}
    ensures k in keys && forall c :: c in keys ==> k <= c
  {
    SomeKey(keys);
    k :| k in keys;
    var rest := keys - {k};
    while rest != {}
      invariant k in keys && rest <= keys && forall c :: c in keys && c !in rest ==> k <= c
      decreases rest
    {
      SomeKey(rest);
      var c :| c in rest;
      if c < k {
        k := c;
      }
      rest := rest - {c};
    }
  }

  method MapVote(classes: seq<int>, oldClass: int) returns (decision: bool, newClass: int)
    requires classes != []
    ensures IsWinner(classes, newClass)
    ensures decision <==> Decides(classes, oldClass, newClass)
  {
    var counts := TallyMap(classes);
    var c := classes[0];
    assert c in counts by { assert c in classes; }
    newClass := MaxElement(counts);
    var thresh := |classes| as real / 2.0;
    decision := counts[newClass] as real > thresh && oldClass != newClass;
  }

  // ----- the arrays

  const MAX_KEYS := 64

  /** keys[..distinct] are the classes seen, in ascending order, and votes their counts. */
  ghost predicate Tallied(seen: seq<int>, keys: seq<int>, votes: seq<nat>, distinct: int) {
    && 0 <= distinct <= |keys| == |votes| && distinct <= |seen|
    && (forall p, q :: 0 <= p < q < distinct ==> keys[p] < keys[q])
    && (forall p :: 0 <= p < distinct ==> votes[p] == Count(seen, keys[p]) && keys[p] in seen)
    && (forall c :: c in seen ==> c in keys[..distinct])
  }

  lemma TallyOld(seen: seq<int>, keys: seq<int>, votes: seq<nat>, distinct: int, pos: nat, cls: int)
    requires Tallied(seen, keys, votes, distinct)
    requires pos < distinct && keys[pos] == cls
    ensures Tallied(seen + [cls], keys, votes[pos := votes[pos] + 1], distinct)
  {
    var votes' := votes[pos := votes[pos] + 1];
    forall p | 0 <= p < distinct ensures votes'[p] == Count(seen + [cls], keys[p]) {
      assert p != pos ==> keys[p] != cls;
    }
    assert cls in keys[..distinct] by { assert keys[..distinct][pos] == cls; }
  }

  /** The arrays after shifting the entries from pos on by one place and filling the gap. */
  ghost predicate Shifted<T>(before: seq<T>, after: seq<T>, distinct: int, pos: int, x: T) {
    && 0 <= pos <= distinct < |before| == |after|
    && (forall p :: 0 <= p < pos ==> after[p] == before[p])
    && after[pos] == x
    && (forall p :: pos < p <= distinct ==> after[p] == before[p - 1])
  }

  lemma TallyNew(seen: seq<int>, keys: seq<int>, votes: seq<nat>, keys': seq<int>, votes': seq<nat>, distinct: int,
    pos: nat, cls: int)
    requires Tallied(seen, keys, votes, distinct)
    requires Shifted(keys, keys', distinct, pos, cls) && Shifted(votes, votes', distinct, pos, 1)
    requires forall p :: 0 <= p < pos ==> keys[p] < cls
    requires forall p :: pos <= p < distinct ==> cls < keys[p]
    ensures Tallied(seen + [cls], keys', votes', distinct + 1)
  {
    NewClass(seen, keys, votes, distinct, pos, cls);
    forall p | 0 <= p < distinct + 1 && p != pos
      ensures var q := if p < pos then p else p - 1;
              keys'[p] == keys[q] && votes'[p] == votes[q] && keys[q] != cls
    {
    }
    assert keys'[pos] == cls && votes'[pos] == 1 == Count(seen + [cls], cls);
    ShiftedClasses(keys, keys', distinct, pos, cls);
  }

  lemma NewClass(seen: seq<int>, keys: seq<int>, votes: seq<nat>, distinct: int, pos: nat, cls: int)
    requires Tallied(seen, keys, votes, distinct) && pos <= distinct
    requires forall p :: 0 <= p < pos ==> keys[p] < cls
    requires forall p :: pos <= p < distinct ==> cls < keys[p]
    ensures cls !in seen && Count(seen, cls) == 0
  {
    assert cls !in keys[..distinct];
    CountPositive(seen, cls);
  }

  lemma ShiftedClasses(keys: seq<int>, keys': seq<int>, distinct: int, pos: nat, cls: int)
    requires Shifted(keys, keys', distinct, pos, cls)
    ensures forall c :: c in keys'[..distinct + 1] <==> c == cls || c in keys[..distinct]
  {
    assert keys'[..distinct + 1] == keys[..pos] + [cls] + keys[pos..distinct];
    assert keys[..distinct] == keys[..pos] + keys[pos..distinct];
  }

  lemma DecidesIf(classes: seq<int>, oldClass: int, w: int, votes: nat)
    requires votes == Count(classes, w)
    ensures Decides(classes, oldClass, w) <==> votes as real > |classes| as real / 2.0 && oldClass != w
  {
    HalfOf(votes, |classes|);
  }

  lemma HalfOf(votes: nat, count: nat)
    ensures votes as real > count as real / 2.0 <==> 2 * votes > count
  {
  }

  /** The array tally refuses more than 64 neighbours; otherwise it decides as the map does. */
  method ArrayVote(classes: seq<int>, oldClass: int) returns (ok: bool, decision: bool, newClass: int)
    requires classes != []
    ensures ok <==> |classes| <= MAX_KEYS
    ensures ok ==> IsWinner(classes, newClass) && (decision <==> Decides(classes, oldClass, newClass))
  {
    if |classes| > MAX_KEYS {
      return false, false, 0;
    }
    hide Tallied, IsWinner, Decides;
    var keys, votes := new int[MAX_KEYS], new nat[MAX_KEYS];
    NoneTallied(keys[..], votes[..]);
    var distinct := 0;
    var j := 0;
    while j < |classes|
      invariant 0 <= j <= |classes| && distinct <= j
      invariant Tallied(classes[..j], keys[..], votes[..], distinct)
      invariant j > 0 ==> distinct > 0
    {
      assert classes[..j + 1] == classes[..j] + [classes[j]];
      distinct := TallyOne(classes[j], classes[..j], keys, votes, distinct);
      j := j + 1;
    }
    assert classes[..j] == classes;
    var best := FirstMost(votes, distinct);
    BestWins(classes, keys[..], votes[..], distinct, best);
    var thresh := |classes| as real / 2.0;
    newClass := keys[best];
    DecidesIf(classes, oldClass, newClass, votes[best]);
    decision := votes[best] as real > thresh && oldClass != newClass;
    ok := true;
  }

  /** The second loop: the first key with the most votes. */
  method FirstMost(votes: array<nat>, distinct: nat) returns (best: nat)
    requires 0 < distinct <= votes.Length
    ensures best < distinct
    ensures forall p :: 0 <= p < distinct ==>
      && votes[..][p] <= votes[..][best]
      && (p < best ==> votes[..][p] < votes[..][best])
  {
    best := 0;
    var q := 1;
    while q < distinct
      invariant best < q <= distinct
      invariant forall p :: 0 <= p < q ==> votes[p] <= votes[best] && (p < best ==> votes[p] < votes[best])
    {
      if votes[q] > votes[best] {
        best := q;
      }
      q := q + 1;
    }
  }

  lemma NoneTallied(keys: seq<int>, votes: seq<nat>)
    requires |keys| == |votes|
    ensures Tallied([], keys, votes, 0)
  {
  }

  lemma BestWins(classes: seq<int>, keys: seq<int>, votes: seq<nat>, distinct: int, best: int)
    requires Tallied(classes, keys, votes, distinct) && 0 <= best < distinct
    requires forall p :: 0 <= p < distinct ==> votes[p] <= votes[best] && (p < best ==> votes[p] < votes[best])
    ensures IsWinner(classes, keys[best]) && votes[best] == Count(classes, keys[best])
  {
    forall c | c in classes
      ensures Count(classes, c) <= Count(classes, keys[best])
      ensures c < keys[best] ==> Count(classes, c) < Count(classes, keys[best])
    {
      var p :| 0 <= p < distinct && keys[..distinct][p] == c;
      assert keys[p] == c;
    }
  }

  /** One turn of the tally loop. */
  method TallyOne(cls: int, ghost seen: seq<int>, keys: array<int>, votes: array<nat>, distinct: nat)
    returns (more: nat)
    requires keys.Length == votes.Length && distinct < keys.Length
    requires Tallied(seen, keys[..], votes[..], distinct)
    modifies keys, votes
    ensures Tallied(seen + [cls], keys[..], votes[..], more)
    ensures more > 0 && more <= distinct + 1
  {
    hide Tallied, Count;
    more := distinct;
    var pos := Position(cls, seen, keys, votes[..], distinct);
    ghost var keys0, votes0 := keys[..], votes[..];
    if pos < distinct && keys[pos] == cls {
      TallyOld(seen, keys0, votes0, distinct, pos, cls);
      votes[pos] := votes[pos] + 1;
      assert votes[..] == votes0[pos := votes0[pos] + 1];
      return;
    }
    Shift(keys, votes, distinct, pos);
    keys[pos] := cls;
    votes[pos] := 1;
    TallyNew(seen, keys0, votes0, keys[..], votes[..], distinct, pos, cls);
    more := distinct + 1;
  }

  /** Where a class belongs among the ascending keys. */
  method Position(cls: int, ghost seen: seq<int>, keys: array<int>, ghost votes: seq<nat>, distinct: nat)
    returns (pos: nat)
    requires Tallied(seen, keys[..], votes, distinct)
    ensures pos <= distinct
    ensures forall p :: 0 <= p < pos ==> keys[..][p] < cls
    ensures pos < distinct && keys[pos] != cls ==> forall p :: pos <= p < distinct ==> cls < keys[..][p]
  {
    pos := 0;
    while pos < distinct && keys[pos] < cls
      invariant 0 <= pos <= distinct
      invariant forall p :: 0 <= p < pos ==> keys[p] < cls
    {
      pos := pos + 1;
    }
  }

  method Shift(keys: array<int>, votes: array<nat>, distinct: nat, pos: nat)
    requires pos <= distinct < keys.Length == votes.Length
    modifies keys, votes
    ensures forall p :: 0 <= p < pos ==> keys[p] == old(keys[p]) && votes[p] == old(votes[p])
    ensures forall p :: pos < p <= distinct ==> keys[p] == old(keys[p - 1]) && votes[p] == old(votes[p - 1])
  {
    var q := distinct;
    while q > pos
      invariant pos <= q <= distinct
      invariant forall p :: 0 <= p <= q ==> p < distinct ==> keys[p] == old(keys[p]) && votes[p] == old(votes[p])
      invariant forall p :: q < p <= distinct ==> keys[p] == old(keys[p - 1]) && votes[p] == old(votes[p - 1])
    {
      keys[q] := keys[q - 1];
      votes[q] := votes[q - 1];
      q := q - 1;
    }
  }

  /** What MapVote and ArrayVote promise leaves no choice, so they agree; and a class that wins the decision
      is the only one with a strict majority. */
  lemma VotesAgree(classes: seq<int>, oldClass: int, v: int, dv: bool, w: int, dw: bool)
    requires IsWinner(classes, v) && (dv <==> Decides(classes, oldClass, v))
    requires IsWinner(classes, w) && (dw <==> Decides(classes, oldClass, w))
    ensures v == w && dv == dw
    ensures dv ==> forall c :: 2 * Count(classes, c) > |classes| <==> c == v
  {
    WinnerUnique(classes, v, w);
    forall c | dv && 2 * Count(classes, c) > |classes| ensures c == v {
      MajorityWins(classes, c, v);
    }
  }
}
