/** `filters.neighborclassifier`: every point votes among its neighbours, workers collect the changes of
    contiguous row ranges, and the changes are applied when all votes have been counted.
 */
module NeighborClassifier {
  import opened Options
  import opened NeighborVote
  import opened RowChunks

  type Reassignments = seq<(nat, int)>

  /** What the filter reads: the neighbours of each row in the neighbour view, the domain ranges that
      each row passes, and the classes of a candidate file if there is one. */
  datatype Query = Query(neighbors: seq<seq<nat>>, ranges: nat, passes: seq<seq<bool>>, candidate: Option<seq<int>>) {
    ghost predicate Valid(rows: nat, nnSize: nat) {
      && |neighbors| == |passes| == rows
      && (forall id :: 0 <= id < rows ==> |passes[id]| == ranges)
      && (forall id :: 0 <= id < rows ==>
            && neighbors[id] != []
            && forall i :: 0 <= i < |neighbors[id]| ==> neighbors[id][i] < nnSize)
    }

    /** A row takes part if there is no domain or if it passes one of its ranges. */
    ghost predicate InDomain(id: nat)
      requires id < |passes|
    {
      ranges == 0 || true in passes[id]
    }
  }

  /** The classes that the neighbours of a row have in the neighbour view. */
  function Ballot(query: Query, nn: seq<int>, id: nat): (s: seq<int>)
    requires id < |query.neighbors| && forall i :: 0 <= i < |query.neighbors[id]| ==> query.neighbors[id][i] < |nn|
    ensures |s| == |query.neighbors[id]|
  {
    seq(|query.neighbors[id]|, i requires 0 <= i < |query.neighbors[id]| => nn[query.neighbors[id][i]])
  }

  /** Row id changes to class w, by a vote on the classes nn. */
  ghost predicate Changes(query: Query, classes: seq<int>, nn: seq<int>, id: nat, w: int)
    requires query.Valid(|classes|, |nn|)
  {
    && id < |classes| && query.InDomain(id)
    && IsWinner(Ballot(query, nn, id), w) && Decides(Ballot(query, nn, id), classes[id], w)
  }

  lemma ChangeUnique(query: Query, classes: seq<int>, nn: seq<int>, id: nat, v: int, w: int)
    requires query.Valid(|classes|, |nn|)
    requires Changes(query, classes, nn, id, v) && Changes(query, classes, nn, id, w)
    ensures v == w
  {
    WinnerUnique(Ballot(query, nn, id), v, w);
  }

  /** The list holds exactly the changes of the rows [begin, end). */
  ghost predicate Lists(query: Query, classes: seq<int>, nn: seq<int>, list: Reassignments, begin: int, end: int)
    requires query.Valid(|classes|, |nn|)
  {
    && (forall e :: e in list ==> begin <= e.0 < end && Changes(query, classes, nn, e.0, e.1))
    && (forall id: nat, w: int :: begin <= id < end && Changes(query, classes, nn, id, w) ==> (id, w) in list)
  }

  /** The map holds exactly the changes of all rows. */
  ghost predicate Collected(query: Query, classes: seq<int>, nn: seq<int>, newClass: map<nat, int>)
    requires query.Valid(|classes|, |nn|)
  {
    && (forall id :: id in newClass ==> Changes(query, classes, nn, id, newClass[id]))
    && (forall id: nat, w: int :: Changes(query, classes, nn, id, w) ==> id in newClass)
  }

  /** So the map does not depend on how many workers there were. */
  lemma CollectedUnique(query: Query, classes: seq<int>, nn: seq<int>, a: map<nat, int>, b: map<nat, int>)
    requires query.Valid(|classes|, |nn|)
    requires Collected(query, classes, nn, a) && Collected(query, classes, nn, b)
    ensures a == b
  {
    forall id | id in a && id in b ensures a[id] == b[id] {
      ChangeUnique(query, classes, nn, id, a[id], b[id]);
    }
    assert a.Keys == b.Keys;
  }

  /** The view after a simultaneous update: every vote is counted on the classes before it. */
  ghost predicate Updated(query: Query, classes: seq<int>, nn: seq<int>, after: seq<int>)
    requires query.Valid(|classes|, |nn|)
  {
    && |after| == |classes|
    && forall id :: 0 <= id < |classes| ==>
      || Changes(query, classes, nn, id, after[id])
      || (after[id] == classes[id] && forall w :: !Changes(query, classes, nn, id, w))
  }

  lemma UpdateUnique(query: Query, classes: seq<int>, nn: seq<int>, a: seq<int>, b: seq<int>)
    requires query.Valid(|classes|, |nn|)
    requires Updated(query, classes, nn, a) && Updated(query, classes, nn, b)
    ensures a == b
  {
    forall id | 0 <= id < |classes| ensures a[id] == b[id] {
      if Changes(query, classes, nn, id, a[id]) && Changes(query, classes, nn, id, b[id]) {
        ChangeUnique(query, classes, nn, id, a[id], b[id]);
      }
    }
  }

  lemma EmptyList(query: Query, classes: seq<int>, nn: seq<int>)
    requires query.Valid(|classes|, |nn|)
    ensures Lists(query, classes, nn, [], 0, 0)
  {
  }

  lemma JoinLists(query: Query, classes: seq<int>, nn: seq<int>, a: Reassignments, b: Reassignments, begin: int,
    mid: int, end: int)
    requires query.Valid(|classes|, |nn|) && begin <= mid <= end
    requires Lists(query, classes, nn, a, begin, mid) && Lists(query, classes, nn, b, mid, end)
    ensures Lists(query, classes, nn, a + b, begin, end)
  {
    hide Changes;
    forall id: nat, w: int | begin <= id < end && Changes(query, classes, nn, id, w) ensures (id, w) in a + b {
      assert id < mid ==> (id, w) in a;
    }
  }

  class NeighborClassifierFilter {
    var newClass: map<nat, int>

    constructor ()
      ensures newClass == map[]
    {
      newClass := map[];
    }

    method DoOneNoDomain(query: Query, classes: array<int>, nn: seq<int>, id: nat, reassignments: Reassignments)
      returns (out: Reassignments)
      requires query.Valid(classes.Length, |nn|) && id < classes.Length && query.InDomain(id)
      ensures || (out == reassignments && forall w :: !Changes(query, classes[..], nn, id, w))
              || (exists w :: Changes(query, classes[..], nn, id, w) && out == reassignments + [(id, w)])
    {
      var ballot := Ballot(query, nn, id);
      var decision, newclass := MapVote(ballot, classes[id]);
      if decision {
        out := reassignments + [(id, newclass)];
      } else {
        out := reassignments;
        forall w ensures !Changes(query, classes[..], nn, id, w) {
          if Changes(query, classes[..], nn, id, w) {
            WinnerUnique(ballot, w, newclass);
          }
        }
      }
    }

    /** `doOne`: with a domain, vote at the first range that the point passes. */
    method DoOne(query: Query, classes: array<int>, nn: seq<int>, id: nat, reassignments: Reassignments,
      ghost begin: nat)
      returns (out: Reassignments)
      requires query.Valid(classes.Length, |nn|) && begin <= id < classes.Length
      requires Lists(query, classes[..], nn, reassignments, begin, id)
      ensures Lists(query, classes[..], nn, out, begin, id + 1)
    {
      out := reassignments;
      if query.ranges == 0 {
        out := DoOneNoDomain(query, classes, nn, id, reassignments);
      }
      var r := 0;
      while r < query.ranges
        invariant 0 <= r <= query.ranges
        invariant query.ranges > 0 ==> out == reassignments
        invariant query.ranges == 0 ==> Lists(query, classes[..], nn, out, begin, id + 1)
        invariant forall i :: 0 <= i < r ==> !query.passes[id][i]
      {
        if query.passes[id][r] {
          out := DoOneNoDomain(query, classes, nn, id, reassignments);
          break;
        }
        r := r + 1;
      }
    }

    /** What one worker does with its range. */
    method ClassifyChunk(query: Query, classes: array<int>, nn: seq<int>, begin: nat, end: nat)
      returns (out: Reassignments)
      requires query.Valid(classes.Length, |nn|) && begin <= end <= classes.Length
      ensures Lists(query, classes[..], nn, out, begin, end)
    {
      out := [];
      var id := begin;
      while id < end
        invariant begin <= id <= end
        invariant Lists(query, classes[..], nn, out, begin, id)
      {
        out := DoOne(query, classes, nn, id, out, begin);
        id := id + 1;
      }
    }

    /** The workers finish in any order; each writes only its own list. */
    method RunWorkers(query: Query, classes: array<int>, nn: seq<int>, workers: nat)
      returns (perWorker: seq<Reassignments>)
      requires query.Valid(classes.Length, |nn|) && workers > 0
      ensures |perWorker| == workers
      ensures forall w :: 0 <= w < workers ==>
        Lists(query, classes[..], nn, perWorker[w], Begin(classes.Length, workers, w), End(classes.Length, workers, w))
    {
      hide Lists, Begin, End;
      var rows := classes.Length;
      perWorker := seq(workers, _ => []);
      var pending := WorkerSet(workers);
      while pending != {}
        invariant pending <= WorkerSet(workers) && |perWorker| == workers
        invariant forall w :: 0 <= w < workers && w !in pending ==>
          Lists(query, classes[..], nn, perWorker[w], Begin(rows, workers, w), End(rows, workers, w))
        decreases pending
      {
        var w :| w in pending;
        RangeInRows(rows, workers, w);
        var out := ClassifyChunk(query, classes, nn, Begin(rows, workers, w), End(rows, workers, w));
        perWorker := perWorker[w := out];
        pending := pending - {w};
      }
    }

    /** `classifyAll` with any number of workers. */
    method ClassifyAll(query: Query, classes: array<int>, nn: seq<int>, workerCount: nat)
      requires query.Valid(classes.Length, |nn|) && newClass == map[] && workerCount > 0
      modifies this
      ensures Collected(query, classes[..], nn, newClass)
    {
      hide Lists, Collected, Begin, End, MergeInto;
      var rows := classes.Length;
      if workerCount <= 1 || rows == 0 {
        var only := ClassifyChunk(query, classes, nn, 0, rows);
        Merge(only);
        WholeList(query, classes[..], nn, only, newClass);
        return;
      }
      var workers := if workerCount < rows then workerCount else rows;
      var perWorker := RunWorkers(query, classes, nn, workers);
      ghost var all: Reassignments := [];
      ghost var C := classes[..];
      EmptyList(query, C, nn);
      BeginEnds(rows, workers);
      MergeNothing();
      var w := 0;
      while w < workers
        invariant 0 <= w <= workers
        invariant Lists(query, C, nn, all, 0, Begin(rows, workers, w))
        invariant newClass == MergeInto(map[], all)
      {
        NextBegin(rows, workers, w);
        BeginMonotone(rows, workers, 0, w);
        BeginMonotone(rows, workers, w, w + 1);
        JoinLists(query, C, nn, all, perWorker[w], 0, Begin(rows, workers, w), Begin(rows, workers, w + 1));
        MergeAppend(map[], all, perWorker[w]);
        Merge(perWorker[w]);
        all := all + perWorker[w];
        w := w + 1;
      }
      WholeList(query, C, nn, all, newClass);
    }

    method Merge(list: Reassignments)
      modifies this
      ensures newClass == MergeInto(old(newClass), list)
    {
      var i := 0;
      while i < |list|
        invariant 0 <= i <= |list|
        invariant newClass == MergeInto(old(newClass), list[..i])
      {
        assert list[..i + 1][..i] == list[..i];
        newClass := newClass[list[i].0 := list[i].1];
        i := i + 1;
      }
      assert list[..i] == list;
    }

    /** The filter: count all votes, then write. */
    method Filter(query: Query, classes: array<int>, workerCount: nat)
      requires newClass == map[] && workerCount > 0
      requires query.Valid(classes.Length, if query.candidate.None? then classes.Length else |query.candidate.value|)
      modifies this, classes
      ensures var nn := if query.candidate.None? then old(classes[..]) else query.candidate.value;
              && Updated(query, old(classes[..]), nn, classes[..])
              && Voted(query, old(classes[..]), nn, classes[..])
    {
      hide Collected, Updated, Voted;
      ghost var before := classes[..];
      var nn := if query.candidate.None? then classes[..] else query.candidate.value;
      ClassifyAll(query, classes, nn, workerCount);
      KeysInRows(query, before, nn, newClass);
      ghost var collected := newClass;
      var pending := newClass.Keys;
      while pending != {}
        invariant newClass == collected && pending <= newClass.Keys
        invariant forall id :: 0 <= id < classes.Length ==>
          classes[id] == if id in newClass && id !in pending then newClass[id] else before[id]
        decreases pending
      {
        var id :| id in pending;
        classes[id] := newClass[id];
        pending := pending - {id};
      }
      ApplyAll(query, before, nn, newClass, classes[..]);
      UpdatedByMajority(query, before, nn, classes[..]);
    }
  }

  /** A row ends with the class w, other than its old one, exactly if it passes a range of the domain, or there
      is none, and more than half of its neighbours had that class before the run. */
  ghost predicate VotedFor(query: Query, nn: seq<int>, after: seq<int>, id: nat, w: int)
    requires id < |after| && query.Valid(|after|, |nn|)
  {
    var neighbors := query.neighbors[id];
    var votes := set i: nat | i < |neighbors| && nn[neighbors[i]] == w;
    after[id] == w <==>
      (query.ranges == 0 || exists r :: 0 <= r < query.ranges && query.passes[id][r]) && 2 * |votes| > |neighbors|
  }

  ghost predicate Voted(query: Query, classes: seq<int>, nn: seq<int>, after: seq<int>)
    requires query.Valid(|classes|, |nn|)
  {
    && |after| == |classes|
    && forall id: nat, w: int :: id < |classes| && w != classes[id] ==> VotedFor(query, nn, after, id, w)
  }

  lemma UpdatedByMajority(query: Query, classes: seq<int>, nn: seq<int>, after: seq<int>)
    requires query.Valid(|classes|, |nn|) && Updated(query, classes, nn, after)
    ensures Voted(query, classes, nn, after)
  {
    forall id: nat, w: int | id < |classes| && w != classes[id] ensures VotedFor(query, nn, after, id, w) {
      VotedOne(query, classes, nn, after, id, w);
    }
  }

  lemma VotedOne(query: Query, classes: seq<int>, nn: seq<int>, after: seq<int>, id: nat, w: int)
    requires query.Valid(|classes|, |nn|) && Updated(query, classes, nn, after)
    requires id < |classes| && w != classes[id]
    ensures VotedFor(query, nn, after, id, w)
  {
    var neighbors := query.neighbors[id];
    var ballot := Ballot(query, nn, id);
    var votes := set i: nat | i < |neighbors| && nn[neighbors[i]] == w;
    CountPositions(ballot, w);
    assert votes == set i: nat | i < |ballot| && ballot[i] == w;
    hide Count, IsWinner, Ballot;
    assert query.InDomain(id) <==> query.ranges == 0 || exists r :: 0 <= r < query.ranges && query.passes[id][r];
    if query.InDomain(id) && 2 * Count(ballot, w) > |ballot| {
      MajorityIsWinner(ballot, w);
      assert Changes(query, classes, nn, id, w);
      if Changes(query, classes, nn, id, after[id]) {
        ChangeUnique(query, classes, nn, id, w, after[id]);
      }
    }
  }

  lemma KeysInRows(query: Query, classes: seq<int>, nn: seq<int>, newClass: map<nat, int>)
    requires query.Valid(|classes|, |nn|) && Collected(query, classes, nn, newClass)
    ensures forall id :: id in newClass ==> id < |classes|
  {
  }

  lemma ApplyAll(query: Query, classes: seq<int>, nn: seq<int>, newClass: map<nat, int>, after: seq<int>)
    requires query.Valid(|classes|, |nn|) && Collected(query, classes, nn, newClass)
    requires |after| == |classes|
    requires forall id :: 0 <= id < |classes| ==> after[id] == if id in newClass then newClass[id] else classes[id]
    ensures Updated(query, classes, nn, after)
  {
  }

  /** `newClass[id] = class` for every pair of the list; a later pair would replace an earlier one. */
  function MergeInto(m: map<nat, int>, list: Reassignments): map<nat, int> {
    if list == [] then m
    else
      var last := |list| - 1;
      MergeInto(m, list[..last])[list[last].0 := list[last].1]
  }

  lemma MergeNothing()
    ensures MergeInto(map[], []) == map[]
  {
  }

  lemma {:induction false} MergeAppend(m: map<nat, int>, a: Reassignments, b: Reassignments)
    ensures MergeInto(m, a + b) == MergeInto(MergeInto(m, a), b)
  {
    if b == [] {
      assert a + b == a;
    } else {
      var last := |b| - 1;
      MergeAppend(m, a, b[..last]);
      assert (a + b)[..|a + b| - 1] == a + b[..last];
    }
  }

  lemma {:induction false} MergeContents(list: Reassignments)
    ensures forall id :: id in MergeInto(map[], list) ==> (id, MergeInto(map[], list)[id]) in list
    ensures forall e :: e in list ==> e.0 in MergeInto(map[], list)
  {
    if list != [] {
      var last := |list| - 1;
      MergeContents(list[..last]);
      assert list == list[..last] + [list[last]];
    }
  }

  /** A list of all changes merges into the map of all changes. */
  lemma WholeList(query: Query, classes: seq<int>, nn: seq<int>, list: Reassignments, newClass: map<nat, int>)
    requires query.Valid(|classes|, |nn|)
    requires Lists(query, classes, nn, list, 0, |classes|) && newClass == MergeInto(map[], list)
    ensures Collected(query, classes, nn, newClass)
  {
    MergeContents(list);
    forall id | id in newClass ensures Changes(query, classes, nn, id, newClass[id]) {
      var e := (id, newClass[id]);
      assert e in list;
    }
    forall id: nat, w: int | Changes(query, classes, nn, id, w) ensures id in newClass {
      var e := (id, w);
      assert e in list;
    }
  }
}
