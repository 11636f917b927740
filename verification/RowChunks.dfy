/** The fixed contiguous row ranges of `forEachRowChunk`. */
module RowChunks {

  function Min(a: nat, b: nat): nat {
    if a < b then a else b
  }

  function Begin(rows: nat, workers: nat, worker: nat): nat
    requires workers > 0
  {
    worker * (rows / workers) + Min(worker, rows % workers)
  }

  function End(rows: nat, workers: nat, worker: nat): nat
    requires workers > 0
  {
    Begin(rows, workers, worker) + rows / workers + if worker < rows % workers then 1 else 0
  }

  lemma NextBegin(rows: nat, workers: nat, worker: nat)
    requires workers > 0
    ensures Begin(rows, workers, worker) <= End(rows, workers, worker) == Begin(rows, workers, worker + 1)
  {
    assert (worker + 1) * (rows / workers) == worker * (rows / workers) + rows / workers;
  }

  lemma BeginEnds(rows: nat, workers: nat)
    requires workers > 0
    ensures Begin(rows, workers, 0) == 0 && Begin(rows, workers, workers) == rows
  {
    assert rows == workers * (rows / workers) + rows % workers;
  }

  lemma {:induction false} BeginMonotone(rows: nat, workers: nat, v: nat, w: nat)
    requires workers > 0 && v <= w
    ensures Begin(rows, workers, v) <= Begin(rows, workers, w)
    decreases w
  {
    hide *;
    if v < w {
      NextBegin(rows, workers, w - 1);
      BeginMonotone(rows, workers, v, w - 1);
    }
  }

  /** The worker whose range holds a row. */
  lemma {:induction false} Owner(rows: nat, workers: nat, row: nat, upto: nat) returns (worker: nat)
    requires workers > 0 && row < Begin(rows, workers, upto)
    ensures worker < upto && Begin(rows, workers, worker) <= row < End(rows, workers, worker)
  {
    BeginEnds(rows, workers);
    assert upto > 0;
    NextBegin(rows, workers, upto - 1);
    if row < Begin(rows, workers, upto - 1) {
      worker := Owner(rows, workers, row, upto - 1);
    } else {
      worker := upto - 1;
    }
  }

  /** Every row lies in the range of exactly one worker. */
  lemma ExactlyOneOwner(rows: nat, workers: nat, row: nat) returns (worker: nat)
    requires workers > 0 && row < rows
    ensures worker < workers && Begin(rows, workers, worker) <= row < End(rows, workers, worker)
    ensures forall w :: 0 <= w < workers && Begin(rows, workers, w) <= row < End(rows, workers, w) ==> w == worker
  {
    BeginEnds(rows, workers);
    worker := Owner(rows, workers, row, workers);
    forall w | 0 <= w < workers && Begin(rows, workers, w) <= row < End(rows, workers, w) ensures w == worker {
      NextBegin(rows, workers, w);
      NextBegin(rows, workers, worker);
      if w < worker {
        BeginMonotone(rows, workers, w + 1, worker);
      } else if worker < w {
        BeginMonotone(rows, workers, worker + 1, w);
      }
    }
  }

  function WorkerSet(workers: nat): (s: set<nat>)
    ensures forall w: nat :: w in s <==> w < workers
  {
    if workers == 0 then {} else WorkerSet(workers - 1) + {workers - 1}
  }

  lemma RangeInRows(rows: nat, workers: nat, w: nat)
    requires w < workers
    ensures Begin(rows, workers, w) <= End(rows, workers, w) <= rows
  {
    NextBegin(rows, workers, w);
    BeginMonotone(rows, workers, w + 1, workers);
    BeginEnds(rows, workers);
  }

  ghost predicate Owns(rows: nat, workers: nat, worker: nat, row: nat)
    requires workers > 0
  {
    Begin(rows, workers, worker) <= row < End(rows, workers, worker)
  }

  ghost predicate Owned(rows: nat, workers: nat, row: nat)
    requires workers > 0
  {
    exists w: nat :: w < workers && Owns(rows, workers, w, row)
  }

  lemma AllOwned(rows: nat, workers: nat)
    requires workers > 0
    ensures forall row: nat :: row < rows ==> Owned(rows, workers, row)
  {
    forall row: nat | row < rows ensures Owned(rows, workers, row) {
      var w := ExactlyOneOwner(rows, workers, row);
      assert Owns(rows, workers, w, row);
    }
  }

  // ----- chunks of the same length, the last ones clamped to the number of rows

  function ChunkSize(rows: nat, workers: nat): nat
    requires workers > 0
  {
    (rows + workers - 1) / workers
  }

  function ClampedFirst(rows: nat, workers: nat, worker: nat): nat
    requires workers > 0
  {
    worker * ChunkSize(rows, workers)
  }

  function ClampedLast(rows: nat, workers: nat, worker: nat): nat
    requires workers > 0
  {
    Min(rows, ClampedFirst(rows, workers, worker) + ChunkSize(rows, workers))
  }

  /** Every row lies in the chunk of exactly one worker; workers past the last row get an empty chunk. */
  lemma ClampedOwner(rows: nat, workers: nat, row: nat) returns (worker: nat)
    requires workers > 0 && row < rows
    ensures worker < workers
    ensures forall w :: 0 <= w < workers ==>
      (ClampedFirst(rows, workers, w) <= row < ClampedLast(rows, workers, w) <==> w == worker)
  {
    var chunk := ChunkSize(rows, workers);
    ChunksReach(rows, workers);
    worker := row / chunk;
    forall w | 0 <= w < workers
      ensures ClampedFirst(rows, workers, w) <= row < ClampedLast(rows, workers, w) <==> w == worker
    {
      QuotientIs(row, chunk, w);
    }
    QuotientIs(row, chunk, worker);
    if worker >= workers {
      TimesMonotone(workers, worker, chunk);
    }
  }

  lemma ChunksReach(rows: nat, workers: nat)
    requires workers > 0
    ensures workers * ChunkSize(rows, workers) >= rows
    ensures rows > 0 ==> ChunkSize(rows, workers) > 0
  {
    assert workers * ChunkSize(rows, workers) == (rows + workers - 1) - (rows + workers - 1) % workers;
  }

  lemma QuotientIs(a: nat, d: nat, q: nat)
    requires d > 0
    ensures q * d <= a < q * d + d <==> q == a / d
  {
    var r := a / d;
    assert a == r * d + a % d;
    if q < r {
      TimesMonotone(q + 1, r, d);
    } else if r < q {
      TimesMonotone(r + 1, q, d);
    }
  }

  lemma TimesMonotone(a: nat, b: nat, d: nat)
    requires a <= b
    ensures a * d <= b * d
  {
  }
}
