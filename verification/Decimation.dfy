/** `filters.decimation`: keep every step-th point, point by point in streaming mode and by computed
    index in batch mode. The step is an exact real of at least one.
 */
module Decimation {
  import opened Arithmetic

  /** `llround` on the non-negative reals. */
  function Round(x: real): int {
    (x + 0.5).Floor
  }

  /** The index of the k-th point to keep. */
  function Target(offset: nat, step: real, k: nat): int {
    offset + Round(k as real * step)
  }

  /** p is offset and k steps, rounded to the nearest index, halves up. */
  predicate Nearest(offset: nat, step: real, k: nat, p: int) {
    (p - offset) as real - 0.5 <= k as real * step < (p - offset) as real + 0.5
  }

  lemma TargetNearest(offset: nat, step: real, k: nat, p: int)
    ensures Nearest(offset, step, k, p) <==> p == Target(offset, step, k)
  {
    var x := k as real * step;
    assert (p - offset) as real - 0.5 <= x < (p - offset) as real + 0.5 <==> (x + 0.5).Floor == p - offset;
  }

  lemma TargetStep(offset: nat, step: real, k: nat)
    requires step >= 1.0
    ensures Target(offset, step, k + 1) >= Target(offset, step, k) + 1
  {
    assert (k + 1) as real * step == k as real * step + step;
  }

  /** Targets increase strictly. */
  lemma {:induction false} TargetsIncrease(offset: nat, step: real, j: nat, k: nat)
    requires step >= 1.0 && j < k
    ensures Target(offset, step, j) + (k - j) <= Target(offset, step, k)
  {
    TargetStep(offset, step, k - 1);
    if j < k - 1 {
      TargetsIncrease(offset, step, j, k - 1);
    }
  }

  lemma FirstTarget(offset: nat, step: real)
    ensures Target(offset, step, 0) == offset
  {
  }

  /** The first `count` targets. */
  function Targets(offset: nat, step: real, count: nat): (s: seq<int>)
    ensures |s| == count && forall k :: 0 <= k < count ==> s[k] == Target(offset, step, k)
  {
    seq(count, k requires k >= 0 => Target(offset, step, k))
  }

  /** `count` is the number of targets below `last`. */
  ghost predicate CountBelow(offset: nat, step: real, last: int, count: nat) {
    (forall k: nat :: k < count ==> Target(offset, step, k) < last) && Target(offset, step, count) >= last
  }

  lemma CountBelowUnique(offset: nat, step: real, last: int, a: nat, b: nat)
    requires CountBelow(offset, step, last, a) && CountBelow(offset, step, last, b)
    ensures a == b
  {
  }

  // ----- batch mode

  /** How many points batch mode keeps of those in [offset, last). */
  function BatchCount(offset: nat, step: real, last: nat): int
    requires step >= 1.0 && offset <= last
  {
    Round((last - offset) as real / step)
  }

  /** Rounding the count: it is within half a point of the exact quotient. */
  lemma BatchCountBounds(offset: nat, step: real, last: nat)
    requires step >= 1.0 && offset <= last
    ensures var c := BatchCount(offset, step, last);
            var d := (last - offset) as real;
            c >= 0 && c as real * step <= d + step / 2.0 && d + step / 2.0 < (c + 1) as real * step
  {
    var d := (last - offset) as real;
    var c := BatchCount(offset, step, last);
    QuotientNonNegative(d, step);
    assert c as real <= d / step + 0.5 < c as real + 1.0;
    TimesStep(c as real, d, step);
    TimesStepAbove(c as real + 1.0, d, step);
    assert (c + 1) as real == c as real + 1.0;
  }

  lemma QuotientNonNegative(d: real, step: real)
    requires d >= 0.0 && step >= 1.0
    ensures d / step >= 0.0
  {
  }

  lemma TimesStep(c: real, d: real, step: real)
    requires step >= 1.0 && c <= d / step + 0.5
    ensures c * step <= d + step / 2.0
  {
    var q := d / step;
    assert q * step == d;
    MulAtMost(c, q + 0.5, step);
    assert (q + 0.5) * step == q * step + 0.5 * step;
  }

  lemma TimesStepAbove(c: real, d: real, step: real)
    requires step >= 1.0 && d / step + 0.5 < c
    ensures d + step / 2.0 < c * step
  {
    var q := d / step;
    assert q * step == d;
    MulBelow(q + 0.5, c, step);
    assert (q + 0.5) * step == q * step + 0.5 * step;
  }

  lemma MulAtMost(a: real, b: real, c: real)
    requires a <= b && c >= 0.0
    ensures a * c <= b * c
  {
  }

  /** Batch mode stays in range, and streaming mode finds at most one target more. */
  lemma BatchAgainstStream(offset: nat, step: real, last: nat)
    requires step >= 1.0 && offset <= last
    ensures var c := BatchCount(offset, step, last);
            && c >= 0
            && (forall k: nat :: k < c ==> Target(offset, step, k) < last)
            && Target(offset, step, c + 1) >= last
  {
    var c := BatchCount(offset, step, last);
    BatchCountBounds(offset, step, last);
    forall k: nat | k < c ensures Target(offset, step, k) < last {
      BelowLast(offset, step, last, k, c);
    }
    assert Round((c + 1) as real * step) >= last - offset by {
      assert (c + 1) as real * step > (last - offset) as real + step / 2.0;
    }
  }

  /** The points that batch mode keeps increase strictly and lie in range. */
  lemma BatchInRange(offset: nat, step: real, last: nat)
    requires step >= 1.0 && offset <= last
    ensures var c := BatchCount(offset, step, last);
            && c >= 0
            && (forall k :: 0 <= k < c ==> offset <= Targets(offset, step, c)[k] < last)
            && (forall j, k :: 0 <= j < k < c ==> Targets(offset, step, c)[j] < Targets(offset, step, c)[k])
  {
    hide Target, BatchCount;
    BatchAgainstStream(offset, step, last);
    var c := BatchCount(offset, step, last);
    FirstTarget(offset, step);
    forall j: nat, k: nat | j < k < c ensures Target(offset, step, j) < Target(offset, step, k) {
      TargetsIncrease(offset, step, j, k);
    }
  }

  lemma BelowLast(offset: nat, step: real, last: nat, k: nat, c: nat)
    requires step >= 1.0 && offset <= last && k < c
    requires c as real * step <= (last - offset) as real + step / 2.0
    ensures Target(offset, step, k) < last
  {
    var x := k as real * step;
    HalfStepBelow(k as real, c as real, step, (last - offset) as real);
    if step == 1.0 {
      assert x == k as real;
    }
    hide Target;
    RoundsBelow(x, step, k, last - offset);
    TargetIs(offset, step, k);
  }

  lemma TargetIs(offset: nat, step: real, k: nat)
    ensures Target(offset, step, k) == offset + Round(k as real * step)
  {
  }

  lemma HalfStepBelow(k: real, c: real, step: real, d: real)
    requires step >= 1.0 && k <= c - 1.0 && c * step <= d + step / 2.0
    ensures k * step <= d - step / 2.0
  {
    MulAtMost(k, c - 1.0, step);
    OneLess(c, step);
  }

  lemma OneLess(c: real, step: real)
    ensures (c - 1.0) * step == c * step - step
  {
  }

  /** Half a step below an integer, a multiple of the step rounds to less than it. */
  lemma RoundsBelow(x: real, step: real, k: nat, d: int)
    requires step >= 1.0 && x <= d as real - step / 2.0
    requires step == 1.0 ==> x == k as real
    ensures Round(x) < d
  {
  }

  /** Batch and streaming mode keep the same points, or streaming keeps exactly one more: the target
      that batch mode rounds away lies below the end. */
  lemma StreamCount(offset: nat, step: real, last: nat, streamed: nat)
    requires step >= 1.0 && offset <= last && CountBelow(offset, step, last, streamed)
    ensures var c := BatchCount(offset, step, last);
            c >= 0 && streamed == if Target(offset, step, c) < last then c + 1 else c
  {
    hide Target, BatchCount;
    var c := BatchCount(offset, step, last);
    BatchAgainstStream(offset, step, last);
    assert CountBelow(offset, step, last, if Target(offset, step, c) < last then c + 1 else c);
    CountBelowUnique(offset, step, last, streamed, if Target(offset, step, c) < last then c + 1 else c);
  }

  /** So the points that batch mode keeps are a prefix of those that streaming mode keeps. */
  lemma BatchIsPrefix(offset: nat, step: real, last: nat, streamed: nat)
    requires step >= 1.0 && offset <= last && CountBelow(offset, step, last, streamed)
    ensures var c := BatchCount(offset, step, last);
            c >= 0 && Targets(offset, step, c) <= Targets(offset, step, streamed) && streamed <= c + 1
  {
    hide Target, BatchCount;
    StreamCount(offset, step, last, streamed);
  }

  /** `kept` targets lie below the index and the limit; they are the first ones, and the next does not. */
  ghost predicate KeptBelow(offset: nat, step: real, limit: nat, index: nat, kept: nat) {
    && (forall k: nat :: k < kept ==> Target(offset, step, k) < index && Target(offset, step, k) < limit)
    && (Target(offset, step, kept) >= index || Target(offset, step, kept) >= limit)
  }

  /** One index more: it is kept exactly if it is the next target and below the limit. */
  lemma KeptNext(offset: nat, step: real, limit: nat, index: nat, kept: nat)
    requires step >= 1.0 && KeptBelow(offset, step, limit, index, kept)
    ensures Target(offset, step, kept) >= offset
    ensures KeptBelow(offset, step, limit, index + 1,
              if index < limit && index == Target(offset, step, kept) then kept + 1 else kept)
  {
    hide Target;
    TargetStep(offset, step, kept);
    FirstTarget(offset, step);
    if kept > 0 {
      TargetsIncrease(offset, step, 0, kept);
    }
  }

  class DecimationFilter {
    const step: real
    const offset: nat
    const limit: nat
    var index: nat
    var kept: nat

    constructor (s: real, o: nat, l: nat)
      ensures step == s && offset == o && limit == l && index == 0 && kept == 0
    {
      step, offset, limit, index, kept := s, o, l, 0, 0;
    }

    /** The kept points so far are the targets below the index. */
    ghost predicate Valid()
      reads this
    {
      step >= 1.0 && KeptBelow(offset, step, limit, index, kept)
    }

    /** Streaming mode, one point. */
    method ProcessOne() returns (keep: bool)
      requires Valid()
      modifies this
      ensures Valid() && index == old(index) + 1
      ensures keep <==> old(index) < limit && old(index) == Target(offset, step, old(kept))
      ensures kept == old(kept) + if keep then 1 else 0
    {
      hide Target, Round, KeptBelow;
      TargetIs(offset, step, kept);
      KeptNext(offset, step, limit, index, kept);
      keep := true;
      if index < offset || index >= limit {
        keep := false;
      } else if index != offset + Round(kept as real * step) {
        keep := false;
      } else {
        kept := kept + 1;
      }
      index := index + 1;
    }

    /** Streaming mode, a whole view of n points: the kept indices. */
    method Stream(n: nat) returns (picks: seq<int>)
      requires Valid() && index == 0 && kept == 0
      modifies this
      ensures var last := if limit < n then limit else n;
              CountBelow(offset, step, last, |picks|) && picks == Targets(offset, step, |picks|)
      ensures forall k :: 0 <= k < |picks| ==> Nearest(offset, step, k, picks[k]) && picks[k] < n && picks[k] < limit
      ensures forall k, p :: 0 <= k && Nearest(offset, step, k, p) && p < n && p < limit ==> k < |picks|
    {
      hide Target, Nearest;
      picks := [];
      while index < n
        invariant Valid() && 0 <= index <= n && kept == |picks|
        invariant forall k :: 0 <= k < |picks| ==> picks[k] == Target(offset, step, k)
      {
        var i := index;
        var keep := ProcessOne();
        if keep {
          picks := picks + [i];
        }
      }
      assert picks == Targets(offset, step, |picks|);
      forall k, p | 0 <= k && Nearest(offset, step, k, p) && p < n && p < limit ensures k < |picks| {
        TargetNearest(offset, step, k, p);
        if k > |picks| {
          TargetsIncrease(offset, step, |picks|, k);
        }
      }
      NearestPicks(picks, |picks|);
    }

    lemma NearestPicks(picks: seq<int>, count: nat)
      requires picks == Targets(offset, step, count)
      ensures forall k :: 0 <= k < count ==> Nearest(offset, step, k, picks[k])
    {
      forall k | 0 <= k < count ensures Nearest(offset, step, k, picks[k]) {
        TargetNearest(offset, step, k, picks[k]);
      }
    }

    /** Batch mode: the indices appended to the output. */
    method Decimate(n: nat) returns (picks: seq<int>)
      requires step >= 1.0 && offset <= limit && offset <= n
      ensures var last := if limit < n then limit else n;
              && picks == Targets(offset, step, BatchCount(offset, step, last))
              && (forall k :: 0 <= k < |picks| ==> offset <= picks[k] < last)
              && (forall j, k :: 0 <= j < k < |picks| ==> picks[j] < picks[k])
      ensures forall k :: 0 <= k < |picks| ==> Nearest(offset, step, k, picks[k])
      ensures var d := ((if limit < n then limit else n) - offset) as real;
              |picks| as real * step <= d + step / 2.0 && d + step / 2.0 < (|picks| + 1) as real * step
    {
      var lastIdx := if limit < n then limit else n;
      var count := Round((lastIdx - offset) as real / step);
      assert count == BatchCount(offset, step, lastIdx);
      hide Target, Round, BatchCount, Nearest;
      BatchInRange(offset, step, lastIdx);
      BatchCountBounds(offset, step, lastIdx);
      picks := [];
      var idx := 0;
      while idx < count
        invariant 0 <= idx <= count && picks == Targets(offset, step, idx)
      {
        TargetIs(offset, step, idx);
        picks := picks + [offset + Round(idx as real * step)];
        idx := idx + 1;
      }
      NearestPicks(picks, count);
    }
  }
}
