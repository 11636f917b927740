/** How the values of a sequence spread around a number: facts about their squared deviations. */
module Dispersion {
  import opened Arithmetic
  import opened Moments

  ghost predicate AllEqual(s: seq<real>) {
    forall i, j :: 0 <= i < |s| && 0 <= j < |s| ==> s[i] == s[j]
  }

  lemma SpreadLast(s: seq<real>, m: real)
    requires s != []
    ensures var last := |s| - 1;
            Deviations(s, s, m, m) == Deviations(s[..last], s[..last], m, m) + Times(s[last] - m, s[last] - m)
  {
    hide Deviations;
    DeviationsLast(s, s, m, m);
  }

  lemma SpreadOfNone(m: real)
    ensures Deviations([], [], m, m) == 0.0 && Sum([]) == 0.0
    ensures forall x :: Times(0.0, x) == 0.0
  {
  }

  lemma MeanSum(s: seq<real>)
    ensures Times(|s| as real, Mean(s)) == Sum(s)
  {
    hide Mean, Sum;
    MeanTimes(s);
  }

  /** Values that are at least m have a sum of at least n times m, and exactly that only if all are m. */
  lemma {:induction false} SumBounded(s: seq<real>, m: real)
    requires forall i :: 0 <= i < |s| ==> s[i] >= m
    ensures Sum(s) >= Times(|s| as real, m)
    ensures Sum(s) == Times(|s| as real, m) ==> forall i :: 0 <= i < |s| ==> s[i] == m
  {
    hide *;
    if s == [] {
      SpreadOfNone(m);
    } else {
      var last := |s| - 1;
      var front := s[..last];
      SumBounded(front, m);
      SumLast(s);
      OneMore(last as real, m);
      assert forall i :: 0 <= i < last ==> front[i] == s[i];
    }
  }

  lemma {:induction false} SumConstant(s: seq<real>, m: real)
    requires forall i :: 0 <= i < |s| ==> s[i] == m
    ensures Sum(s) == Times(|s| as real, m) && Deviations(s, s, m, m) == 0.0
  {
    hide *;
    SpreadOfNone(m);
    if s != [] {
      var last := |s| - 1;
      SumConstant(s[..last], m);
      SumLast(s);
      SpreadLast(s, m);
      OneMore(last as real, m);
      assert s[last] - m == 0.0;
    }
  }

  /** Unless all values are equal, one lies below the mean. */
  lemma BelowMean(s: seq<real>) returns (i: nat)
    requires s != [] && !AllEqual(s)
    ensures i < |s| && s[i] < Mean(s)
  {
    hide Mean, Sum, Times;
    MeanSum(s);
    if forall k :: 0 <= k < |s| ==> s[k] >= Mean(s) {
      SumBounded(s, Mean(s));
    }
    i :| i < |s| && s[i] < Mean(s);
  }

  /** Squared deviations are at least those of any set of positions far above m. */
  lemma {:induction false} FarRows(s: seq<real>, m: real, reach: real, rows: set<nat>)
    requires reach >= 0.0 && forall k :: k in rows ==> k < |s| && s[k] - m >= reach
    ensures Deviations(s, s, m, m) >= Times(|rows| as real, Times(reach, reach))
  {
    hide *;
    SpreadOfNone(m);
    if s == [] {
      assert rows == {};
    } else {
      var last := |s| - 1;
      SpreadLast(s, m);
      if last in rows {
        var rest := rows - {last};
        FarRows(s[..last], m, reach, rest);
        SquareMonotone(reach, s[last] - m);
        OneMore(|rest| as real, Times(reach, reach));
      } else {
        FarRows(s[..last], m, reach, rows);
        Square(s[last] - m);
      }
    }
  }

  /** One value off m is enough for a positive sum of squared deviations. */
  lemma PositiveSpread(s: seq<real>, m: real, i: nat)
    requires i < |s| && s[i] != m
    ensures Deviations(s, s, m, m) > 0.0
  {
    hide *;
    var d := s[i] - m;
    Square(d);
    SpreadAtLeast(s, m, i);
  }

  lemma {:induction false} SpreadAtLeast(s: seq<real>, m: real, i: nat)
    requires i < |s|
    ensures Deviations(s, s, m, m) >= Times(s[i] - m, s[i] - m)
  {
    hide *;
    var last := |s| - 1;
    SpreadLast(s, m);
    if i < last {
      SpreadAtLeast(s[..last], m, i);
      Square(s[last] - m);
    } else {
      SpreadOfNone(0.0);
      FarRows(s[..last], m, 0.0, {});
    }
  }

  /** Chebyshev's inequality: k squares of m times a root are at most n times the square of the root. */
  lemma Chebyshev(k: real, m: real, r: real, n: real)
    requires Times(r, r) > 0.0 && Times(Times(r, r), n) >= Times(k, Times(Times(m, r), Times(m, r)))
    ensures k * (m * m) <= n
  {
    Rearranged(k, m, r);
    CancelTimes(Times(r, r), k * (m * m), n);
  }

  lemma Rearranged(k: real, m: real, r: real)
    ensures Times(k, Times(Times(m, r), Times(m, r))) == Times(Times(r, r), k * (m * m))
  {
    assert (m * r) * (m * r) == (r * r) * (m * m);
    assert k * ((r * r) * (m * m)) == (r * r) * (k * (m * m));
  }

  lemma CancelTimes(v: real, a: real, b: real)
    requires v > 0.0 && Times(v, a) <= Times(v, b)
    ensures a <= b
  {
    if b < a {
      MulBelow(b, a, v);
    }
  }
}
