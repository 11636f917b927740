/** Bit strings of non-negative integers, and the comparison of Morton codes without computing them. */
module ZOrder {

  /** C++ `^` on non-negative integers. */
  function Xor(x: nat, y: nat): nat {
    if x == 0 && y == 0 then 0 else 2 * Xor(x / 2, y / 2) + (x % 2 + y % 2) % 2
  }

  /** One more than the position of the highest set bit. */
  function BitLength(x: nat): nat {
    if x == 0 then 0 else 1 + BitLength(x / 2)
  }

  /** The Morton code: the bits of both numbers interleaved, those of the first more significant. */
  function Interleave(x: nat, y: nat): nat {
    if x == 0 && y == 0 then 0 else 4 * Interleave(x / 2, y / 2) + 2 * (x % 2) + y % 2
  }

  predicate LessMsb(x: nat, y: nat) {
    x < y && x < Xor(x, y)
  }

  lemma {:induction false} LongerIsGreater(x: nat, y: nat)
    requires BitLength(x) < BitLength(y)
    ensures x < y
  {
    if x > 0 {
      LongerIsGreater(x / 2, y / 2);
    }
  }

  lemma {:induction false} XorLength(x: nat, y: nat)
    ensures BitLength(x) < BitLength(y) ==> BitLength(Xor(x, y)) == BitLength(y)
    ensures BitLength(x) == BitLength(y) > 0 ==> BitLength(Xor(x, y)) < BitLength(x)
  {
    if x > 0 || y > 0 {
      XorLength(x / 2, y / 2);
      assert Xor(x, y) / 2 == Xor(x / 2, y / 2);
    }
  }

  /** The bit trick compares the positions of the highest set bits. */
  lemma LessMsbMeaning(x: nat, y: nat)
    ensures LessMsb(x, y) <==> BitLength(x) < BitLength(y)
  {
    XorLength(x, y);
    if BitLength(x) < BitLength(y) {
      LongerIsGreater(x, y);
      LongerIsGreater(x, Xor(x, y));
    } else if BitLength(y) < BitLength(x) {
      LongerIsGreater(y, x);
    } else if x > 0 {
      LongerIsGreater(Xor(x, y), x);
    }
  }

  lemma {:induction false} XorZero(x: nat, y: nat)
    ensures Xor(x, y) == 0 <==> x == y
  {
    if x > 0 || y > 0 {
      XorZero(x / 2, y / 2);
    }
  }

  lemma {:induction false} InterleaveInjective(a: (nat, nat), b: (nat, nat))
    requires Interleave(a.0, a.1) == Interleave(b.0, b.1)
    ensures a == b
    decreases a.0 + a.1 + b.0 + b.1
  {
    if a != (0, 0) || b != (0, 0) {
      hide Interleave;
      CodeParts(a.0, a.1);
      CodeParts(b.0, b.1);
      BitsApart(a.0 % 2, a.1 % 2, b.0 % 2, b.1 % 2);
      assert Interleave(a.0 / 2, a.1 / 2) == Interleave(b.0 / 2, b.1 / 2);
      InterleaveInjective((a.0 / 2, a.1 / 2), (b.0 / 2, b.1 / 2));
      assert a.0 == 2 * (a.0 / 2) + a.0 % 2 && a.1 == 2 * (a.1 / 2) + a.1 % 2;
    }
  }

  lemma BitsApart(x: nat, y: nat, u: nat, v: nat)
    requires x < 2 && y < 2 && u < 2 && v < 2
    ensures 2 * x + y == 2 * u + v ==> x == u && y == v
  {
  }

  lemma CodeParts(x: nat, y: nat)
    ensures Interleave(x, y) == 4 * Interleave(x / 2, y / 2) + 2 * (x % 2) + y % 2
    ensures Interleave(x, y) / 4 == Interleave(x / 2, y / 2)
    ensures Interleave(x, y) % 4 == 2 * (x % 2) + y % 2
  {
  }

  /** The coordinate that decides: the second one only if it differs in a higher bit than the first. */
  predicate SecondDecides(a: (nat, nat), b: (nat, nat)) {
    BitLength(Xor(a.0, b.0)) < BitLength(Xor(a.1, b.1))
  }

  /** The codes compare as the deciding coordinates do. */
  lemma {:induction false} CodeOrder(a: (nat, nat), b: (nat, nat))
    ensures Interleave(a.0, a.1) < Interleave(b.0, b.1) <==>
            if SecondDecides(a, b) then a.1 < b.1 else a.0 < b.0
    decreases a.0 + a.1 + b.0 + b.1
  {
    var ha, hb := (a.0 / 2, a.1 / 2), (b.0 / 2, b.1 / 2);
    CodeParts(a.0, a.1);
    CodeParts(b.0, b.1);
    XorParts(a.0, b.0);
    XorParts(a.1, b.1);
    XorZero(a.0, b.0);
    XorZero(a.1, b.1);
    XorZero(ha.0, hb.0);
    XorZero(ha.1, hb.1);
    if ha != hb {
      CodeOrder(ha, hb);
      if Interleave(ha.0, ha.1) == Interleave(hb.0, hb.1) {
        InterleaveInjective(ha, hb);
      }
      SameDecision(a, b);
    }
  }

  lemma XorParts(x: nat, y: nat)
    ensures Xor(x, y) / 2 == Xor(x / 2, y / 2) && Xor(x, y) % 2 == (x % 2 + y % 2) % 2
  {
  }

  lemma SameDecision(a: (nat, nat), b: (nat, nat))
    requires (a.0 / 2, a.1 / 2) != (b.0 / 2, b.1 / 2)
    ensures SecondDecides(a, b) <==> SecondDecides((a.0 / 2, a.1 / 2), (b.0 / 2, b.1 / 2))
    ensures if SecondDecides(a, b) then a.1 / 2 != b.1 / 2 else a.0 / 2 != b.0 / 2
  {
    XorParts(a.0, b.0);
    XorParts(a.1, b.1);
    XorZero(a.0 / 2, b.0 / 2);
    XorZero(a.1 / 2, b.1 / 2);
    var x0, x1 := Xor(a.0, b.0), Xor(a.1, b.1);
    assert x0 > 0 ==> BitLength(x0) == 1 + BitLength(x0 / 2);
    assert x1 > 0 ==> BitLength(x1) == 1 + BitLength(x1 / 2);
  }

  function Power2(bits: nat): (p: nat)
    ensures p > 0
  {
    if bits == 0 then 1 else 2 * Power2(bits - 1)
  }

  lemma {:induction false} PowerAdd(a: nat, b: nat)
    ensures Power2(a + b) == Power2(a) * Power2(b)
  {
    if b > 0 {
      PowerAdd(a, b - 1);
    }
  }

  lemma Power2At30()
    ensures Power2(30) == 0x4000_0000
  {
    assert Power2(2) == 4 && Power2(3) == 8 && Power2(5) == 32;
    PowerAdd(5, 5);
    PowerAdd(10, 10);
    PowerAdd(20, 10);
  }

  lemma {:induction false} CodePositive(x: nat, y: nat)
    ensures Interleave(x, y) == 0 <==> x == 0 && y == 0
    decreases x + y
  {
    if x > 0 || y > 0 {
      CodePositive(x / 2, y / 2);
    }
  }

  /** The highest bit of the first coordinate decides, if the second one is no longer. */
  lemma {:induction false} HighBitDecides(bits: nat, a: (nat, nat), b: (nat, nat))
    requires a.0 < Power2(bits) <= b.0 && a.1 < 2 * Power2(bits)
    ensures Interleave(a.0, a.1) < Interleave(b.0, b.1)
  {
    CodeParts(a.0, a.1);
    CodeParts(b.0, b.1);
    if bits == 0 {
      CodePositive(a.0 / 2, a.1 / 2);
      CodePositive(b.0 / 2, b.1 / 2);
    } else {
      HighBitDecides(bits - 1, (a.0 / 2, a.1 / 2), (b.0 / 2, b.1 / 2));
    }
  }

  /** The comparator of the map on two pairs of scaled coordinates. */
  predicate CmpZOrder(a: (nat, nat), b: (nat, nat)) {
    var y0, y1 := Xor(a.0, b.0), Xor(a.1, b.1);
    var x := if LessMsb(0, y0) then y0 else 0;
    if LessMsb(x, y1) then a.1 < b.1 else a.0 < b.0
  }

  /** It orders pairs as their codes are ordered. */
  lemma CmpZOrderMeaning(a: (nat, nat), b: (nat, nat))
    ensures CmpZOrder(a, b) <==> Interleave(a.0, a.1) < Interleave(b.0, b.1)
  {
    var y0, y1 := Xor(a.0, b.0), Xor(a.1, b.1);
    LessMsbMeaning(0, y0);
    LessMsbMeaning(y0, y1);
    CodeOrder(a, b);
    hide Xor, LessMsb, Interleave;
    assert y0 == 0 ==> BitLength(y0) == 0;
    assert LessMsb(0, y0) || y0 == 0;
  }

  /** So it is a strict total order on pairs. */
  lemma CmpZOrderTotal(a: (nat, nat), b: (nat, nat), c: (nat, nat))
    ensures CmpZOrder(a, b) ==> !CmpZOrder(b, a)
    ensures CmpZOrder(a, b) && CmpZOrder(b, c) ==> CmpZOrder(a, c)
    ensures a == b || CmpZOrder(a, b) || CmpZOrder(b, a)
  {
    hide CmpZOrder, Interleave;
    CmpZOrderMeaning(a, b);
    CmpZOrderMeaning(b, a);
    CmpZOrderMeaning(b, c);
    CmpZOrderMeaning(a, c);
    if Interleave(a.0, a.1) == Interleave(b.0, b.1) {
      InterleaveInjective(a, b);
    }
  }

  /** The loop of the comparator: it keeps the axis whose values differ in the highest bit. */
  method Compare(a: seq<nat>, b: seq<nat>) returns (less: bool)
    requires |a| == |b| == 2
    ensures less <==> CmpZOrder((a[0], a[1]), (b[0], b[1]))
    ensures less <==> Interleave(a[0], a[1]) < Interleave(b[0], b[1])
  {
    hide Xor, LessMsb;
    var j, x := 0, 0;
    for k := 0 to 2
      invariant 0 <= j < 2
      invariant k == 0 ==> j == 0 && x == 0
      invariant k == 1 ==> j == 0 && x == if LessMsb(0, Xor(a[0], b[0])) then Xor(a[0], b[0]) else 0
      invariant k == 2 ==>
        (j == 1 <==> LessMsb(if LessMsb(0, Xor(a[0], b[0])) then Xor(a[0], b[0]) else 0, Xor(a[1], b[1])))
    {
      var y := Xor(a[k], b[k]);
      if LessMsb(x, y) {
        j := k;
        x := y;
      }
    }
    CmpZOrderMeaning((a[0], a[1]), (b[0], b[1]));
    less := a[j] as int - b[j] as int < 0;
  }
}
