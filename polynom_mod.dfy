/** Reduction modulo a polynomial m: the division identity, uniqueness of the
    remainder, and the compatibility of reduction with sums and products that
    makes multiplication modulo m associative and commutative.  On top of it,
    the reference power a^n (repeated multiplication modulo m). */
module PolynomMod {
  import opened Zp
  import opened Polynom
  import opened PolynomRing

  /** A modulus for field arithmetic: long division works and the degree is at least 1. */
  predicate IsModulus(m: Poly, p: int) {
    CanDivide(m, p) && |m| >= 2
  }

  /** Reduced modulo m: the representation of a field element. */
  predicate Reduced(a: Poly, m: Poly, p: int) {
    IsPoly(a, p) && |a| < |m|
  }

  /** ShiftN's recursive case, with the exponents as plain variables. */
  lemma ShiftNUnfold(q: Poly, d: nat, k: nat)
    requires d == k + 1
    ensures ShiftN(q, d) == Shift(ShiftN(q, k))
  {
  }

  lemma {:induction false} MulShiftNLeft(x: Poly, b: Poly, d: nat, p: int)
    requires IsPoly(x, p)
    ensures Mul(ShiftN(x, d), b, p) == ShiftN(Mul(x, b, p), d)
  {
    if d > 0 {
      var k := d - 1;
      var y := ShiftN(x, k);
      MulShiftNLeft(x, b, k, p);
      ShiftNIsPoly(x, k, p);
      MulShiftLeft(y, b, p);
      ShiftNUnfold(x, d, k);
      ShiftNUnfold(Mul(x, b, p), d, k);
    }
  }

  /** The quotient term of one long-division step: Lc(a)/Lc(m) * x^(|a| - |m|). */
  function StepQuot(a: Poly, m: Poly, p: int): (r: Poly)
    requires CanDivide(m, p) && IsPoly(a, p) && |a| >= |m|
    ensures IsPoly(r, p)
  {
    ShiftNIsPoly(Const(LeadQuot(a, m, p), p), |a| - |m|, p);
    ShiftN(Const(LeadQuot(a, m, p), p), |a| - |m|)
  }

  /** Canceller and StepQuot unfolded, with the shift as a plain variable. */
  lemma StepUnfold(a: Poly, m: Poly, d: nat, p: int)
    requires CanDivide(m, p) && IsPoly(a, p) && |a| >= |m| && d == |a| - |m|
    ensures Canceller(a, m, p) == ShiftN(Scale(LeadQuot(a, m, p), m, p), d)
    ensures StepQuot(a, m, p) == ShiftN(Const(LeadQuot(a, m, p), p), d)
  {
  }

  /** The canceller is StepQuot(a) times m. */
  lemma CancellerIsMultiple(a: Poly, m: Poly, p: int)
    requires CanDivide(m, p) && IsPoly(a, p) && |a| >= |m|
    ensures Canceller(a, m, p) == Mul(StepQuot(a, m, p), m, p)
  {
    var t := LeadQuot(a, m, p);
    var d := |a| - |m|;
    var ct := Const(t, p);
    StepUnfold(a, m, d, p);
    assert Scale(t, m, p) == Mul(ct, m, p) by {
      MulConstRight(m, t, p);
      MulComm(m, ct, p);
    }
    assert Mul(ShiftN(ct, d), m, p) == ShiftN(Mul(ct, m, p), d) by {
      MulShiftNLeft(ct, m, d, p);
    }
  }

  /** a == Mod(a) + q * m for some q: the remainder differs from a by a multiple of m. */
  lemma {:induction false} DivisionIdentity(a: Poly, m: Poly, p: int) returns (q: Poly)
    requires CanDivide(m, p) && IsPoly(a, p)
    ensures IsPoly(q, p) && a == Add(Mod(a, m, p), Mul(q, m, p), p)
    decreases |a|
  {
    if |a| < |m| {
      q := [];
      AddZero(a, p);
      assert a == Add(Mod(a, m, p), Mul(q, m, p), p);
    } else {
      var term := StepQuot(a, m, p);
      var c := Canceller(a, m, p);
      var a1 := Sub(a, c, p);
      CancellerCancels(a, m, p);
      var q1 := DivisionIdentity(a1, m, p);
      ModStep(a, m, p);
      CancellerIsMultiple(a, m, p);
      q := Add(q1, term, p);
      AddSubCancel(a, c, p);
      AddAssoc(Mod(a, m, p), Mul(q1, m, p), Mul(term, m, p), p);
      MulAddLeft(q1, term, m, p);
      assert a == Add(a1, c, p);
      assert a1 == Add(Mod(a1, m, p), Mul(q1, m, p), p);
      assert Mod(a, m, p) == Mod(a1, m, p);
      assert c == Mul(term, m, p);
      assert a == Add(Mod(a, m, p), Mul(q, m, p), p);
    }
  }

  /** Two reduced polynomials that differ by a multiple of m are equal. */
  lemma RemainderUnique(r1: Poly, q1: Poly, r2: Poly, q2: Poly, m: Poly, p: int)
    requires CanDivide(m, p)
    requires IsPoly(r1, p) && IsPoly(r2, p) && IsPoly(q1, p) && IsPoly(q2, p)
    requires |r1| < |m| && |r2| < |m|
    requires Add(r1, Mul(q1, m, p), p) == Add(r2, Mul(q2, m, p), p)
    ensures r1 == r2
  {
    var q := Add(q2, Neg(q1, p), p);
    calc {
      Sub(r1, r2, p);
    ==  { AddCancel(r1, r2, Mul(q1, m, p), Mul(q2, m, p), p); }
      Add(Mul(q2, m, p), Neg(Mul(q1, m, p), p), p);
    ==  { MulNegLeft(q1, m, p); MulAddLeft(q2, Neg(q1, p), m, p); }
      Mul(q, m, p);
    }
    if q != [] {
      MulLen(q, m, p);
    }
    SubZero(r1, r2, p);
  }

  /** Adding a multiple of m does not change the remainder. */
  lemma ModAddMultiple(x: Poly, y: Poly, m: Poly, p: int)
    requires CanDivide(m, p) && IsPoly(x, p) && IsPoly(y, p)
    ensures Mod(Add(x, Mul(y, m, p), p), m, p) == Mod(x, m, p)
  {
    var big := Add(x, Mul(y, m, p), p);
    var q1 := DivisionIdentity(big, m, p);
    var q2 := DivisionIdentity(x, m, p);
    calc {
      big;
      Add(Add(Mod(x, m, p), Mul(q2, m, p), p), Mul(y, m, p), p);
    ==  { AddAssoc(Mod(x, m, p), Mul(q2, m, p), Mul(y, m, p), p); }
      Add(Mod(x, m, p), Add(Mul(q2, m, p), Mul(y, m, p), p), p);
    ==  { MulAddLeft(q2, y, m, p); }
      Add(Mod(x, m, p), Mul(Add(q2, y, p), m, p), p);
    }
    RemainderUnique(Mod(big, m, p), q1, Mod(x, m, p), Add(q2, y, p), m, p);
  }

  /** Reduction distributes over sums. */
  lemma ModAdd(x: Poly, y: Poly, m: Poly, p: int)
    requires CanDivide(m, p) && IsPoly(x, p) && IsPoly(y, p)
    ensures Mod(Add(x, y, p), m, p) == Add(Mod(x, m, p), Mod(y, m, p), p)
  {
    var q1 := DivisionIdentity(x, m, p);
    var q2 := DivisionIdentity(y, m, p);
    var mx, my := Mod(x, m, p), Mod(y, m, p);
    calc {
      Add(x, y, p);
    ==  { AddSwap(mx, Mul(q1, m, p), my, Mul(q2, m, p), p); }
      Add(Add(mx, my, p), Add(Mul(q1, m, p), Mul(q2, m, p), p), p);
    ==  { MulAddLeft(q1, q2, m, p); }
      Add(Add(mx, my, p), Mul(Add(q1, q2, p), m, p), p);
    }
    ModAddMultiple(Add(mx, my, p), Add(q1, q2, p), m, p);
  }

  /** Reducing a factor first does not change the reduced product. */
  lemma ModMulLeft(x: Poly, c: Poly, m: Poly, p: int)
    requires CanDivide(m, p) && IsPoly(x, p) && IsPoly(c, p)
    ensures Mod(Mul(Mod(x, m, p), c, p), m, p) == Mod(Mul(x, c, p), m, p)
  {
    var q := DivisionIdentity(x, m, p);
    var mx := Mod(x, m, p);
    calc {
      Mul(x, c, p);
    ==  { MulAddLeft(mx, Mul(q, m, p), c, p); }
      Add(Mul(mx, c, p), Mul(Mul(q, m, p), c, p), p);
    ==  { MulAssoc(q, m, c, p); MulComm(m, c, p); MulAssoc(q, c, m, p); }
      Add(Mul(mx, c, p), Mul(Mul(q, c, p), m, p), p);
    }
    ModAddMultiple(Mul(mx, c, p), Mul(q, c, p), m, p);
  }

  lemma ModMulRight(a: Poly, y: Poly, m: Poly, p: int)
    requires CanDivide(m, p) && IsPoly(a, p) && IsPoly(y, p)
    ensures Mod(Mul(a, Mod(y, m, p), p), m, p) == Mod(Mul(a, y, p), m, p)
  {
    MulComm(a, Mod(y, m, p), p);
    MulComm(a, y, p);
    ModMulLeft(y, a, m, p);
  }

  // ---------------------------------------------------------------------
  // Multiplication modulo m

  /** The product reduced modulo m. */
  function MulMod(a: Poly, b: Poly, m: Poly, p: int): (r: Poly)
    requires CanDivide(m, p)
    ensures Reduced(r, m, p)
  {
    Mod(Mul(a, b, p), m, p)
  }

  lemma MulModComm(a: Poly, b: Poly, m: Poly, p: int)
    requires CanDivide(m, p) && IsPoly(a, p) && IsPoly(b, p)
    ensures MulMod(a, b, m, p) == MulMod(b, a, m, p)
  {
    MulComm(a, b, p);
  }

  lemma MulModAssoc(a: Poly, b: Poly, c: Poly, m: Poly, p: int)
    requires CanDivide(m, p) && IsPoly(a, p) && IsPoly(b, p) && IsPoly(c, p)
    ensures MulMod(MulMod(a, b, m, p), c, m, p) == MulMod(a, MulMod(b, c, m, p), m, p)
  {
    calc {
      MulMod(MulMod(a, b, m, p), c, m, p);
    ==  { ModMulLeft(Mul(a, b, p), c, m, p); }
      Mod(Mul(Mul(a, b, p), c, p), m, p);
    ==  { MulAssoc(a, b, c, p); }
      Mod(Mul(a, Mul(b, c, p), p), m, p);
    ==  { ModMulRight(a, Mul(b, c, p), m, p); }
      MulMod(a, MulMod(b, c, m, p), m, p);
    }
  }

  lemma MulModOne(a: Poly, m: Poly, p: int)
    requires CanDivide(m, p) && Reduced(a, m, p)
    ensures MulMod([1], a, m, p) == a && MulMod(a, [1], m, p) == a
  {
    MulOneLeft(a, p);
    MulOneRight(a, p);
  }

  lemma MulModZero(a: Poly, m: Poly, p: int)
    requires CanDivide(m, p) && IsPoly(a, p)
    ensures MulMod([], a, m, p) == [] && MulMod(a, [], m, p) == []
  {
    MulZeroRight(a, p);
  }

  lemma MulModAddRight(a: Poly, b: Poly, c: Poly, m: Poly, p: int)
    requires CanDivide(m, p) && IsPoly(a, p) && IsPoly(b, p) && IsPoly(c, p)
    ensures MulMod(a, Add(b, c, p), m, p) == Add(MulMod(a, b, m, p), MulMod(a, c, m, p), p)
  {
    MulAddRight(a, b, c, p);
    ModAdd(Mul(a, b, p), Mul(a, c, p), m, p);
  }

  // ---------------------------------------------------------------------
  // Powers

  /** The unit of the quotient ring: 1 reduced modulo m (it is [] when m is a constant). */
  function One(m: Poly, p: int): (r: Poly)
    requires CanDivide(m, p)
    ensures Reduced(r, m, p)
    ensures |m| >= 2 ==> r == [1]
  {
    Mod([1], m, p)
  }

  /** One is a two-sided unit for MulMod on reduced polynomials. */
  lemma MulModUnit(a: Poly, m: Poly, p: int)
    requires CanDivide(m, p) && Reduced(a, m, p)
    ensures MulMod(One(m, p), a, m, p) == a && MulMod(a, One(m, p), m, p) == a
  {
    ModMulLeft([1], a, m, p);
    MulOneLeft(a, p);
    MulModComm(One(m, p), a, m, p);
  }

  /** The reference power: a multiplied by itself n times modulo m; a^0 is One. */
  function PolyPow(a: Poly, n: nat, m: Poly, p: int): (r: Poly)
    requires CanDivide(m, p)
    ensures Reduced(r, m, p)
  {
    if n == 0 then One(m, p) else MulMod(a, PolyPow(a, n - 1, m, p), m, p)
  }

  lemma PowZero(a: Poly, m: Poly, p: int)
    requires CanDivide(m, p)
    ensures PolyPow(a, 0, m, p) == One(m, p)
  {
  }

  /** The recursive case of PolyPow, with the exponents as plain variables. */
  lemma PowUnfold(a: Poly, n: nat, k: nat, m: Poly, p: int)
    requires CanDivide(m, p) && n == k + 1
    ensures PolyPow(a, n, m, p) == MulMod(a, PolyPow(a, k, m, p), m, p)
  {
  }

  /** a^(i+j) == a^i * a^j, for n == i + j. */
  lemma {:induction false} PowAdd(a: Poly, i: nat, j: nat, n: nat, m: Poly, p: int)
    requires CanDivide(m, p) && IsPoly(a, p) && n == i + j
    ensures PolyPow(a, n, m, p) == MulMod(PolyPow(a, i, m, p), PolyPow(a, j, m, p), m, p)
  {
    var pj := PolyPow(a, j, m, p);
    if i == 0 {
      MulModUnit(pj, m, p);
      PowZero(a, m, p);
      assert n == j;
    } else {
      var i1, n1 := i - 1, n - 1;
      var pi1 := PolyPow(a, i1, m, p);
      PowAdd(a, i1, j, n1, m, p);
      MulModAssoc(a, pi1, pj, m, p);
      PowUnfold(a, n, n1, m, p);
      PowUnfold(a, i, i1, m, p);
    }
  }

  /** Squaring the base halves the exponent: (a*a)^k == a^n for n == 2k. */
  lemma {:induction false} PowSquare(a: Poly, k: nat, n: nat, m: Poly, p: int)
    requires CanDivide(m, p) && IsPoly(a, p) && n == 2 * k
    ensures PolyPow(MulMod(a, a, m, p), k, m, p) == PolyPow(a, n, m, p)
  {
    var sq := MulMod(a, a, m, p);
    if k == 0 {
      PowZero(sq, m, p);
      PowZero(a, m, p);
      assert n == 0;
    } else {
      var k1, n1, n2 := k - 1, n - 1, n - 2;
      var rest := PolyPow(a, n2, m, p);
      PowSquare(a, k1, n2, m, p);
      PowUnfold(sq, k, k1, m, p);
      MulModAssoc(a, a, rest, m, p);
      PowUnfold(a, n1, n2, m, p);
      PowUnfold(a, n, n1, m, p);
    }
  }

  lemma PowOneExp(a: Poly, m: Poly, p: int)
    requires CanDivide(m, p) && Reduced(a, m, p)
    ensures PolyPow(a, 1, m, p) == a
  {
    PowUnfold(a, 1, 0, m, p);
    PowZero(a, m, p);
    MulModUnit(a, m, p);
  }

  lemma {:induction false} PowOfOne(n: nat, m: Poly, p: int)
    requires IsModulus(m, p)
    ensures PolyPow([1], n, m, p) == [1]
  {
    if n == 0 {
      PowZero([1], m, p);
    } else {
      var k := n - 1;
      PowOfOne(k, m, p);
      PowUnfold([1], n, k, m, p);
      MulModOne([1], m, p);
    }
  }
}
