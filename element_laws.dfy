// Laws of the element operations: within one field with a usable modulus, Add, Neg and
// Mult make the reduced elements a commutative ring, Sub undoes Add, and Division undoes
// Mult whenever Inv really inverts. Concrete fields check Inv against the inverse.
module ElementLaws {
  import opened Wrappers
  import opened Zp
  import opened Polynom
  import opened PolynomRing
  import opened PolynomMod
  import opened FiniteField
  import opened FieldElement

  // ---------------------------------------------------------------------
  // Addition

  lemma AddComm(a: Element, b: Element)
    requires Wf(a) && Wf(b) && a.field == b.field
    ensures FieldElement.Add(a, b) == FieldElement.Add(b, a)
  {
    PolynomRing.AddComm(a.pol, b.pol, a.field.p);
  }

  lemma AddAssoc(a: Element, b: Element, c: Element)
    requires Wf(a) && Wf(b) && Wf(c) && a.field == b.field == c.field
    ensures FieldElement.Add(a, b).Success? && FieldElement.Add(b, c).Success?
    ensures FieldElement.Add(FieldElement.Add(a, b).value, c) == FieldElement.Add(a, FieldElement.Add(b, c).value)
  {
    PolynomRing.AddAssoc(a.pol, b.pol, c.pol, a.field.p);
  }

  /** Zero is the additive unit. */
  lemma AddZero(e: Element)
    requires Wf(e)
    ensures FieldElement.Add(e, GetZero(e.field)) == Success(e)
    ensures FieldElement.Add(GetZero(e.field), e) == Success(e)
  {
    PolynomRing.AddZero(e.pol, e.field.p);
  }

  /** Neg gives the additive inverse. */
  lemma AddNeg(e: Element)
    requires Wf(e)
    ensures FieldElement.Add(e, FieldElement.Neg(e)) == Success(GetZero(e.field))
  {
    AddNegSelf(e.pol, e.field.p);
  }

  /** Subtracting and adding back returns the original element. */
  lemma SubAddCancel(a: Element, b: Element)
    requires Wf(a) && Wf(b) && a.field == b.field
    ensures FieldElement.Sub(a, b).Success?
    ensures FieldElement.Add(FieldElement.Sub(a, b).value, b) == Success(a)
  {
    AddSubCancel(a.pol, b.pol, a.field.p);
  }

  /** a - b is zero exactly when a == b. */
  lemma SubZeroIffEqual(a: Element, b: Element)
    requires Wf(a) && Wf(b) && a.field == b.field
    ensures FieldElement.Sub(a, b).Success?
    ensures FieldElement.IsZero(FieldElement.Sub(a, b).value) <==> AreEqual(a, b)
  {
    if FieldElement.IsZero(FieldElement.Sub(a, b).value) {
      SubZero(a.pol, b.pol, a.field.p);
    } else {
      AddNegSelf(a.pol, a.field.p);
    }
  }

  // ---------------------------------------------------------------------
  // Multiplication

  lemma MultComm(a: Element, b: Element)
    requires Wf(a) && Wf(b) && a.field == b.field
    ensures Mult(a, b) == Mult(b, a)
  {
    if HasModulus(a.field) {
      MulComm(a.pol, b.pol, a.field.p);
    }
  }

  lemma MultAssoc(a: Element, b: Element, c: Element)
    requires Wf(a) && Wf(b) && Wf(c) && a.field == b.field == c.field && HasModulus(a.field)
    ensures Mult(a, b).Success? && Mult(b, c).Success?
    ensures Mult(Mult(a, b).value, c) == Mult(a, Mult(b, c).value)
  {
    MulModAssoc(a.pol, b.pol, c.pol, a.field.pol.value, a.field.p);
  }

  /** The identity is the multiplicative unit on reduced elements. */
  lemma MultIdentity(e: Element)
    requires InField(e)
    ensures Mult(GetIdentity(e.field), e) == Success(e)
    ensures Mult(e, GetIdentity(e.field)) == Success(e)
  {
    MulModOne(e.pol, e.field.pol.value, e.field.p);
  }

  /** Zero absorbs. */
  lemma MultZero(e: Element)
    requires Wf(e) && HasModulus(e.field)
    ensures Mult(GetZero(e.field), e) == Success(GetZero(e.field))
    ensures Mult(e, GetZero(e.field)) == Success(GetZero(e.field))
  {
    MulModZero(e.pol, e.field.pol.value, e.field.p);
  }

  /** Multiplication distributes over addition. */
  lemma MultDistrib(a: Element, b: Element, c: Element)
    requires Wf(a) && Wf(b) && Wf(c) && a.field == b.field == c.field && HasModulus(a.field)
    ensures FieldElement.Add(b, c).Success? && Mult(a, b).Success? && Mult(a, c).Success?
    ensures Mult(a, FieldElement.Add(b, c).value) == FieldElement.Add(Mult(a, b).value, Mult(a, c).value)
  {
    MulModAddRight(a.pol, b.pol, c.pol, a.field.pol.value, a.field.p);
  }

  // ---------------------------------------------------------------------
  // Division and inverse

  /** Whenever Inv(b) is a true inverse of b, Division(a, b) * b == a. */
  lemma DivisionUndoesMult(a: Element, b: Element)
    requires InField(a) && InField(b) && a.field == b.field && !FieldElement.IsZero(b)
    requires Inv(b).Success? && Mult(b, Inv(b).value) == Success(GetIdentity(b.field))
    ensures Division(a, b).Success?
    ensures Mult(Division(a, b).value, b) == Success(a)
  {
    var t := Inv(b).value;
    MultAssoc(a, t, b);
    MultComm(t, b);
    MultIdentity(a);
  }

  /** Division by zero fails; with a usable modulus, division by anything else succeeds. */
  lemma DivisionFailsOnlyOnZero(a: Element, b: Element)
    requires Wf(a) && Wf(b) && a.field == b.field && HasModulus(a.field)
    ensures Division(a, b).Failure? <==> FieldElement.IsZero(b)
  {
  }

  /** GF(4) as GF(2)[x] / (x^2 + x + 1). */
  function GF4(): Field {
    CreateFq(2, 2, [1, 1, 1])
  }

  lemma GF4Shape()
    ensures GF4() == Field(2, Some([1, 1, 1])) && CanDivide([1, 1, 1], 2)
  {
    var m := GF4().pol.value;
    CoefFromArray([1, 1, 1], 3, 2);
    assert forall i: nat :: Coef(m, i) == Coef([1, 1, 1], i);
    Ext(m, [1, 1, 1]);
    InvCOfOne(2);
  }

  /** Subtracting x^2 + x + 1 from a quadratic over GF(2) adds 1 to every coefficient. */
  lemma SubGF4Modulus(a: Poly, r: Poly)
    requires IsPoly(a, 2) && |a| == 3 && IsPoly(r, 2) && |r| <= 2
    requires Coef(r, 0) == AddC(a[0], 1, 2) && Coef(r, 1) == AddC(a[1], 1, 2) && Coef(r, 2) == AddC(a[2], 1, 2)
    ensures Polynom.Sub(a, [1, 1, 1], 2) == r
  {
    var m := [1, 1, 1];
    var d := Polynom.Sub(a, m, 2);
    CoefAdd(a, Polynom.Neg(m, 2), 2);
    CoefNeg(m, 2);
    forall i: nat ensures Coef(d, i) == Coef(r, i) {
      assert Coef(d, i) == AddC(Coef(a, i), NegC(Coef(m, i), 2), 2);
      if i < 3 {
        assert Coef(r, i) == AddC(a[i], 1, 2);
      } else {
        assert Coef(a, i) == 0 && Coef(m, i) == 0 && Coef(r, i) == 0;
      }
    }
    Ext(d, r);
  }

  /** A quadratic over GF(2) is reduced by one subtraction of the modulus. */
  lemma ReduceGF4(a: Poly, r: Poly)
    requires IsPoly(a, 2) && |a| == 3 && IsPoly(r, 2) && |r| <= 2
    requires Coef(r, 0) == AddC(a[0], 1, 2) && Coef(r, 1) == AddC(a[1], 1, 2) && Coef(r, 2) == AddC(a[2], 1, 2)
    requires CanDivide([1, 1, 1], 2)
    ensures Mod(a, [1, 1, 1], 2) == r
  {
    var m := [1, 1, 1];
    assert LeadQuot(a, m, 2) == 1 by {
      InvCOfOne(2);
    }
    assert Canceller(a, m, 2) == m by {
      StepUnfold(a, m, 0, 2);
      ScaleOne(m, 2);
    }
    assert Polynom.Sub(a, m, 2) == r by {
      SubGF4Modulus(a, r);
    }
    ModStep(a, m, 2);
  }

  // The concrete lemmas below take their polynomials as parameters fixed by their
  // preconditions, so that the verifier reasons from the stated steps instead of
  // evaluating the recursive definitions on literal arguments.

  /** x * x == x + 1 in GF(4). */
  lemma XSquaredGF4(x: Poly, m: Poly)
    requires x == [0, 1] && m == [1, 1, 1]
    ensures CanDivide(m, 2) && MulMod(x, x, m, 2) == [1, 1]
  {
    GF4Shape();
    assert Mul(x, x, 2) == [0, 0, 1] by {
      MulByX(x, 2);
    }
    assert Mod([0, 0, 1], m, 2) == [1, 1] by {
      ReduceGF4([0, 0, 1], [1, 1]);
    }
  }

  /** x * (x + 1) == 1 in GF(4). */
  lemma XTimesXPlusOneGF4(x: Poly, y: Poly, m: Poly)
    requires x == [0, 1] && y == [1, 1] && m == [1, 1, 1]
    ensures CanDivide(m, 2) && MulMod(x, y, m, 2) == [1]
  {
    GF4Shape();
    assert Mul(x, y, 2) == [0, 1, 1] by {
      MulByX(y, 2);
    }
    assert Mod([0, 1, 1], m, 2) == [1] by {
      ReduceGF4([0, 1, 1], [1]);
    }
  }

  /** GF(4) has 4 elements, so Inv raises to the power 2. */
  lemma InvExponentGF4()
    ensures InvExponent(GF4()) == 2
  {
    GF4Shape();
    assert IntPow(2, 2) == 2 * IntPow(2, 1);
    assert IntPow(2, 1) == 2 * IntPow(2, 0);
  }

  /** x^2 == x + 1 in GF(4), as a power. */
  lemma PowXGF4(x: Poly, m: Poly)
    requires x == [0, 1] && m == [1, 1, 1]
    ensures CanDivide(m, 2) && PolyPow(x, 2, m, 2) == [1, 1]
  {
    XSquaredGF4(x, m);
    PowUnfold(x, 2, 1, m, 2);
    PowOneExp(x, m, 2);
  }

  /** In GF(4) the inverse of x is x + 1 (exponent 4 - 2 == 2), and x * (x + 1) == 1. */
  lemma InvInGF4(x: Element, y: Element)
    requires x == Element([0, 1], GF4()) && y == Element([1, 1], GF4())
    ensures Inv(x) == Success(y)
    ensures Mult(x, y) == Success(GetIdentity(x.field))
  {
    GF4Shape();
    var m := x.field.pol.value;
    assert m == [1, 1, 1] && x.field.p == 2;
    assert Wf(x) && InField(x);
    assert Inv(x) == ElementPow(x, 2) by {
      InvExponentGF4();
    }
    assert ElementPow(x, 2) == Success(y) by {
      assert !FieldElement.IsZero(x) && !FieldElement.IsIdentity(x) && HasModulus(x.field);
      PowXGF4(x.pol, m);
    }
    XTimesXPlusOneGF4(x.pol, y.pol, m);
  }

  // ---------------------------------------------------------------------
  // Prime fields: with the placeholder modulus x, elements are the constants mod p

  /** The product of two constants is the constant of the integer product, mod p. */
  lemma ConstMul(a: int, b: int, p: int)
    requires p >= 2
    ensures Mul(Const(a, p), Const(b, p), p) == Const(a * b, p)
  {
    var c := Const(a, p);
    var bp := b % p;
    assert Const(bp, p) == Const(b, p) by {
      ModOfCoef(bp, p);
    }
    MulConstRight(c, bp, p);
    var s := Scale(bp, c, p);
    CoefScale(bp, c, p);
    CoefConst(a, p);
    CoefConst(a * b, p);
    forall i: nat ensures Coef(s, i) == Coef(Const(a * b, p), i) {
      if i == 0 {
        assert Coef(s, 0) == (bp * (a % p)) % p;
        Zp.ModMulRight(bp, a, p);
        Zp.ModMulLeft(b, a, p);
        assert b * a == a * b;
      } else {
        assert bp * 0 == 0;
      }
    }
    Ext(s, Const(a * b, p));
  }

  /** Modulo x, constants multiply as integers mod p. */
  lemma ConstMulMod(a: int, b: int, p: int)
    requires p >= 2
    ensures CanDivide([0, 1], p) && MulMod(Const(a, p), Const(b, p), [0, 1], p) == Const(a * b, p)
  {
    InvCOfOne(p);
    ConstMul(a, b, p);
  }

  /** One more factor: if a^k is the constant a^k mod p, so is a^(k+1). */
  lemma PowConstStep(a: int, n: nat, k: nat, p: int)
    requires p >= 2 && CanDivide([0, 1], p) && n == k + 1
    requires PolyPow(Const(a, p), k, [0, 1], p) == Const(IntPow(a, k), p)
    ensures PolyPow(Const(a, p), n, [0, 1], p) == Const(IntPow(a, n), p)
  {
    var m := [0, 1];
    var ca := Const(a, p);
    var ik := IntPow(a, k);
    var prod := a * ik;
    assert IntPow(a, n) == prod by {
      IntPowStep(a, n, k);
    }
    assert PolyPow(ca, n, m, p) == MulMod(ca, Const(ik, p), m, p) by {
      PowUnfold(ca, n, k, m, p);
    }
    assert MulMod(ca, Const(ik, p), m, p) == Const(prod, p) by {
      ConstMulMod(a, ik, p);
    }
  }

  /** One more factor of a. */
  lemma IntPowStep(a: int, n: nat, k: nat)
    requires n == k + 1
    ensures IntPow(a, n) == a * IntPow(a, k)
  {
  }

  /** a^0 is the constant 1. */
  lemma PowConstZero(a: int, p: int)
    requires p >= 2 && CanDivide([0, 1], p)
    ensures PolyPow(Const(a, p), 0, [0, 1], p) == Const(IntPow(a, 0), p)
  {
    assert Const(1, p) == [1] by {
      ModOfCoef(1, p);
    }
  }

  /** Modulo x, the n-th power of a constant is the constant of the integer power. */
  lemma {:induction false} PowConst(a: int, n: nat, p: int)
    requires p >= 2
    ensures CanDivide([0, 1], p)
    ensures PolyPow(Const(a, p), n, [0, 1], p) == Const(IntPow(a, n), p)
  {
    InvCOfOne(p);
    if n == 0 {
      PowConstZero(a, p);
    } else {
      var k: nat := n - 1;
      PowConst(a, k, p);
      PowConstStep(a, n, k, p);
    }
  }

  /** A prime field as CreateFp builds it: Z/pZ with the placeholder modulus x. */
  predicate IsPrimeField(f: Field) {
    ValidField(f) && f.pol == Some([0, 1])
  }

  lemma CreateFpIsPrimeField(p: int)
    requires 2 <= p < 256
    ensures IsPrimeField(CreateFp(p)) && CreateFp(p).p == p
  {
  }

  /** In GF(p) the product of the classes of a and b is the class of a * b. */
  lemma MultInPrimeField(f: Field, a: int, b: int)
    requires IsPrimeField(f)
    ensures Mult(Element(Const(a, f.p), f), Element(Const(b, f.p), f)) == Success(Element(Const(a * b, f.p), f))
  {
    ConstMulMod(a, b, f.p);
    MultIsMulMod(Element(Const(a, f.p), f), Element(Const(b, f.p), f));
  }

  /** In GF(p) the n-th power of the class of a non-zero a is the class of a^n. */
  lemma PowInPrimeField(f: Field, a: int, n: nat)
    requires IsPrimeField(f) && a % f.p != 0
    ensures ElementPow(Element(Const(a, f.p), f), n) == Success(Element(Const(IntPow(a, n), f.p), f))
  {
    var p := f.p;
    var ca := Const(a, p);
    var r := Const(IntPow(a, n), p);
    assert HasModulus(f) by {
      InvCOfOne(p);
    }
    assert ca != [] by {
      CoefConst(a, p);
      assert Coef(ca, 0) != 0;
    }
    assert PolyPow(ca, n, [0, 1], p) == r by {
      PowConst(a, n, p);
    }
    if ca == [1] {
      assert r == [1] by {
        PowOfOne(n, [0, 1], p);
      }
    } else if n == 0 {
      assert r == [1] by {
        PowConstZero(a, p);
      }
    }
  }

  /** The number of elements of GF(p) is p, so Inv raises to the power p - 2. */
  lemma InvExponentPrimeField(f: Field)
    requires IsPrimeField(f)
    ensures InvExponent(f) == f.p - 2
  {
    assert IntPow(f.p, 1) == f.p * IntPow(f.p, 0);
  }

  /** In GF(p) Inv takes the class of a non-zero a to the class of a^(p-2). */
  lemma InvInPrimeField(f: Field, a: int, n: nat)
    requires IsPrimeField(f) && a % f.p != 0 && n == f.p - 2
    ensures Inv(Element(Const(a, f.p), f)) == Success(Element(Const(IntPow(a, n), f.p), f))
  {
    var e := Element(Const(a, f.p), f);
    assert Inv(e) == ElementPow(e, n) by {
      CoefConst(a, f.p);
      assert Coef(e.pol, 0) != 0;
      InvExponentPrimeField(f);
    }
    PowInPrimeField(f, a, n);
  }

  /** In GF(5) the inverse of 2 is 3 (2^(5-2) == 8), and 2 * 3 == 1. */
  lemma InvInGF5(f: Field)
    requires IsPrimeField(f) && f.p == 5
    ensures Inv(Element([2], f)) == Success(Element([3], f))
    ensures Mult(Element([2], f), Element([3], f)) == Success(GetIdentity(f))
  {
    assert Const(2, 5) == [2] && Const(8, 5) == [3] && Const(6, 5) == [1];
    assert IntPow(2, 3) == 8;
    InvInPrimeField(f, 2, 3);
    MultInPrimeField(f, 2, 3);
  }

  // ---------------------------------------------------------------------
  // The generator's field GF(2^8): the inverse of x
  //
  // Powers of x are evaluated on 8-bit words, where multiplying by x is a shift
  // followed by an exclusive or with the low byte of the modulus; TimesXMulMod
  // ties that shift to MulMod once, for every word.

  /** The mask of bit i. */
  const BitMasks: seq<bv8> := [0x01, 0x02, 0x04, 0x08, 0x10, 0x20, 0x40, 0x80]

  /** Bit i of w, as a coefficient of GF(2). */
  function BitCoef(w: bv8, i: nat): (c: int)
    requires i < 8
    ensures IsCoef(c, 2)
  {
    if w & BitMasks[i] == 0 then 0 else 1
  }

  /** The GF(2) polynomial whose coefficient of x^i is bit i of w. */
  function WordPoly(w: bv8): (r: Poly)
    ensures IsPoly(r, 2) && |r| <= 8
    ensures forall i: nat {:trigger Coef(r, i)} :: Coef(r, i) == if i < 8 then BitCoef(w, i) else 0
  {
    var raw := seq(8, i requires 0 <= i < 8 => BitCoef(w, i));
    CoefTrim(raw);
    Trim(raw)
  }

  /** x * w in GF(2^8): a shift, reduced by x^8 == x^7 + x^6 + x^5 + x^4 + x^3 + 1. */
  function TimesX(w: bv8): bv8 {
    if w & 0x80 == 0 then w << 1 else (w << 1) ^ 0xF9
  }

  /** The bits of TimesX: bit 0 is the old top bit, bit i the old bit i - 1 plus the modulus. */
  lemma TimesXBits(w: bv8, i: nat, j: nat)
    requires i < 8 && j < 8 && i == j + 1
    ensures BitCoef(TimesX(w), 0) == BitCoef(w, 7)
    ensures BitCoef(TimesX(w), i) == AddC(BitCoef(w, j), if i < 3 then 0 else BitCoef(w, 7), 2)
  {
  }

  /** Without a top bit, x * w is the shifted polynomial. */
  lemma ShiftLowWord(w: bv8)
    requires w & 0x80 == 0
    ensures Shift(WordPoly(w)) == WordPoly(TimesX(w))
  {
    var a := WordPoly(w);
    var s := Shift(a);
    var r := WordPoly(TimesX(w));
    CoefShift(a);
    forall i: nat ensures Coef(s, i) == Coef(r, i) {
      if 0 < i < 8 {
        var j: nat := i - 1;
        TimesXBits(w, i, j);
        ModOfCoef(BitCoef(w, j), 2);
      } else if i == 0 {
        TimesXBits(w, 1, 0);
      }
    }
    Ext(s, r);
  }

  /** With the top bit set, x * w minus the modulus is TimesX of w. */
  lemma ShiftHighWord(w: bv8, m: Poly)
    requires w & 0x80 != 0 && m == [1, 0, 0, 1, 1, 1, 1, 1, 1]
    ensures Polynom.Sub(Shift(WordPoly(w)), m, 2) == WordPoly(TimesX(w))
  {
    var a := WordPoly(w);
    var s := Shift(a);
    var r := WordPoly(TimesX(w));
    var d := Polynom.Sub(s, m, 2);
    CoefShift(a);
    CoefAdd(s, Polynom.Neg(m, 2), 2);
    CoefNeg(m, 2);
    forall i: nat ensures Coef(d, i) == Coef(r, i) {
      assert Coef(d, i) == AddC(Coef(s, i), NegC(Coef(m, i), 2), 2);
      if 0 < i < 8 {
        var j: nat := i - 1;
        TimesXBits(w, i, j);
      } else if i == 0 {
        TimesXBits(w, 1, 0);
      }
    }
    Ext(d, r);
  }

  /** A word's polynomial has degree 7 exactly when its top bit is set. */
  lemma WordPolyLength(w: bv8)
    ensures w & 0x80 == 0 ==> |WordPoly(w)| < 8
    ensures w & 0x80 != 0 ==> |WordPoly(w)| == 8
  {
    var a := WordPoly(w);
    assert Coef(a, 7) == BitCoef(w, 7);
    if |a| == 8 {
      assert a[7] == Coef(a, 7);
    }
  }

  /** With the top bit set, one subtraction of the modulus reduces x * w to TimesX of w. */
  lemma ReduceHighWord(w: bv8, m: Poly)
    requires w & 0x80 != 0 && m == [1, 0, 0, 1, 1, 1, 1, 1, 1]
    ensures CanDivide(m, 2) && Mod(Shift(WordPoly(w)), m, 2) == WordPoly(TimesX(w))
  {
    InvCOfOne(2);
    var a := WordPoly(w);
    var s := Shift(a);
    ShiftIsPoly(a, 2);
    WordPolyLength(w);
    assert LeadQuot(s, m, 2) == 1 by {
      assert Lc(s) == 1 && Lc(m) == 1;
    }
    assert Canceller(s, m, 2) == m by {
      StepUnfold(s, m, 0, 2);
      ScaleOne(m, 2);
    }
    ShiftHighWord(w, m);
    ModStep(s, m, 2);
  }

  /** Without the top bit, x * w needs no reduction. */
  lemma ReduceLowWord(w: bv8, m: Poly)
    requires w & 0x80 == 0 && m == [1, 0, 0, 1, 1, 1, 1, 1, 1]
    ensures CanDivide(m, 2) && Mod(Shift(WordPoly(w)), m, 2) == WordPoly(TimesX(w))
  {
    InvCOfOne(2);
    WordPolyLength(w);
    ShiftIsPoly(WordPoly(w), 2);
    ShiftLowWord(w);
  }

  /** Multiplying a word's polynomial by x modulo the GF(2^8) modulus gives TimesX of the word. */
  lemma TimesXMulMod(w: bv8, x: Poly, m: Poly)
    requires x == [0, 1] && m == [1, 0, 0, 1, 1, 1, 1, 1, 1]
    ensures CanDivide(m, 2) && MulMod(x, WordPoly(w), m, 2) == WordPoly(TimesX(w))
  {
    MulByX(WordPoly(w), 2);
    if w & 0x80 == 0 {
      ReduceLowWord(w, m);
    } else {
      ReduceHighWord(w, m);
    }
  }

  /** x^n is TimesX of x^k when n == k + 1. */
  lemma PowXStep(w: bv8, k: nat, n: nat, x: Poly, m: Poly)
    requires x == [0, 1] && m == [1, 0, 0, 1, 1, 1, 1, 1, 1] && n == k + 1
    requires CanDivide(m, 2) && PolyPow(x, k, m, 2) == WordPoly(w)
    ensures PolyPow(x, n, m, 2) == WordPoly(TimesX(w))
  {
    PowUnfold(x, n, k, m, 2);
    TimesXMulMod(w, x, m);
  }

  // TimesX applied 2, 4, ..., 128 times, and the matching steps between powers of x.

  function TimesX2(w: bv8): bv8 { TimesX(TimesX(w)) }
  function TimesX4(w: bv8): bv8 { TimesX2(TimesX2(w)) }
  function TimesX8(w: bv8): bv8 { TimesX4(TimesX4(w)) }
  function TimesX16(w: bv8): bv8 { TimesX8(TimesX8(w)) }
  function TimesX32(w: bv8): bv8 { TimesX16(TimesX16(w)) }
  function TimesX64(w: bv8): bv8 { TimesX32(TimesX32(w)) }
  function TimesX128(w: bv8): bv8 { TimesX64(TimesX64(w)) }

  lemma PowX2(w: bv8, k: nat, n: nat, x: Poly, m: Poly)
    requires x == [0, 1] && m == [1, 0, 0, 1, 1, 1, 1, 1, 1] && n == k + 2
    requires CanDivide(m, 2) && PolyPow(x, k, m, 2) == WordPoly(w)
    ensures PolyPow(x, n, m, 2) == WordPoly(TimesX2(w))
  {
    var h: nat := k + 1;
    PowXStep(w, k, h, x, m);
    PowXStep(TimesX(w), h, n, x, m);
  }

  lemma PowX4(w: bv8, k: nat, n: nat, x: Poly, m: Poly)
    requires x == [0, 1] && m == [1, 0, 0, 1, 1, 1, 1, 1, 1] && n == k + 4
    requires CanDivide(m, 2) && PolyPow(x, k, m, 2) == WordPoly(w)
    ensures PolyPow(x, n, m, 2) == WordPoly(TimesX4(w))
  {
    var h: nat := k + 2;
    PowX2(w, k, h, x, m);
    PowX2(TimesX2(w), h, n, x, m);
  }

  lemma PowX8(w: bv8, k: nat, n: nat, x: Poly, m: Poly)
    requires x == [0, 1] && m == [1, 0, 0, 1, 1, 1, 1, 1, 1] && n == k + 8
    requires CanDivide(m, 2) && PolyPow(x, k, m, 2) == WordPoly(w)
    ensures PolyPow(x, n, m, 2) == WordPoly(TimesX8(w))
  {
    var h: nat := k + 4;
    PowX4(w, k, h, x, m);
    PowX4(TimesX4(w), h, n, x, m);
  }

  lemma PowX16(w: bv8, k: nat, n: nat, x: Poly, m: Poly)
    requires x == [0, 1] && m == [1, 0, 0, 1, 1, 1, 1, 1, 1] && n == k + 16
    requires CanDivide(m, 2) && PolyPow(x, k, m, 2) == WordPoly(w)
    ensures PolyPow(x, n, m, 2) == WordPoly(TimesX16(w))
  {
    var h: nat := k + 8;
    PowX8(w, k, h, x, m);
    PowX8(TimesX8(w), h, n, x, m);
  }

  lemma PowX32(w: bv8, k: nat, n: nat, x: Poly, m: Poly)
    requires x == [0, 1] && m == [1, 0, 0, 1, 1, 1, 1, 1, 1] && n == k + 32
    requires CanDivide(m, 2) && PolyPow(x, k, m, 2) == WordPoly(w)
    ensures PolyPow(x, n, m, 2) == WordPoly(TimesX32(w))
  {
    var h: nat := k + 16;
    PowX16(w, k, h, x, m);
    PowX16(TimesX16(w), h, n, x, m);
  }

  lemma PowX64(w: bv8, k: nat, n: nat, x: Poly, m: Poly)
    requires x == [0, 1] && m == [1, 0, 0, 1, 1, 1, 1, 1, 1] && n == k + 64
    requires CanDivide(m, 2) && PolyPow(x, k, m, 2) == WordPoly(w)
    ensures PolyPow(x, n, m, 2) == WordPoly(TimesX64(w))
  {
    var h: nat := k + 32;
    PowX32(w, k, h, x, m);
    PowX32(TimesX32(w), h, n, x, m);
  }

  lemma PowX128(w: bv8, k: nat, n: nat, x: Poly, m: Poly)
    requires x == [0, 1] && m == [1, 0, 0, 1, 1, 1, 1, 1, 1] && n == k + 128
    requires CanDivide(m, 2) && PolyPow(x, k, m, 2) == WordPoly(w)
    ensures PolyPow(x, n, m, 2) == WordPoly(TimesX128(w))
  {
    var h: nat := k + 64;
    PowX64(w, k, h, x, m);
    PowX64(TimesX64(w), h, n, x, m);
  }

  /** 2^8 - 2 == 128 + 64 + 32 + 16 + 8 + 4 + 2 steps of TimesX take 1 to 0xFC. */
  lemma TimesX254()
    ensures TimesX2(TimesX4(TimesX8(TimesX16(TimesX32(TimesX64(TimesX128(0x01))))))) == 0xFC
  {
  }

  /** The words 0x01 and 0xFC as polynomials. */
  lemma WordPolyValues()
    ensures WordPoly(0x01) == [1]
    ensures WordPoly(0xFC) == [0, 0, 1, 1, 1, 1, 1, 1]
  {
    Ext(WordPoly(0x01), [1]);
    Ext(WordPoly(0xFC), [0, 0, 1, 1, 1, 1, 1, 1]);
  }

  /** x^254 == x^7 + x^6 + x^5 + x^4 + x^3 + x^2 in GF(2^8). */
  lemma PowXGF256(x: Poly, m: Poly)
    requires x == [0, 1] && m == [1, 0, 0, 1, 1, 1, 1, 1, 1]
    ensures CanDivide(m, 2) && PolyPow(x, 254, m, 2) == WordPoly(0xFC)
  {
    InvCOfOne(2);
    PowZero(x, m, 2);
    WordPolyValues();
    var w0: bv8 := 0x01;
    var w1 := TimesX128(w0);
    var w2 := TimesX64(w1);
    var w3 := TimesX32(w2);
    var w4 := TimesX16(w3);
    var w5 := TimesX8(w4);
    var w6 := TimesX4(w5);
    PowX128(w0, 0, 128, x, m);
    PowX64(w1, 128, 192, x, m);
    PowX32(w2, 192, 224, x, m);
    PowX16(w3, 224, 240, x, m);
    PowX8(w4, 240, 248, x, m);
    PowX4(w5, 248, 252, x, m);
    PowX2(w6, 252, 254, x, m);
    TimesX254();
  }

  /** In the generator's field the inverse of x is x^7 + x^6 + x^5 + x^4 + x^3 + x^2
      (exponent 2^8 - 2 == 254), and x times it is the identity. */
  lemma InvInGF256(x: Element, y: Element)
    requires x == Element([0, 1], GF256()) && y == Element([0, 0, 1, 1, 1, 1, 1, 1], GF256())
    ensures Inv(x) == Success(y)
    ensures Mult(x, y) == Success(GetIdentity(x.field))
  {
    GF256Shape();
    var m := x.field.pol.value;
    WordPolyValues();
    assert Inv(x) == ElementPow(x, 254) by {
      InvExponentGF256();
    }
    PowXGF256(x.pol, m);
    MultIsMulMod(x, y);
    TimesXMulMod(0xFC, x.pol, m);
  }
}
