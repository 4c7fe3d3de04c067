// Field elements: a little-endian polynomial paired with the field it belongs to, and
// the arithmetic on them. Every operation that can fail returns a Result; the C code
// returns a null pointer in those cases.
module FieldElement {
  import opened Wrappers
  import opened Zp
  import opened Polynom
  import opened PolynomRing
  import opened PolynomMod
  import opened FiniteField

  datatype Element = Element(pol: Poly, field: Field)

  /** The logical failures of the element layer (allocation failures are not modelled). */
  datatype Error = FieldMismatch | InvalidModulus | DivisionByZero

  type ElemResult = Result<Element, Error>

  /** The element's field is valid and its polynomial has coefficients in Z/pZ. */
  predicate Wf(e: Element) {
    ValidField(e.field) && IsPoly(e.pol, e.field.p)
  }

  /** The field has a modulus that long division can divide by. */
  predicate HasModulus(f: Field) {
    f.pol.Some? && CanDivide(f.pol.value, f.p)
  }

  /** A fully reduced element: well formed and of lower degree than the modulus. */
  predicate InField(e: Element) {
    Wf(e) && HasModulus(e.field) && |e.pol| < |e.field.pol.value|
  }

  // ---------------------------------------------------------------------
  // Constructors and predicates

  function GetZero(f: Field): (r: Element)
    requires ValidField(f)
    ensures Wf(r) && r.field == f && r.pol == []
    ensures HasModulus(f) ==> InField(r)
  {
    Element(Polynom.Zero(), f)
  }

  function GetIdentity(f: Field): (r: Element)
    requires ValidField(f)
    ensures Wf(r) && r.field == f && r.pol == [1]
    ensures HasModulus(f) && |f.pol.value| >= 2 ==> InField(r)
  {
    Element(Polynom.Identity(), f)
  }

  /** Recognises exactly the zero that GetZero builds in the element's field. */
  predicate IsZero(e: Element)
    ensures ValidField(e.field) ==> (IsZero(e) <==> e == GetZero(e.field))
  {
    Polynom.IsZero(e.pol)
  }

  /** Recognises exactly the identity that GetIdentity builds in the element's field. */
  predicate IsIdentity(e: Element)
    ensures ValidField(e.field) ==> (IsIdentity(e) <==> e == GetIdentity(e.field))
  {
    Polynom.IsIdentity(e.pol)
  }

  /** Zero and identity are told apart in every field. */
  lemma ZeroIdentityRecognised(f: Field)
    requires ValidField(f)
    ensures IsZero(GetZero(f)) && !IsIdentity(GetZero(f))
    ensures IsIdentity(GetIdentity(f)) && !IsZero(GetIdentity(f))
    ensures GetZero(f) != GetIdentity(f)
  {
  }

  /** Replaces the polynomial by its remainder modulo the field's modulus; fails when the
      field has no usable modulus. */
  function Descend(e: Element): (r: ElemResult)
    requires Wf(e)
    ensures r.Success? <==> HasModulus(e.field)
    ensures r.Failure? ==> r.error == InvalidModulus
    ensures r.Success? ==> InField(r.value) && r.value.field == e.field
    ensures r.Success? && |e.pol| < |e.field.pol.value| ==> r.value == e
  {
    if HasModulus(e.field) then
      Success(Element(Mod(e.pol, e.field.pol.value, e.field.p), e.field))
    else
      Failure(InvalidModulus)
  }

  /** Descend keeps the element in its residue class: the old and the new polynomial
      differ by a multiple of the modulus. */
  lemma DescendCongruent(e: Element) returns (q: Poly)
    requires Wf(e) && HasModulus(e.field)
    ensures IsPoly(q, e.field.p)
    ensures e.pol == Polynom.Add(Descend(e).value.pol, Mul(q, e.field.pol.value, e.field.p), e.field.p)
  {
    q := DivisionIdentity(e.pol, e.field.pol.value, e.field.p);
  }

  /** The element whose coefficients are the first n entries of arr, highest power first,
      reduced modulo the field's modulus. */
  function GetFromArray(f: Field, arr: seq<int>, n: int): (r: ElemResult)
    requires ValidField(f) && 0 <= n < 256 && n <= |arr|
    ensures r.Success? <==> HasModulus(f)
    ensures r.Success? ==> InField(r.value) && r.value.field == f
  {
    Descend(Element(FromArray(arr, n, f.p), f))
  }

  /** When the array is shorter than the modulus, nothing is reduced away: coefficient i
      of the element is the i-th entry from the end, mod p. */
  lemma GetFromArrayShort(f: Field, arr: seq<int>, n: int)
    requires ValidField(f) && 0 <= n < 256 && n <= |arr| && HasModulus(f)
    requires n < |f.pol.value|
    ensures GetFromArray(f, arr, n).Success?
    ensures forall i: nat {:trigger Coef(GetFromArray(f, arr, n).value.pol, i)} ::
      Coef(GetFromArray(f, arr, n).value.pol, i) == if i < n then arr[n - 1 - i] % f.p else 0
  {
    CoefFromArray(arr, n, f.p);
  }

  /** Both elements belong to equal field descriptors. */
  function InSameField(lhs: Element, rhs: Element): (r: bool)
    ensures r <==> lhs.field == rhs.field
  {
    AreEqualFieldsIsEquality(lhs.field, rhs.field);
    AreEqualFields(lhs.field, rhs.field)
  }

  function Copy(e: Element): (r: Element)
    ensures r.pol == e.pol && r.field == e.field
  {
    Element(e.pol, e.field)
  }

  // ---------------------------------------------------------------------
  // Arithmetic

  /** Coefficient-wise sum; the result belongs to the left operand's field. */
  function Add(lhs: Element, rhs: Element): (r: ElemResult)
    requires Wf(lhs) && Wf(rhs)
    ensures r.Failure? <==> lhs.field != rhs.field
    ensures r.Failure? ==> r.error == FieldMismatch
    ensures r.Success? ==> Wf(r.value) && r.value.field == lhs.field
    ensures r.Success? && InField(lhs) && InField(rhs) ==> InField(r.value)
  {
    if !InSameField(lhs, rhs) then Failure(FieldMismatch)
    else Success(Element(Polynom.Add(lhs.pol, rhs.pol, lhs.field.p), lhs.field))
  }

  /** Coefficient i of a sum is the sum mod p of the operands' coefficients i. */
  lemma AddCoefficients(lhs: Element, rhs: Element)
    requires Wf(lhs) && Wf(rhs) && lhs.field == rhs.field
    ensures Add(lhs, rhs).Success?
    ensures forall i: nat {:trigger Coef(Add(lhs, rhs).value.pol, i)} ::
      Coef(Add(lhs, rhs).value.pol, i) == AddC(Coef(lhs.pol, i), Coef(rhs.pol, i), lhs.field.p)
  {
    CoefAdd(lhs.pol, rhs.pol, lhs.field.p);
  }

  /** Product modulo the field's modulus; the result belongs to the left operand's field. */
  function Mult(lhs: Element, rhs: Element): (r: ElemResult)
    requires Wf(lhs) && Wf(rhs)
    ensures r.Success? <==> lhs.field == rhs.field && HasModulus(lhs.field)
    ensures r.Failure? ==> r.error == (if lhs.field != rhs.field then FieldMismatch else InvalidModulus)
    ensures r.Success? ==> InField(r.value) && r.value.field == lhs.field
  {
    if !InSameField(lhs, rhs) then Failure(FieldMismatch)
    else
      var e := Element(Mul(lhs.pol, rhs.pol, lhs.field.p), lhs.field);
      Descend(e)
  }

  /** The product is the polynomial product reduced modulo the field's modulus. */
  lemma MultIsMulMod(lhs: Element, rhs: Element)
    requires Wf(lhs) && Wf(rhs) && lhs.field == rhs.field && HasModulus(lhs.field)
    ensures Mult(lhs, rhs) == Success(Element(MulMod(lhs.pol, rhs.pol, lhs.field.pol.value, lhs.field.p), lhs.field))
  {
  }

  /** The additive inverse, coefficient by coefficient; same field as the operand. */
  function Neg(e: Element): (r: Element)
    requires Wf(e)
    ensures Wf(r) && r.field == e.field && |r.pol| <= |e.pol|
    ensures InField(e) ==> InField(r)
  {
    Element(Polynom.Neg(e.pol, e.field.p), e.field)
  }

  /** Subtraction is addition of the negation. */
  function Sub(lhs: Element, rhs: Element): (r: ElemResult)
    requires Wf(lhs) && Wf(rhs)
    ensures r.Failure? <==> lhs.field != rhs.field
    ensures r.Success? ==> Wf(r.value) && r.value.field == lhs.field
    ensures r == Add(lhs, Neg(rhs))
  {
    Add(lhs, Neg(rhs))
  }

  /** Equal fields and equal polynomials. */
  function AreEqual(lhs: Element, rhs: Element): (r: bool)
    ensures r <==> lhs == rhs
  {
    InSameField(lhs, rhs) && lhs.pol == rhs.pol
  }

  // ---------------------------------------------------------------------
  // Integer powers

  /** The reference integer power v^n. */
  function IntPow(v: int, n: nat): int {
    if n == 0 then 1 else v * IntPow(v, n - 1)
  }

  lemma {:induction false} IntPowAdd(v: int, i: nat, j: nat)
    ensures IntPow(v, i + j) == IntPow(v, i) * IntPow(v, j)
  {
    if i > 0 {
      IntPowAdd(v, i - 1, j);
    }
  }

  lemma {:induction false} IntPowSquare(v: int, k: nat)
    ensures IntPow(v * v, k) == IntPow(v, 2 * k)
  {
    if k > 0 {
      IntPowSquare(v, k - 1);
      assert IntPow(v, 2 * k) == v * (v * IntPow(v, 2 * k - 2));
    }
  }

  lemma {:induction false} IntPowPositive(v: int, n: nat)
    requires v >= 1
    ensures IntPow(v, n) >= 1
  {
    if n > 0 {
      IntPowPositive(v, n - 1);
    }
  }

  lemma {:induction false} IntPowOfOne(n: nat)
    ensures IntPow(1, n) == 1
  {
    if n > 0 {
      IntPowOfOne(n - 1);
    }
  }

  /** What int_fast_pow returns: 0 for base 0, otherwise val^pow, where a non-positive
      exponent gives 1 (the loop does not run). */
  function FastPowValue(val: int, pow: int): int {
    if val == 0 then 0 else if pow <= 0 then 1 else IntPow(val, pow)
  }

  /** Square-and-multiply on integers, with the 0 and 1 shortcuts of the source. */
  method IntFastPow(val: int, pow: int) returns (r: int)
    ensures r == FastPowValue(val, pow)
    ensures val == 1 ==> r == 1
  {
    if val == 0 {
      return 0;
    }
    if val == 1 {
      IntPowOfOne(if pow <= 0 then 0 else pow);
      return 1;
    }
    var v, n := val, pow;
    r := 1;
    while n > 0
      invariant pow <= 0 ==> n == pow && r == 1
      invariant pow > 0 ==> 0 <= n && r * IntPow(v, n) == IntPow(val, pow)
      decreases n
    {
      var h := n / 2;
      if n % 2 == 1 {
        IntPowAdd(v, 1, 2 * h);
        r := r * v;
      }
      IntPowSquare(v, h);
      v := v * v;
      n := h;
    }
  }

  // ---------------------------------------------------------------------
  // Element powers

  /** The specification of element_fast_pow: zero and identity are returned as they are,
      exponent 0 gives the identity, and otherwise the reduced power; the first
      multiplication fails when the field has no usable modulus. */
  function ElementPow(e: Element, n: nat): (r: ElemResult)
    requires Wf(e)
    ensures r.Success? ==> Wf(r.value) && r.value.field == e.field
  {
    if IsZero(e) then Success(GetZero(e.field))
    else if IsIdentity(e) then Success(GetIdentity(e.field))
    else if n == 0 then Success(GetIdentity(e.field))
    else if !HasModulus(e.field) then Failure(InvalidModulus)
    else Success(Element(PolyPow(e.pol, n, e.field.pol.value, e.field.p), e.field))
  }

  /** Zero to any power, exponent 0 included, is zero; so is the identity. */
  lemma ElementPowFixedPoints(f: Field, n: nat)
    requires ValidField(f)
    ensures ElementPow(GetZero(f), n) == Success(GetZero(f))
    ensures ElementPow(GetIdentity(f), n) == Success(GetIdentity(f))
  {
  }

  /** For a reduced element the power agrees with repeated multiplication: e^1 == e and
      e^(n+1) == e * e^n. Zero and the identity are their own squares. */
  lemma ElementPowStep(e: Element, n: nat, k: nat)
    requires InField(e) && n == k + 1
    ensures ElementPow(e, 1) == Success(e)
    ensures k > 0 ==> ElementPow(e, n) == Mult(e, ElementPow(e, k).value)
  {
    var m, p := e.field.pol.value, e.field.p;
    if IsZero(e) {
      MulModZero(e.pol, m, p);
      MultIsMulMod(e, e);
    } else if IsIdentity(e) {
      MulModOne(e.pol, m, p);
      MultIsMulMod(e, e);
    } else {
      PowOneExp(e.pol, m, p);
      PowUnfold(e.pol, n, k, m, p);
    }
  }

  /** One odd step of the square-and-multiply loop keeps res * value^n fixed. */
  lemma FastPowOddStep(res: Poly, value: Poly, n: nat, h: nat, m: Poly, p: int)
    requires CanDivide(m, p) && IsPoly(res, p) && IsPoly(value, p) && n == 2 * h + 1
    ensures MulMod(MulMod(res, value, m, p), PolyPow(MulMod(value, value, m, p), h, m, p), m, p)
         == MulMod(res, PolyPow(value, n, m, p), m, p)
  {
    var h2 := 2 * h;
    var rest := PolyPow(value, h2, m, p);
    PowSquare(value, h, h2, m, p);
    PowUnfold(value, n, h2, m, p);
    MulModAssoc(res, value, rest, m, p);
  }

  /** The invariant of element_fast_pow's loop, for a base that is neither zero nor the
      identity: res * value^n == elem^n0, and while the field has no usable modulus no
      iteration has completed. */
  predicate FastPowInv(elem: Element, n0: nat, res: Element, value: Element, n: nat)
    requires Wf(elem)
  {
    var f := elem.field;
    Wf(res) && Wf(value) && res.field == f && value.field == f && n <= n0 &&
    (n0 == 0 ==> res.pol == [1]) &&
    (!HasModulus(f) ==> n == n0 && res.pol == [1] && value == elem) &&
    (HasModulus(f) ==>
      (Reduced(res.pol, f.pol.value, f.p) || (res.pol == [1] && (n > 0 || n0 == 0))) &&
      MulMod(res.pol, PolyPow(value.pol, n, f.pol.value, f.p), f.pol.value, f.p)
        == PolyPow(elem.pol, n0, f.pol.value, f.p))
  }

  lemma FastPowInit(elem: Element, n0: nat)
    requires Wf(elem)
    ensures FastPowInv(elem, n0, GetIdentity(elem.field), Copy(elem), n0)
  {
    var f := elem.field;
    if HasModulus(f) {
      MulModOne(PolyPow(elem.pol, n0, f.pol.value, f.p), f.pol.value, f.p);
    }
  }

  /** An iteration with an odd exponent: multiply res by value, square value, halve n. */
  lemma FastPowOdd(elem: Element, n0: nat, res: Element, value: Element, n: nat, h: nat)
    requires Wf(elem) && FastPowInv(elem, n0, res, value, n) && HasModulus(elem.field)
    requires n == 2 * h + 1
    ensures Mult(res, value).Success? && Mult(value, value).Success?
    ensures FastPowInv(elem, n0, Mult(res, value).value, Mult(value, value).value, h)
  {
    var f := elem.field;
    MultIsMulMod(res, value);
    MultIsMulMod(value, value);
    FastPowOddStep(res.pol, value.pol, n, h, f.pol.value, f.p);
  }

  /** An iteration with an even exponent: square value and halve n. */
  lemma FastPowEven(elem: Element, n0: nat, res: Element, value: Element, n: nat, h: nat)
    requires Wf(elem) && FastPowInv(elem, n0, res, value, n) && HasModulus(elem.field)
    requires n == 2 * h && n > 0
    ensures Mult(value, value).Success?
    ensures FastPowInv(elem, n0, res, Mult(value, value).value, h)
  {
    var f := elem.field;
    MultIsMulMod(value, value);
    PowSquare(value.pol, h, n, f.pol.value, f.p);
  }

  /** Without a usable modulus the first multiplication fails, as the specification says. */
  lemma FastPowNoModulus(elem: Element, n0: nat, res: Element, value: Element, n: nat)
    requires Wf(elem) && FastPowInv(elem, n0, res, value, n) && !HasModulus(elem.field)
    requires n > 0 && !IsZero(elem) && !IsIdentity(elem)
    ensures Mult(res, value).Failure? && Mult(value, value).Failure?
    ensures Mult(res, value) == ElementPow(elem, n0) && Mult(value, value) == ElementPow(elem, n0)
  {
  }

  /** When n reaches 0, res is the power. */
  lemma FastPowExit(elem: Element, n0: nat, res: Element, value: Element)
    requires Wf(elem) && FastPowInv(elem, n0, res, value, 0) && !IsZero(elem) && !IsIdentity(elem)
    ensures ElementPow(elem, n0) == Success(res)
  {
    var f := elem.field;
    if HasModulus(f) && n0 > 0 {
      MulModUnit(res.pol, f.pol.value, f.p);
    }
  }

  /** Square-and-multiply on field elements, proved against ElementPow. */
  method ElementFastPow(elem: Element, n0: nat) returns (r: ElemResult)
    requires Wf(elem)
    ensures r == ElementPow(elem, n0)
  {
    if IsZero(elem) {
      return Success(GetZero(elem.field));
    }
    if IsIdentity(elem) {
      return Success(GetIdentity(elem.field));
    }
    var res := GetIdentity(elem.field);
    var value := Copy(elem);
    var n: nat := n0;
    FastPowInit(elem, n0);
    while n > 0
      invariant FastPowInv(elem, n0, res, value, n)
      decreases n
    {
      var h: nat := n / 2;
      if !HasModulus(elem.field) {
        FastPowNoModulus(elem, n0, res, value, n);
      } else if n % 2 == 1 {
        FastPowOdd(elem, n0, res, value, n, h);
      } else {
        FastPowEven(elem, n0, res, value, n, h);
      }
      if n % 2 == 1 {
        var t := Mult(res, value);
        if t.Failure? {
          return t;
        }
        res := t.value;
      }
      var v := Mult(value, value);
      if v.Failure? {
        return v;
      }
      value := v.value;
      n := h;
    }
    FastPowExit(elem, n0, res, value);
    return Success(res);
  }

  // ---------------------------------------------------------------------
  // Inverse, power with a signed exponent, division

  /** The p^deg(m) that Inv computes: p - 1 when the field has no modulus, otherwise
      int_fast_pow(p, deg m), which is 1 for a modulus of degree 0 or below. */
  function FieldOrder(f: Field): (r: int)
    requires ValidField(f)
    ensures r >= 1
    ensures f.pol.None? ==> r == f.p - 1
    ensures f.pol.Some? && f.pol.value != [] ==> r == IntPow(f.p, |f.pol.value| - 1)
  {
    if f.pol.None? then f.p - 1
    else
      var d := |f.pol.value| - 1;
      IntPowPositive(f.p, if d > 0 then d else 0);
      FastPowValue(f.p, d)
  }

  /** The exponent Inv uses: the uint64 value FieldOrder - 2 passed on as an unsigned int. */
  function InvExponent(f: Field): (r: nat)
    requires ValidField(f)
    ensures r < 0x1_0000_0000
    ensures FieldOrder(f) >= 2 ==> r == FieldOrder(f) - 2 || FieldOrder(f) - 2 >= 0x1_0000_0000
  {
    (FieldOrder(f) - 2) % 0x1_0000_0000
  }

  /** a^(p^deg(m) - 2); fails on the zero element. */
  function Inv(e: Element): (r: ElemResult)
    requires Wf(e)
    ensures IsZero(e) ==> r == Failure(DivisionByZero)
    ensures !IsZero(e) ==> r == ElementPow(e, InvExponent(e.field))
  {
    if IsZero(e) then Failure(DivisionByZero)
    else ElementPow(e, InvExponent(e.field))
  }

  /** A non-zero element has an inverse whenever the field has a usable modulus. */
  lemma InvSucceeds(e: Element)
    requires Wf(e) && !IsZero(e) && HasModulus(e.field)
    ensures Inv(e).Success? && Inv(e).value.field == e.field
  {
  }

  /** In GF(2^8) the exponent is 2^8 - 2 == 254. */
  lemma InvExponentGF256()
    ensures FieldOrder(GF256()) == 256 && InvExponent(GF256()) == 254
  {
    GF256Shape();
    assert FastPowValue(2, 8) == 256 by {
      assert IntPow(2, 8) == 256;
    }
  }

  /** In a prime field built by CreateFp the exponent is p - 2. */
  lemma InvExponentPrime(p: int)
    requires 2 <= p < 256
    ensures InvExponent(CreateFp(p)) == p - 2
  {
    assert IntPow(p, 1) == p * IntPow(p, 0);
  }

  /** Without a modulus the order is taken to be p - 1, so the exponent is p - 3, which
      wraps to 2^32 - 1 for p == 2. */
  lemma InvExponentNoModulus(p: int)
    requires 2 <= p < 256
    ensures InvExponent(Field(p, None)) == if p == 2 then 0xFFFF_FFFF else p - 3
  {
  }

  /** e^n for a signed n: a negative exponent raises the inverse to -n. The inverse must
      exist when n is negative, since the source passes it on unchecked. */
  function Pow(e: Element, n: int): (r: ElemResult)
    requires Wf(e) && (n < 0 ==> Inv(e).Success?)
    ensures n >= 0 ==> r == ElementPow(e, n)
    ensures n < 0 ==> r == ElementPow(Inv(e).value, -n)
  {
    if n < 0 then ElementPow(Inv(e).value, -n) else ElementPow(e, n)
  }

  /** lhs * rhs^-1; fails when rhs is zero or has no inverse. */
  function Division(lhs: Element, rhs: Element): (r: ElemResult)
    requires Wf(lhs) && Wf(rhs)
    ensures IsZero(rhs) ==> r == Failure(DivisionByZero)
    ensures !IsZero(rhs) && Inv(rhs).Failure? ==> r == Inv(rhs)
    ensures !IsZero(rhs) && Inv(rhs).Success? ==> r == Mult(lhs, Inv(rhs).value)
  {
    if IsZero(rhs) then Failure(DivisionByZero)
    else
      var t := Inv(rhs);
      if t.Failure? then Failure(t.error) else Mult(lhs, t.value)
  }
}
