// The finite-field descriptor: a characteristic p and an optional modulus polynomial.
module FiniteField {
  import opened Wrappers
  import opened Zp
  import opened Polynom

  /** A field descriptor. The modulus is stored little-endian (constant term first); a
      missing modulus plays the part of the C null pointer. */
  datatype Field = Field(p: int, pol: Option<Poly>)

  /** p fits the uint8_t it is stored in and is a usable coefficient modulus, and a
      present modulus is a polynomial over Z/pZ. */
  predicate ValidField(f: Field) {
    2 <= f.p < 256 && (f.pol.Some? ==> IsPoly(f.pol.value, f.p))
  }

  /** The prime field GF(p), with the degree-1 placeholder modulus x (big-endian {1, 0}). */
  function CreateFp(p: int): (f: Field)
    requires 2 <= p < 256
    ensures ValidField(f) && f.p == p
    ensures f.pol == Some([0, 1])
  {
    PlaceholderModulus(p);
    Field(p, Some(FromArray([1, 0], 2, p)))
  }

  /** Big-endian {1, 0} decodes to the polynomial x. */
  lemma PlaceholderModulus(p: int)
    requires 2 <= p
    ensures FromArray([1, 0], 2, p) == [0, 1]
  {
    var be := [1, 0];
    var x := [0, 1];
    var m := FromArray(be, 2, p);
    CoefFromArray(be, 2, p);
    assert 0 % p == 0 && 1 % p == 1;
    forall i: nat ensures Coef(m, i) == Coef(x, i) {
      assert Coef(m, i) == if i < 2 then be[1 - i] % p else 0;
    }
    Ext(m, x);
  }

  /** The extension field over Z/pZ whose modulus is given by deg + 1 big-endian
      coefficients. Irreducibility of the modulus is not checked. */
  function CreateFq(p: int, deg: int, polynom: seq<int>): (f: Field)
    requires 2 <= p < 256 && 0 <= deg < 256 && deg + 1 <= |polynom|
    ensures ValidField(f) && f.p == p && f.pol.Some?
    ensures |f.pol.value| <= deg + 1
    ensures forall i: nat {:trigger Coef(f.pol.value, i)} ::
      Coef(f.pol.value, i) == if i <= deg then polynom[deg - i] % p else 0
  {
    CoefFromArray(polynom, deg + 1, p);
    Field(p, Some(FromArray(polynom, deg + 1, p)))
  }

  /** Structural equality of descriptors: same characteristic, and either no modulus on
      either side or equal moduli. */
  function AreEqualFields(lhs: Field, rhs: Field): (r: bool)
    ensures lhs.p != rhs.p ==> !r
    ensures lhs.pol.None? || rhs.pol.None? ==> (r <==> lhs.pol.None? && rhs.pol.None? && lhs.p == rhs.p)
  {
    if lhs == rhs then true
    else if lhs.p != rhs.p then false
    else if lhs.pol.None? || rhs.pol.None? then lhs.pol == rhs.pol && lhs.p == rhs.p
    else lhs.pol.value == rhs.pol.value
  }

  /** The comparison is exactly equality of descriptors. */
  lemma AreEqualFieldsIsEquality(lhs: Field, rhs: Field)
    ensures AreEqualFields(lhs, rhs) <==> lhs == rhs
  {
  }

  lemma AreEqualFieldsReflexive(f: Field)
    ensures AreEqualFields(f, f)
  {
  }

  lemma AreEqualFieldsSymmetric(lhs: Field, rhs: Field)
    ensures AreEqualFields(lhs, rhs) == AreEqualFields(rhs, lhs)
  {
  }

  /** With both moduli present, the fields are equal iff p and the moduli agree. */
  lemma AreEqualFieldsModuli(lhs: Field, rhs: Field)
    requires lhs.pol.Some? && rhs.pol.Some?
    ensures AreEqualFields(lhs, rhs) <==> lhs.p == rhs.p && lhs.pol.value == rhs.pol.value
  {
  }

  /** The modulus x^8 + x^7 + x^6 + x^5 + x^4 + x^3 + 1 of the generator's field, big-endian. */
  const GF256Modulus: seq<int> := [1, 1, 1, 1, 1, 1, 0, 0, 1]

  /** The generator's field GF(2^8). */
  function GF256(): (f: Field)
    ensures ValidField(f)
  {
    CreateFq(2, 8, GF256Modulus)
  }

  /** Its modulus, little-endian, has all nine coefficients. */
  lemma GF256Shape()
    ensures GF256() == Field(2, Some([1, 0, 0, 1, 1, 1, 1, 1, 1]))
  {
    var m := GF256().pol.value;
    var e := [1, 0, 0, 1, 1, 1, 1, 1, 1];
    CoefFromArray(GF256Modulus, 9, 2);
    forall i: nat ensures Coef(m, i) == Coef(e, i) {
      if i < 9 {
        assert Coef(m, i) == GF256Modulus[8 - i] % 2;
      }
    }
    Ext(m, e);
  }
}
