/** Arithmetic on polynomial coefficients: the integers modulo the field's
    characteristic p.  Coefficients are kept in the range [0, p); every
    operation reduces its result with Dafny's (Euclidean) remainder. */
module Zp {

  predicate IsCoef(c: int, p: int) {
    0 <= c < p
  }

  function AddC(a: int, b: int, p: int): (r: int)
    requires p > 0
    ensures IsCoef(r, p)
  {
    (a + b) % p
  }

  function MulC(a: int, b: int, p: int): (r: int)
    requires p > 0
    ensures IsCoef(r, p)
  {
    (a * b) % p
  }

  /** The additive inverse of a coefficient in [0, p). */
  function NegC(a: int, p: int): (r: int)
    requires p > 0
    ensures IsCoef(r, p)
  {
    (p - a) % p
  }

  /** Searches j, j+1, ..., p-1 for a multiplicative inverse of c; 0 when there is none. */
  function FindInv(c: int, p: int, j: int): (r: int)
    requires 1 <= j <= p
    ensures r == 0 || (j <= r < p && MulC(c, r, p) == 1)
    decreases p - j
  {
    if j == p then 0
    else if MulC(c, j, p) == 1 then j
    else FindInv(c, p, j + 1)
  }

  /** The inverse of c modulo p, or 0 when c has none (c is 0 mod p, or p is not prime). */
  function InvC(c: int, p: int): (r: int)
    requires p >= 1
    ensures r != 0 ==> IsCoef(r, p) && MulC(c, r, p) == 1
  {
    FindInv(c, p, 1)
  }

  /** 1 is its own inverse. */
  lemma InvCOfOne(p: int)
    requires p >= 2
    ensures InvC(1, p) == 1
  {
    assert MulC(1, 1, p) == 1;
  }

  predicate Invertible(c: int, p: int)
    requires p >= 1
  {
    InvC(c, p) != 0
  }

  // ---------------------------------------------------------------------
  // Euclidean division facts

  lemma MulAtLeast(d: nat, p: int)
    requires d >= 1 && p > 0
    ensures d * p >= p
  {
    if d > 1 {
      MulAtLeast(d - 1, p);
      assert d * p == (d - 1) * p + p;
    }
  }

  /** A quotient/remainder pair with the remainder in range is the one Dafny computes. */
  lemma DivModUnique(x: int, q: int, r: int, p: int)
    requires p > 0 && 0 <= r < p && x == q * p + r
    ensures x % p == r && x / p == q
  {
    var q', r' := x / p, x % p;
    assert x == q' * p + r';
    if q > q' {
      MulAtLeast(q - q', p);
    } else if q < q' {
      MulAtLeast(q' - q, p);
    }
  }

  lemma ModAddLeft(a: int, b: int, p: int)
    requires p > 0
    ensures (a % p + b) % p == (a + b) % p
  {
    var s := a % p + b;
    assert a == (a / p) * p + a % p;
    assert s == (s / p) * p + s % p;
    DivModUnique(a + b, a / p + s / p, s % p, p);
  }

  lemma ModMulLeft(a: int, b: int, p: int)
    requires p > 0
    ensures (a % p * b) % p == (a * b) % p
  {
    var s := a % p * b;
    assert a == (a / p) * p + a % p;
    assert a * b == (a / p) * b * p + s;
    assert s == (s / p) * p + s % p;
    DivModUnique(a * b, (a / p) * b + s / p, s % p, p);
  }

  lemma ModAddRight(a: int, b: int, p: int)
    requires p > 0
    ensures (a + b % p) % p == (a + b) % p
  {
    ModAddLeft(b, a, p);
  }

  lemma ModMulRight(a: int, b: int, p: int)
    requires p > 0
    ensures (a * (b % p)) % p == (a * b) % p
  {
    ModMulLeft(b, a, p);
    assert a * (b % p) == b % p * a;
    assert a * b == b * a;
  }

  /** Numbers that differ by a multiple of p have the same remainder. */
  lemma ModEq(x: int, y: int, k: int, p: int)
    requires p > 0 && x == y + k * p
    ensures x % p == y % p
  {
    assert y == (y / p) * p + y % p;
    assert x == (y / p + k) * p + y % p;
    DivModUnique(x, y / p + k, y % p, p);
  }

  lemma ModOfCoef(a: int, p: int)
    requires IsCoef(a, p)
    ensures a % p == a
  {
    DivModUnique(a, 0, a, p);
  }

  // ---------------------------------------------------------------------
  // Z/pZ is a commutative ring

  lemma AddCSumLeft(a: int, b: int, c: int, p: int)
    requires p > 0
    ensures AddC(AddC(a, b, p), c, p) == (a + b + c) % p
  {
    ModAddLeft(a + b, c, p);
  }

  lemma AddCSumRight(a: int, b: int, c: int, p: int)
    requires p > 0
    ensures AddC(a, AddC(b, c, p), p) == (a + b + c) % p
  {
    ModAddLeft(b + c, a, p);
    assert b + c + a == a + b + c;
  }

  lemma AddCAssoc(a: int, b: int, c: int, p: int)
    requires p > 0
    ensures AddC(AddC(a, b, p), c, p) == AddC(a, AddC(b, c, p), p)
  {
    AddCSumLeft(a, b, c, p);
    AddCSumRight(a, b, c, p);
  }

  lemma AddCZero(a: int, p: int)
    requires IsCoef(a, p)
    ensures AddC(a, 0, p) == a && AddC(0, a, p) == a
  {
    ModOfCoef(a, p);
  }

  lemma AddCNeg(a: int, p: int)
    requires IsCoef(a, p)
    ensures AddC(a, NegC(a, p), p) == 0
  {
    ModAddLeft(p - a, a, p);
    DivModUnique(p, 1, 0, p);
  }

  /** Two coefficients whose difference is zero are equal. */
  lemma AddCNegZero(a: int, b: int, p: int)
    requires IsCoef(a, p) && IsCoef(b, p)
    requires AddC(a, NegC(b, p), p) == 0
    ensures a == b
  {
    ModAddLeft(p - b, a, p);
    var s := a + (p - b);
    assert 0 < s < 2 * p;
    if a != b {
      if s < p {
        DivModUnique(s, 0, s, p);
      } else {
        DivModUnique(s, 1, s - p, p);
      }
    }
  }

  lemma NegCAdd(a: int, b: int, p: int)
    requires IsCoef(a, p) && IsCoef(b, p)
    ensures NegC(AddC(a, b, p), p) == AddC(NegC(a, p), NegC(b, p), p)
  {
    var s := AddC(a, b, p);
    AddCNeg(s, p);
    AddCNeg(a, p);
    AddCNeg(b, p);
    // both sides are the unique additive inverse of a + b
    var l, r := NegC(s, p), AddC(NegC(a, p), NegC(b, p), p);
    calc {
      AddC(s, r, p);
    ==  { AddCAssoc(a, b, r, p); }
      AddC(a, AddC(b, r, p), p);
    ==  { AddCAssoc(b, NegC(a, p), NegC(b, p), p);
          AddCAssoc(NegC(a, p), b, NegC(b, p), p);
          AddCZero(NegC(a, p), p); }
      AddC(a, NegC(a, p), p);
    ==
      0;
    }
    NegUnique(s, l, r, p);
  }

  /** The additive inverse is unique. */
  lemma NegUnique(a: int, x: int, y: int, p: int)
    requires IsCoef(a, p) && IsCoef(x, p) && IsCoef(y, p)
    requires AddC(a, x, p) == 0 && AddC(a, y, p) == 0
    ensures x == y
  {
    calc {
      x;
    ==  { AddCZero(x, p); }
      AddC(x, 0, p);
    ==
      AddC(x, AddC(a, y, p), p);
    ==  { AddCAssoc(x, a, y, p); }
      AddC(AddC(a, x, p), y, p);
    ==  { AddCZero(y, p); }
      y;
    }
  }

  lemma MulCProdLeft(a: int, b: int, c: int, p: int)
    requires p > 0
    ensures MulC(MulC(a, b, p), c, p) == (a * b * c) % p
  {
    ModMulLeft(a * b, c, p);
  }

  lemma MulCProdRight(a: int, b: int, c: int, p: int)
    requires p > 0
    ensures MulC(a, MulC(b, c, p), p) == (a * b * c) % p
  {
    ModMulRight(a, b * c, p);
    assert a * (b * c) == a * b * c;
  }

  lemma MulCAssoc(a: int, b: int, c: int, p: int)
    requires p > 0
    ensures MulC(MulC(a, b, p), c, p) == MulC(a, MulC(b, c, p), p)
  {
    MulCProdLeft(a, b, c, p);
    MulCProdRight(a, b, c, p);
  }

  lemma MulCOne(a: int, p: int)
    requires IsCoef(a, p)
    ensures MulC(1, a, p) == a && MulC(a, 1, p) == a
  {
    ModOfCoef(a, p);
  }

  lemma MulCOfSum(a: int, b: int, c: int, p: int)
    requires p > 0
    ensures MulC(a, AddC(b, c, p), p) == (a * (b + c)) % p
  {
    ModMulRight(a, b + c, p);
  }

  lemma Distrib(a: int, b: int, c: int, p: int)
    requires p > 0
    ensures (a * (b + c)) % p == (a * b + a * c) % p
  {
    assert a * (b + c) == a * b + a * c;
  }

  lemma AddCOfProducts(a: int, b: int, c: int, p: int)
    requires p > 0
    ensures AddC(MulC(a, b, p), MulC(a, c, p), p) == (a * b + a * c) % p
  {
    ModAddLeft(a * b, (a * c) % p, p);
    ModAddRight(a * b, a * c, p);
  }

  lemma MulCAddRight(a: int, b: int, c: int, p: int)
    requires p > 0
    ensures MulC(a, AddC(b, c, p), p) == AddC(MulC(a, b, p), MulC(a, c, p), p)
  {
    MulCOfSum(a, b, c, p);
    Distrib(a, b, c, p);
    AddCOfProducts(a, b, c, p);
  }

  lemma MulCAddLeft(a: int, b: int, c: int, p: int)
    requires p > 0
    ensures MulC(AddC(a, b, p), c, p) == AddC(MulC(a, c, p), MulC(b, c, p), p)
  {
    MulCAddRight(c, a, b, p);
  }

  /** With c invertible, a * c == 0 forces a == 0: the only zero divisor is zero. */
  lemma MulCInvertibleNonZero(a: int, c: int, p: int)
    requires IsCoef(a, p) && p >= 1 && Invertible(c, p)
    requires MulC(a, c, p) == 0
    ensures a == 0
  {
    var i := InvC(c, p);
    MulCOne(a, p);
    MulCAssoc(a, c, i, p);
    MulCZeroLeft(i, p);
  }

  lemma MulCZeroLeft(i: int, p: int)
    requires p > 0
    ensures MulC(0, i, p) == 0
  {
    assert 0 * i == 0;
  }

  /** Multiplying by a / c cancels the coefficient a: (a * c^-1) * c == a. */
  lemma MulCCancel(a: int, c: int, p: int)
    requires IsCoef(a, p) && p >= 1 && Invertible(c, p)
    ensures MulC(MulC(a, InvC(c, p), p), c, p) == a
  {
    var i := InvC(c, p);
    MulCAssoc(a, i, c, p);
    assert MulC(i, c, p) == MulC(c, i, p) == 1;
    MulCOne(a, p);
  }

  /** a - b == d - c whenever a + c == b + d. */
  lemma AddCCancel(a: int, b: int, c: int, d: int, p: int)
    requires p > 0
    requires AddC(a, c, p) == AddC(b, d, p)
    ensures AddC(a, NegC(b, p), p) == AddC(d, NegC(c, p), p)
  {
    ModAddRight(a, p - b, p);
    ModAddRight(d, p - c, p);
    var k := (a + c) / p - (b + d) / p;
    assert a + c == ((a + c) / p) * p + (a + c) % p;
    assert b + d == ((b + d) / p) * p + (b + d) % p;
    assert (a + c) - (b + d) == k * p;
    ModEq(a + (p - b), d + (p - c), k, p);
  }

  /** Negation is multiplication by p - 1. */
  lemma NegCIsMulC(a: int, p: int)
    requires IsCoef(a, p)
    ensures NegC(a, p) == MulC(p - 1, a, p)
  {
    if a == 0 {
      DivModUnique(p, 1, 0, p);
    } else {
      DivModUnique(p - a, 0, p - a, p);
      DivModUnique((p - 1) * a, a - 1, p - a, p);
    }
  }
}
