/** Polynomials over Z/pZ, the representation every field element is built on.
    A polynomial is the sequence of its coefficients, constant term first
    (little-endian), each in [0, p), with no trailing zero coefficient; the zero
    polynomial is the empty sequence. */
module Polynom {
  import opened Zp

  type Poly = seq<int>

  function Max(a: int, b: int): int {
    if a < b then b else a
  }

  predicate Trimmed(s: seq<int>) {
    |s| == 0 || s[|s| - 1] != 0
  }

  /** A well-formed polynomial over Z/pZ (p is at least 2). */
  predicate IsPoly(s: seq<int>, p: int) {
    p >= 2 && Trimmed(s) && forall i :: 0 <= i < |s| ==> IsCoef(s[i], p)
  }

  /** The coefficient of x^i; zero beyond the stored terms. */
  function Coef(s: seq<int>, i: nat): int {
    if i < |s| then s[i] else 0
  }

  /** Drops the non-significant leading (high-order) zero coefficients. */
  function Trim(s: seq<int>): (t: seq<int>)
    ensures Trimmed(t) && |t| <= |s| && t == s[..|t|]
    decreases |s|
  {
    if |s| == 0 || s[|s| - 1] != 0 then s else Trim(s[..|s| - 1])
  }

  /** Trimming keeps every coefficient. */
  lemma {:induction false} CoefTrim(s: seq<int>)
    ensures forall i: nat {:trigger Coef(Trim(s), i)} :: Coef(Trim(s), i) == Coef(s, i)
    decreases |s|
  {
    if |s| > 0 && s[|s| - 1] == 0 {
      CoefTrim(s[..|s| - 1]);
    }
  }

  /** A trimmed polynomial is no longer than any sequence with the same coefficients. */
  lemma LenFromCoef(a: seq<int>, b: seq<int>)
    requires Trimmed(b)
    requires forall i: nat :: Coef(a, i) == Coef(b, i)
    ensures |b| <= |a|
  {
    if b != [] {
      assert Coef(b, |b| - 1) != 0;
    }
  }

  /** Two trimmed sequences with the same coefficients are the same polynomial. */
  lemma Ext(a: seq<int>, b: seq<int>)
    requires Trimmed(a) && Trimmed(b)
    requires forall i: nat :: Coef(a, i) == Coef(b, i)
    ensures a == b
  {
    LenFromCoef(a, b);
    LenFromCoef(b, a);
    forall i | 0 <= i < |a| ensures a[i] == b[i] {
      assert Coef(a, i) == Coef(b, i);
    }
  }

  lemma CoefOfPoly(s: Poly, p: int, i: nat)
    requires IsPoly(s, p)
    ensures IsCoef(Coef(s, i), p) || (Coef(s, i) == 0 && i >= |s|)
  {
  }

  function Zero(): Poly
  {
    []
  }

  function Identity(): Poly
  {
    [1]
  }

  predicate IsZero(s: Poly) {
    s == []
  }

  predicate IsIdentity(s: Poly) {
    s == [1]
  }

  /** Coefficient-wise sum modulo p. */
  function Add(a: Poly, b: Poly, p: int): (r: Poly)
    requires p >= 2
    ensures IsPoly(r, p) && |r| <= Max(|a|, |b|)
  {
    Trim(seq(Max(|a|, |b|), i requires 0 <= i => AddC(Coef(a, i), Coef(b, i), p)))
  }

  lemma CoefAdd(a: Poly, b: Poly, p: int)
    requires p >= 2
    ensures forall i: nat {:trigger Coef(Add(a, b, p), i)} ::
      Coef(Add(a, b, p), i) == AddC(Coef(a, i), Coef(b, i), p)
  {
    var raw := seq(Max(|a|, |b|), i requires 0 <= i => AddC(Coef(a, i), Coef(b, i), p));
    CoefTrim(raw);
    forall i: nat ensures Coef(raw, i) == AddC(Coef(a, i), Coef(b, i), p) {
      if i >= |raw| {
        assert Coef(a, i) == 0 && Coef(b, i) == 0;
      }
    }
  }

  /** Coefficient-wise additive inverse modulo p. */
  function Neg(a: Poly, p: int): (r: Poly)
    requires p >= 2
    ensures IsPoly(r, p) && |r| <= |a|
  {
    Trim(seq(|a|, i requires 0 <= i < |a| => NegC(a[i], p)))
  }

  lemma CoefNeg(a: Poly, p: int)
    requires p >= 2
    ensures forall i: nat {:trigger Coef(Neg(a, p), i)} :: Coef(Neg(a, p), i) == NegC(Coef(a, i), p)
  {
    var raw := seq(|a|, i requires 0 <= i < |a| => NegC(a[i], p));
    CoefTrim(raw);
    forall i: nat ensures Coef(raw, i) == NegC(Coef(a, i), p) {
      if i >= |raw| {
        DivModUnique(p, 1, 0, p);
      }
    }
  }

  function Sub(a: Poly, b: Poly, p: int): (r: Poly)
    requires p >= 2
    ensures IsPoly(r, p) && |r| <= Max(|a|, |b|)
  {
    Add(a, Neg(b, p), p)
  }

  /** The polynomial multiplied by the constant c. */
  function Scale(c: int, b: Poly, p: int): (r: Poly)
    requires p >= 2
    ensures IsPoly(r, p) && |r| <= |b|
  {
    Trim(seq(|b|, i requires 0 <= i < |b| => MulC(c, b[i], p)))
  }

  lemma CoefScale(c: int, b: Poly, p: int)
    requires p >= 2
    ensures forall i: nat {:trigger Coef(Scale(c, b, p), i)} :: Coef(Scale(c, b, p), i) == MulC(c, Coef(b, i), p)
  {
    var raw := seq(|b|, i requires 0 <= i < |b| => MulC(c, b[i], p));
    CoefTrim(raw);
    forall i: nat ensures Coef(raw, i) == MulC(c, Coef(b, i), p) {
      if i >= |raw| {
        assert c * 0 == 0;
      }
    }
  }

  /** The polynomial multiplied by x. */
  function Shift(q: Poly): (r: Poly)
    ensures Trimmed(q) ==> Trimmed(r)
    ensures |r| == if q == [] then 0 else |q| + 1
  {
    if q == [] then [] else [0] + q
  }

  lemma CoefShift(q: Poly)
    ensures forall i: nat {:trigger Coef(Shift(q), i)} :: Coef(Shift(q), i) == if i == 0 then 0 else Coef(q, i - 1)
  {
  }

  lemma ShiftIsPoly(x: Poly, p: int)
    requires IsPoly(x, p)
    ensures IsPoly(Shift(x), p)
  {
  }

  /** The polynomial multiplied by x^d. */
  function ShiftN(q: Poly, d: nat): (r: Poly)
    ensures Trimmed(q) ==> Trimmed(r)
    ensures |q| > 0 ==> |r| == |q| + d
    ensures q == [] ==> r == []
  {
    if d == 0 then q else Shift(ShiftN(q, d - 1))
  }

  lemma {:induction false} CoefShiftN(q: Poly, d: nat)
    ensures forall i: nat {:trigger Coef(ShiftN(q, d), i)} :: Coef(ShiftN(q, d), i) == if i < d then 0 else Coef(q, i - d)
  {
    if d > 0 {
      CoefShiftN(q, d - 1);
      CoefShift(ShiftN(q, d - 1));
    }
  }

  lemma ShiftNIsPoly(q: Poly, d: nat, p: int)
    requires IsPoly(q, p)
    ensures IsPoly(ShiftN(q, d), p)
  {
    var r := ShiftN(q, d);
    CoefShiftN(q, d);
    forall i | 0 <= i < |r| ensures IsCoef(r[i], p) {
      assert r[i] == Coef(r, i);
      if i >= d {
        assert Coef(q, i - d) == q[i - d];
      }
    }
  }

  /** Every coefficient but the constant term, moved one place down: (s - s[0]) / x. */
  function Tail(s: Poly): (r: Poly)
    ensures Trimmed(s) ==> Trimmed(r)
    ensures forall p :: IsPoly(s, p) ==> IsPoly(r, p)
  {
    if s == [] then [] else s[1..]
  }

  lemma CoefTail(s: Poly)
    ensures forall i: nat {:trigger Coef(Tail(s), i)} :: Coef(Tail(s), i) == Coef(s, i + 1)
  {
  }

  /** The constant polynomial c mod p. */
  function Const(c: int, p: int): (r: Poly)
    requires p >= 2
    ensures IsPoly(r, p)
  {
    Trim([c % p])
  }

  lemma CoefConst(c: int, p: int)
    requires p >= 2
    ensures forall i: nat {:trigger Coef(Const(c, p), i)} :: Coef(Const(c, p), i) == if i == 0 then c % p else 0
  {
    CoefTrim([c % p]);
  }

  /** Schoolbook product (the convolution of the coefficient sequences),
      one row a[i] * b * x^i at a time; not reduced by any modulus. */
  function Mul(a: Poly, b: Poly, p: int): (r: Poly)
    requires p >= 2
    ensures IsPoly(r, p)
    decreases |a|
  {
    if a == [] then [] else Add(Scale(a[0], b, p), Shift(Mul(a[1..], b, p)), p)
  }

  /** The leading coefficient of a non-zero polynomial. */
  function Lc(m: Poly): int
    requires m != []
  {
    m[|m| - 1]
  }

  /** A modulus the long division can use: non-zero, with a leading coefficient invertible mod p. */
  predicate CanDivide(m: Poly, p: int) {
    IsPoly(m, p) && m != [] && Invertible(Lc(m), p)
  }

  /** The factor that makes t * m share the leading term of a: Lc(a) / Lc(m). */
  function LeadQuot(a: Poly, m: Poly, p: int): (t: int)
    requires CanDivide(m, p) && a != []
    ensures IsCoef(t, p)
  {
    MulC(Lc(a), InvC(Lc(m), p), p)
  }

  /** The multiple of m that one long-division step subtracts from a:
      Lc(a) / Lc(m) * m * x^(|a| - |m|). */
  function Canceller(a: Poly, m: Poly, p: int): (r: Poly)
    requires CanDivide(m, p) && IsPoly(a, p) && |a| >= |m|
    ensures IsPoly(r, p)
  {
    ShiftNIsPoly(Scale(LeadQuot(a, m, p), m, p), |a| - |m|, p);
    ShiftN(Scale(LeadQuot(a, m, p), m, p), |a| - |m|)
  }

  /** The canceller's coefficient at the top position of a is a's leading coefficient. */
  lemma CancellerLead(a: Poly, m: Poly, p: int, n: nat)
    requires CanDivide(m, p) && IsPoly(a, p) && |a| >= |m| && n + 1 == |a|
    ensures Coef(Canceller(a, m, p), n) == a[n]
  {
    var t := LeadQuot(a, m, p);
    var s := Scale(t, m, p);
    var d: nat := |a| - |m|;
    var top: nat := |m| - 1;
    assert Coef(Canceller(a, m, p), n) == Coef(s, top) by {
      CoefShiftN(s, d);
    }
    assert Coef(s, top) == MulC(t, Lc(m), p) by {
      CoefScale(t, m, p);
    }
    MulCCancel(a[n], Lc(m), p);
  }

  /** One long-division step lowers the length: the leading term cancels. */
  lemma CancellerCancels(a: Poly, m: Poly, p: int)
    requires CanDivide(m, p) && IsPoly(a, p) && |a| >= |m|
    ensures |Sub(a, Canceller(a, m, p), p)| < |a|
  {
    var n: nat := |a| - 1;
    var c := Canceller(a, m, p);
    var r := Sub(a, c, p);
    CancellerLead(a, m, p, n);
    CoefAdd(a, Neg(c, p), p);
    CoefNeg(c, p);
    AddCNeg(a[n], p);
    assert Coef(r, n) == 0;
  }

  /** The remainder of long division by m: repeatedly cancel the leading term. */
  function Mod(a: Poly, m: Poly, p: int): (r: Poly)
    requires CanDivide(m, p) && IsPoly(a, p)
    ensures IsPoly(r, p) && |r| < |m|
    ensures |a| < |m| ==> r == a
    decreases |a|
  {
    if |a| < |m| then a
    else
      CancellerCancels(a, m, p);
      Mod(Sub(a, Canceller(a, m, p), p), m, p)
  }

  /** The recursive case of Mod. */
  lemma ModStep(a: Poly, m: Poly, p: int)
    requires CanDivide(m, p) && IsPoly(a, p) && |a| >= |m|
    ensures Mod(a, m, p) == Mod(Sub(a, Canceller(a, m, p), p), m, p)
  {
  }

  /** Decodes n big-endian coefficients (highest power first), reducing each mod p. */
  function FromArray(arr: seq<int>, n: nat, p: int): (r: Poly)
    requires p >= 2 && n <= |arr|
    ensures IsPoly(r, p) && |r| <= n
  {
    Trim(seq(n, i requires 0 <= i < n => arr[n - 1 - i] % p))
  }

  lemma CoefFromArray(arr: seq<int>, n: nat, p: int)
    requires p >= 2 && n <= |arr|
    ensures forall i: nat {:trigger Coef(FromArray(arr, n, p), i)} ::
      Coef(FromArray(arr, n, p), i) == if i < n then arr[n - 1 - i] % p else 0
  {
    CoefTrim(seq(n, i requires 0 <= i < n => arr[n - 1 - i] % p));
  }
}
