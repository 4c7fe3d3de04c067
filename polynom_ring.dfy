/** The polynomials over Z/pZ form a commutative ring under Add and Mul.
    Every law is proved coefficient by coefficient (Polynom.Ext) or by
    induction on the row-by-row definition of Mul. */
module PolynomRing {
  import opened Zp
  import opened Polynom

  // ---------------------------------------------------------------------
  // Addition

  lemma AddComm(a: Poly, b: Poly, p: int)
    requires p >= 2
    ensures Add(a, b, p) == Add(b, a, p)
  {
    CoefAdd(a, b, p);
    CoefAdd(b, a, p);
    Ext(Add(a, b, p), Add(b, a, p));
  }

  lemma AddAssoc(a: Poly, b: Poly, c: Poly, p: int)
    requires p >= 2
    ensures Add(Add(a, b, p), c, p) == Add(a, Add(b, c, p), p)
  {
    CoefAdd(a, b, p);
    CoefAdd(Add(a, b, p), c, p);
    CoefAdd(b, c, p);
    CoefAdd(a, Add(b, c, p), p);
    forall i: nat ensures Coef(Add(Add(a, b, p), c, p), i) == Coef(Add(a, Add(b, c, p), p), i) {
      AddCAssoc(Coef(a, i), Coef(b, i), Coef(c, i), p);
    }
    Ext(Add(Add(a, b, p), c, p), Add(a, Add(b, c, p), p));
  }

  lemma AddZero(a: Poly, p: int)
    requires IsPoly(a, p)
    ensures Add(a, [], p) == a && Add([], a, p) == a
  {
    CoefAdd(a, [], p);
    CoefAdd([], a, p);
    forall i: nat ensures Coef(Add(a, [], p), i) == Coef(a, i) == Coef(Add([], a, p), i) {
      AddCZero(Coef(a, i), p);
    }
    Ext(Add(a, [], p), a);
    Ext(Add([], a, p), a);
  }

  lemma AddNegSelf(a: Poly, p: int)
    requires IsPoly(a, p)
    ensures Add(a, Neg(a, p), p) == []
  {
    CoefAdd(a, Neg(a, p), p);
    CoefNeg(a, p);
    forall i: nat ensures Coef(Add(a, Neg(a, p), p), i) == Coef([], i) {
      AddCNeg(Coef(a, i), p);
    }
    Ext(Add(a, Neg(a, p), p), []);
  }

  /** a - b == 0 only when a == b. */
  lemma SubZero(a: Poly, b: Poly, p: int)
    requires IsPoly(a, p) && IsPoly(b, p)
    requires Sub(a, b, p) == []
    ensures a == b
  {
    CoefAdd(a, Neg(b, p), p);
    CoefNeg(b, p);
    forall i: nat ensures Coef(a, i) == Coef(b, i) {
      assert Coef(Sub(a, b, p), i) == 0;
      AddCNegZero(Coef(a, i), Coef(b, i), p);
    }
    Ext(a, b);
  }

  lemma NegAdd(a: Poly, b: Poly, p: int)
    requires IsPoly(a, p) && IsPoly(b, p)
    ensures Neg(Add(a, b, p), p) == Add(Neg(a, p), Neg(b, p), p)
  {
    CoefNeg(Add(a, b, p), p);
    CoefAdd(a, b, p);
    CoefAdd(Neg(a, p), Neg(b, p), p);
    CoefNeg(a, p);
    CoefNeg(b, p);
    forall i: nat ensures Coef(Neg(Add(a, b, p), p), i) == Coef(Add(Neg(a, p), Neg(b, p), p), i) {
      NegCAdd(Coef(a, i), Coef(b, i), p);
    }
    Ext(Neg(Add(a, b, p), p), Add(Neg(a, p), Neg(b, p), p));
  }

  /** (a + b) + (c + d) == (a + c) + (b + d) */
  lemma AddSwap(a: Poly, b: Poly, c: Poly, d: Poly, p: int)
    requires p >= 2
    ensures Add(Add(a, b, p), Add(c, d, p), p) == Add(Add(a, c, p), Add(b, d, p), p)
  {
    calc {
      Add(Add(a, b, p), Add(c, d, p), p);
    ==  { AddAssoc(a, b, Add(c, d, p), p); }
      Add(a, Add(b, Add(c, d, p), p), p);
    ==  { AddAssoc(b, c, d, p); AddComm(b, c, p); AddAssoc(c, b, d, p); }
      Add(a, Add(c, Add(b, d, p), p), p);
    ==  { AddAssoc(a, c, Add(b, d, p), p); }
      Add(Add(a, c, p), Add(b, d, p), p);
    }
  }

  /** A longer summand decides the length of a sum. */
  lemma AddLenLonger(a: Poly, b: Poly, p: int)
    requires IsPoly(a, p) && IsPoly(b, p) && |a| < |b|
    ensures |Add(a, b, p)| == |b|
  {
    CoefAdd(a, b, p);
    var n := |b| - 1;
    AddCZero(b[n], p);
    assert Coef(Add(a, b, p), n) == b[n] != 0;
  }

  // ---------------------------------------------------------------------
  // Scaling and shifting

  lemma ScaleAdd(c: int, x: Poly, y: Poly, p: int)
    requires p >= 2
    ensures Scale(c, Add(x, y, p), p) == Add(Scale(c, x, p), Scale(c, y, p), p)
  {
    CoefScale(c, Add(x, y, p), p);
    CoefAdd(x, y, p);
    CoefAdd(Scale(c, x, p), Scale(c, y, p), p);
    CoefScale(c, x, p);
    CoefScale(c, y, p);
    forall i: nat ensures Coef(Scale(c, Add(x, y, p), p), i) == Coef(Add(Scale(c, x, p), Scale(c, y, p), p), i) {
      MulCAddRight(c, Coef(x, i), Coef(y, i), p);
    }
    Ext(Scale(c, Add(x, y, p), p), Add(Scale(c, x, p), Scale(c, y, p), p));
  }

  lemma ScaleAddC(c: int, d: int, x: Poly, p: int)
    requires p >= 2
    ensures Scale(AddC(c, d, p), x, p) == Add(Scale(c, x, p), Scale(d, x, p), p)
  {
    CoefScale(AddC(c, d, p), x, p);
    CoefAdd(Scale(c, x, p), Scale(d, x, p), p);
    CoefScale(c, x, p);
    CoefScale(d, x, p);
    forall i: nat ensures Coef(Scale(AddC(c, d, p), x, p), i) == Coef(Add(Scale(c, x, p), Scale(d, x, p), p), i) {
      MulCAddLeft(c, d, Coef(x, i), p);
    }
    Ext(Scale(AddC(c, d, p), x, p), Add(Scale(c, x, p), Scale(d, x, p), p));
  }

  lemma ScaleScale(c: int, d: int, x: Poly, p: int)
    requires p >= 2
    ensures Scale(c, Scale(d, x, p), p) == Scale(MulC(c, d, p), x, p)
  {
    CoefScale(c, Scale(d, x, p), p);
    CoefScale(d, x, p);
    CoefScale(MulC(c, d, p), x, p);
    forall i: nat ensures Coef(Scale(c, Scale(d, x, p), p), i) == Coef(Scale(MulC(c, d, p), x, p), i) {
      MulCAssoc(c, d, Coef(x, i), p);
    }
    Ext(Scale(c, Scale(d, x, p), p), Scale(MulC(c, d, p), x, p));
  }

  lemma ScaleShift(c: int, x: Poly, p: int)
    requires p >= 2
    ensures Scale(c, Shift(x), p) == Shift(Scale(c, x, p))
  {
    CoefScale(c, Shift(x), p);
    CoefShift(x);
    CoefShift(Scale(c, x, p));
    CoefScale(c, x, p);
    forall i: nat ensures Coef(Scale(c, Shift(x), p), i) == Coef(Shift(Scale(c, x, p)), i) {
      if i == 0 {
        assert Coef(Shift(x), 0) == 0;
        assert MulC(c, 0, p) == 0 by { assert c * 0 == 0; }
      } else {
        assert Coef(Shift(x), i) == Coef(x, i - 1);
      }
    }
    Ext(Scale(c, Shift(x), p), Shift(Scale(c, x, p)));
  }

  lemma ShiftAdd(x: Poly, y: Poly, p: int)
    requires p >= 2
    ensures Shift(Add(x, y, p)) == Add(Shift(x), Shift(y), p)
  {
    CoefShift(Add(x, y, p));
    CoefAdd(x, y, p);
    CoefAdd(Shift(x), Shift(y), p);
    CoefShift(x);
    CoefShift(y);
    forall i: nat ensures Coef(Shift(Add(x, y, p)), i) == Coef(Add(Shift(x), Shift(y), p), i) {
      if i == 0 {
        assert Coef(Shift(x), 0) == 0 && Coef(Shift(y), 0) == 0;
        assert AddC(0, 0, p) == 0;
      } else {
        assert Coef(Shift(x), i) == Coef(x, i - 1) && Coef(Shift(y), i) == Coef(y, i - 1);
      }
    }
    Ext(Shift(Add(x, y, p)), Add(Shift(x), Shift(y), p));
  }

  lemma ScaleOne(x: Poly, p: int)
    requires IsPoly(x, p)
    ensures Scale(1, x, p) == x
  {
    CoefScale(1, x, p);
    forall i: nat ensures Coef(Scale(1, x, p), i) == Coef(x, i) {
      if i < |x| {
        MulCOne(x[i], p);
      }
    }
    Ext(Scale(1, x, p), x);
  }

  lemma ScaleZero(c: int, x: Poly, p: int)
    requires p >= 2
    ensures Scale(0, x, p) == [] && Scale(c, [], p) == []
  {
    CoefScale(0, x, p);
    Ext(Scale(0, x, p), []);
  }

  lemma TailAdd(x: Poly, y: Poly, p: int)
    requires p >= 2
    ensures Tail(Add(x, y, p)) == Add(Tail(x), Tail(y), p)
  {
    CoefTail(Add(x, y, p));
    CoefAdd(x, y, p);
    CoefAdd(Tail(x), Tail(y), p);
    CoefTail(x);
    CoefTail(y);
    Ext(Tail(Add(x, y, p)), Add(Tail(x), Tail(y), p));
  }

  lemma TailScale(c: int, x: Poly, p: int)
    requires p >= 2
    ensures Tail(Scale(c, x, p)) == Scale(c, Tail(x), p)
  {
    CoefTail(Scale(c, x, p));
    CoefScale(c, x, p);
    CoefScale(c, Tail(x), p);
    CoefTail(x);
    Ext(Tail(Scale(c, x, p)), Scale(c, Tail(x), p));
  }

  /** Every polynomial is its constant term plus x times its tail. */
  lemma Decompose(z: Poly, p: int)
    requires IsPoly(z, p)
    ensures z == Add(Const(Coef(z, 0), p), Shift(Tail(z)), p)
  {
    CoefAdd(Const(Coef(z, 0), p), Shift(Tail(z)), p);
    CoefConst(Coef(z, 0), p);
    CoefShift(Tail(z));
    CoefTail(z);
    var r := Add(Const(Coef(z, 0), p), Shift(Tail(z)), p);
    forall i: nat ensures Coef(r, i) == Coef(z, i) {
      if i == 0 {
        ModOfCoef(Coef(z, 0), p);
        AddCZero(Coef(z, 0), p);
      } else {
        AddCZero(Coef(z, i), p);
      }
    }
    Ext(r, z);
  }

  // ---------------------------------------------------------------------
  // Multiplication

  /** The defining equation of Mul, extended to the zero polynomial. */
  lemma MulUnfold(z: Poly, b: Poly, p: int)
    requires IsPoly(z, p)
    ensures Mul(z, b, p) == Add(Scale(Coef(z, 0), b, p), Shift(Mul(Tail(z), b, p)), p)
  {
    if z == [] {
      ScaleZero(0, b, p);
      AddZero([], p);
    }
  }

  /** The defining equation of Mul for a non-zero left factor. */
  lemma MulCons(a: Poly, b: Poly, p: int)
    requires p >= 2 && a != []
    ensures Mul(a, b, p) == Add(Scale(a[0], b, p), Shift(Mul(a[1..], b, p)), p)
  {
  }

  lemma MulZeroRight(a: Poly, p: int)
    requires IsPoly(a, p)
    ensures Mul(a, [], p) == []
    decreases |a|
  {
    if a != [] {
      MulZeroRight(a[1..], p);
      ScaleZero(a[0], [], p);
      AddZero([], p);
    }
  }

  lemma MulOneLeft(b: Poly, p: int)
    requires IsPoly(b, p) && p >= 2
    ensures Mul([1], b, p) == b
  {
    ScaleOne(b, p);
    AddZero(b, p);
  }

  /** Multiplying by x shifts the coefficients up by one. */
  lemma MulByX(b: Poly, p: int)
    requires IsPoly(b, p)
    ensures Mul([0, 1], b, p) == Shift(b)
  {
    MulCons([0, 1], b, p);
    assert [0, 1][1..] == [1];
    MulOneLeft(b, p);
    ScaleZero(0, b, p);
    ShiftIsPoly(b, p);
    AddZero(Shift(b), p);
  }

  lemma {:induction false} MulAddLeft(x: Poly, y: Poly, b: Poly, p: int)
    requires IsPoly(x, p) && IsPoly(y, p)
    ensures Mul(Add(x, y, p), b, p) == Add(Mul(x, b, p), Mul(y, b, p), p)
    decreases |x| + |y|
  {
    if x == [] {
      AddZero(y, p);
      AddZero(Mul(y, b, p), p);
    } else if y == [] {
      AddZero(x, p);
      AddZero(Mul(x, b, p), p);
    } else {
      var z := Add(x, y, p);
      var tx, ty := Tail(x), Tail(y);
      CoefAdd(x, y, p);
      TailAdd(x, y, p);
      MulAddLeft(tx, ty, b, p);
      calc {
        Mul(z, b, p);
      ==  { MulUnfold(z, b, p); }
        Add(Scale(AddC(x[0], y[0], p), b, p), Shift(Mul(Add(tx, ty, p), b, p)), p);
      ==  { ScaleAddC(x[0], y[0], b, p);
            ShiftAdd(Mul(tx, b, p), Mul(ty, b, p), p); }
        Add(Add(Scale(x[0], b, p), Scale(y[0], b, p), p),
            Add(Shift(Mul(tx, b, p)), Shift(Mul(ty, b, p)), p), p);
      ==  { AddSwap(Scale(x[0], b, p), Scale(y[0], b, p), Shift(Mul(tx, b, p)), Shift(Mul(ty, b, p)), p); }
        Add(Add(Scale(x[0], b, p), Shift(Mul(tx, b, p)), p),
            Add(Scale(y[0], b, p), Shift(Mul(ty, b, p)), p), p);
      }
    }
  }

  lemma {:induction false} MulScaleLeft(c: int, x: Poly, b: Poly, p: int)
    requires IsPoly(x, p)
    ensures Mul(Scale(c, x, p), b, p) == Scale(c, Mul(x, b, p), p)
    decreases |x|
  {
    var s := Scale(c, x, p);
    if x == [] {
      ScaleZero(c, x, p);
    } else {
      var tx := Tail(x);
      CoefScale(c, x, p);
      TailScale(c, x, p);
      MulScaleLeft(c, tx, b, p);
      calc {
        Mul(s, b, p);
      ==  { MulUnfold(s, b, p); }
        Add(Scale(MulC(c, x[0], p), b, p), Shift(Scale(c, Mul(tx, b, p), p)), p);
      ==  { ScaleScale(c, x[0], b, p); ScaleShift(c, Mul(tx, b, p), p); }
        Add(Scale(c, Scale(x[0], b, p), p), Scale(c, Shift(Mul(tx, b, p)), p), p);
      ==  { ScaleAdd(c, Scale(x[0], b, p), Shift(Mul(tx, b, p)), p); }
        Scale(c, Mul(x, b, p), p);
      }
    }
  }

  lemma MulShiftLeft(x: Poly, b: Poly, p: int)
    requires IsPoly(x, p)
    ensures Mul(Shift(x), b, p) == Shift(Mul(x, b, p))
  {
    if x != [] {
      ShiftIsPoly(x, p);
      MulUnfold(Shift(x), b, p);
      assert Tail(Shift(x)) == x;
      ScaleZero(0, b, p);
      ShiftIsPoly(Mul(x, b, p), p);
      AddZero(Shift(Mul(x, b, p)), p);
    }
  }

  /** One step of MulAssoc: (a * b) * c, with a's lowest coefficient split off. */
  lemma MulAssocStep(a: Poly, b: Poly, c: Poly, p: int)
    requires IsPoly(a, p) && IsPoly(b, p) && a != []
    ensures Mul(Mul(a, b, p), c, p)
         == Add(Scale(a[0], Mul(b, c, p), p), Shift(Mul(Mul(a[1..], b, p), c, p)), p)
  {
    var a0, ta := a[0], a[1..];
    var row, rest := Scale(a0, b, p), Mul(ta, b, p);
    MulCons(a, b, p);
    assert Mul(a, b, p) == Add(row, Shift(rest), p);
    ShiftIsPoly(rest, p);
    MulAddLeft(row, Shift(rest), c, p);
    MulScaleLeft(a0, b, c, p);
    MulShiftLeft(rest, c, p);
  }

  lemma {:induction false} MulAssoc(a: Poly, b: Poly, c: Poly, p: int)
    requires IsPoly(a, p) && IsPoly(b, p)
    ensures Mul(Mul(a, b, p), c, p) == Mul(a, Mul(b, c, p), p)
    decreases |a|
  {
    if a != [] {
      var ta, bc := a[1..], Mul(b, c, p);
      assert Mul(Mul(a, b, p), c, p) == Add(Scale(a[0], bc, p), Shift(Mul(Mul(ta, b, p), c, p)), p) by {
        MulAssocStep(a, b, c, p);
      }
      assert Mul(Mul(ta, b, p), c, p) == Mul(ta, bc, p) by {
        MulAssoc(ta, b, c, p);
      }
      assert Mul(a, bc, p) == Add(Scale(a[0], bc, p), Shift(Mul(ta, bc, p)), p) by {
        MulCons(a, bc, p);
      }
    }
  }

  lemma {:induction false} MulAddRight(b: Poly, x: Poly, y: Poly, p: int)
    requires IsPoly(b, p)
    ensures Mul(b, Add(x, y, p), p) == Add(Mul(b, x, p), Mul(b, y, p), p)
    decreases |b|
  {
    if b == [] {
      AddZero([], p);
    } else {
      var tb := b[1..];
      MulAddRight(tb, x, y, p);
      calc {
        Mul(b, Add(x, y, p), p);
        Add(Scale(b[0], Add(x, y, p), p), Shift(Mul(tb, Add(x, y, p), p)), p);
      ==  { ScaleAdd(b[0], x, y, p); ShiftAdd(Mul(tb, x, p), Mul(tb, y, p), p); }
        Add(Add(Scale(b[0], x, p), Scale(b[0], y, p), p),
            Add(Shift(Mul(tb, x, p)), Shift(Mul(tb, y, p)), p), p);
      ==  { AddSwap(Scale(b[0], x, p), Scale(b[0], y, p), Shift(Mul(tb, x, p)), Shift(Mul(tb, y, p)), p); }
        Add(Mul(b, x, p), Mul(b, y, p), p);
      }
    }
  }

  lemma ScaleConstComm(c: int, d: int, p: int)
    requires p >= 2 && IsCoef(c, p) && IsCoef(d, p)
    ensures Scale(c, Const(d, p), p) == Scale(d, Const(c, p), p)
  {
    CoefScale(c, Const(d, p), p);
    CoefScale(d, Const(c, p), p);
    CoefConst(c, p);
    CoefConst(d, p);
    ModOfCoef(c, p);
    ModOfCoef(d, p);
    assert c * d == d * c;
    Ext(Scale(c, Const(d, p), p), Scale(d, Const(c, p), p));
  }

  lemma {:induction false} MulConstRight(b: Poly, c: int, p: int)
    requires IsPoly(b, p) && IsCoef(c, p)
    ensures Mul(b, Const(c, p), p) == Scale(c, b, p)
    decreases |b|
  {
    if b == [] {
      ScaleZero(c, b, p);
    } else {
      var tb := b[1..];
      MulConstRight(tb, c, p);
      calc {
        Mul(b, Const(c, p), p);
        Add(Scale(b[0], Const(c, p), p), Shift(Mul(tb, Const(c, p), p)), p);
      ==  { ScaleConstComm(b[0], c, p); ScaleShift(c, tb, p); }
        Add(Scale(c, Const(b[0], p), p), Scale(c, Shift(tb), p), p);
      ==  { ScaleAdd(c, Const(b[0], p), Shift(tb), p); }
        Scale(c, Add(Const(b[0], p), Shift(tb), p), p);
      ==  { Decompose(b, p); }
        Scale(c, b, p);
      }
    }
  }

  lemma {:induction false} MulShiftRight(b: Poly, x: Poly, p: int)
    requires IsPoly(b, p)
    ensures Mul(b, Shift(x), p) == Shift(Mul(b, x, p))
    decreases |b|
  {
    if b != [] {
      var tb := b[1..];
      MulShiftRight(tb, x, p);
      calc {
        Mul(b, Shift(x), p);
        Add(Scale(b[0], Shift(x), p), Shift(Mul(tb, Shift(x), p)), p);
      ==  { ScaleShift(b[0], x, p); }
        Add(Shift(Scale(b[0], x, p)), Shift(Shift(Mul(tb, x, p))), p);
      ==  { ShiftAdd(Scale(b[0], x, p), Shift(Mul(tb, x, p)), p); }
        Shift(Mul(b, x, p));
      }
    }
  }

  lemma {:induction false} MulComm(a: Poly, b: Poly, p: int)
    requires IsPoly(a, p) && IsPoly(b, p)
    ensures Mul(a, b, p) == Mul(b, a, p)
    decreases |a|
  {
    if a == [] {
      MulZeroRight(b, p);
    } else {
      var ta := a[1..];
      MulComm(ta, b, p);
      calc {
        Mul(b, a, p);
      ==  { Decompose(a, p); }
        Mul(b, Add(Const(a[0], p), Shift(ta), p), p);
      ==  { MulAddRight(b, Const(a[0], p), Shift(ta), p); }
        Add(Mul(b, Const(a[0], p), p), Mul(b, Shift(ta), p), p);
      ==  { MulConstRight(b, a[0], p); MulShiftRight(b, ta, p); }
        Add(Scale(a[0], b, p), Shift(Mul(b, ta, p)), p);
      ==
        Mul(a, b, p);
      }
    }
  }

  lemma MulOneRight(b: Poly, p: int)
    requires IsPoly(b, p) && p >= 2
    ensures Mul(b, [1], p) == b
  {
    MulComm(b, [1], p);
    MulOneLeft(b, p);
  }

  /** With an invertible leading coefficient of m, a non-zero multiple of m is at least as long as m. */
  lemma {:induction false} MulLen(q: Poly, m: Poly, p: int)
    requires IsPoly(q, p) && q != [] && CanDivide(m, p)
    ensures |Mul(q, m, p)| == |q| + |m| - 1
    decreases |q|
  {
    CoefScale(q[0], m, p);
    var tq := q[1..];
    var s := Scale(q[0], m, p);
    if tq == [] {
      assert q[0] != 0;
      var n := |m| - 1;
      assert Coef(s, n) == MulC(q[0], Lc(m), p);
      if MulC(q[0], Lc(m), p) == 0 {
        MulCInvertibleNonZero(q[0], Lc(m), p);
      }
      MulZeroRight([], p);
      AddZero(s, p);
    } else {
      MulLen(tq, m, p);
      ShiftIsPoly(Mul(tq, m, p), p);
      AddLenLonger(s, Shift(Mul(tq, m, p)), p);
    }
  }

  /** a - b == d - c whenever a + c == b + d. */
  lemma AddCancel(a: Poly, b: Poly, c: Poly, d: Poly, p: int)
    requires p >= 2
    requires Add(a, c, p) == Add(b, d, p)
    ensures Sub(a, b, p) == Sub(d, c, p)
  {
    CoefAdd(a, c, p);
    CoefAdd(b, d, p);
    CoefAdd(a, Neg(b, p), p);
    CoefNeg(b, p);
    CoefAdd(d, Neg(c, p), p);
    CoefNeg(c, p);
    forall i: nat ensures Coef(Sub(a, b, p), i) == Coef(Sub(d, c, p), i) {
      assert Coef(Add(a, c, p), i) == Coef(Add(b, d, p), i);
      AddCCancel(Coef(a, i), Coef(b, i), Coef(c, i), Coef(d, i), p);
    }
    Ext(Sub(a, b, p), Sub(d, c, p));
  }

  /** (b + c) - c == b */
  lemma AddSubCancel(b: Poly, c: Poly, p: int)
    requires IsPoly(b, p) && IsPoly(c, p)
    ensures Add(Sub(b, c, p), c, p) == b
  {
    calc {
      Add(Add(b, Neg(c, p), p), c, p);
    ==  { AddAssoc(b, Neg(c, p), c, p); AddComm(Neg(c, p), c, p); }
      Add(b, Add(c, Neg(c, p), p), p);
    ==  { AddNegSelf(c, p); AddZero(b, p); }
      b;
    }
  }

  lemma NegIsScale(x: Poly, p: int)
    requires IsPoly(x, p)
    ensures Neg(x, p) == Scale(p - 1, x, p)
  {
    CoefNeg(x, p);
    CoefScale(p - 1, x, p);
    forall i: nat ensures Coef(Neg(x, p), i) == Coef(Scale(p - 1, x, p), i) {
      NegCIsMulC(Coef(x, i), p);
    }
    Ext(Neg(x, p), Scale(p - 1, x, p));
  }

  lemma MulNegLeft(q: Poly, m: Poly, p: int)
    requires IsPoly(q, p)
    ensures Neg(Mul(q, m, p), p) == Mul(Neg(q, p), m, p)
  {
    var c := p - 1;
    var qm := Mul(q, m, p);
    var nq := Neg(q, p);
    NegIsScale(qm, p);
    assert Neg(qm, p) == Scale(c, qm, p);
    NegIsScale(q, p);
    assert nq == Scale(c, q, p);
    MulScaleLeft(c, q, m, p);
    assert Mul(Scale(c, q, p), m, p) == Scale(c, qm, p);
  }
}
