// The linear-recurrence byte generator over GF(2^8). Its state is a window of k field
// elements x_0 .. x_(k-1), k coefficients a_0 .. a_(k-1) and a constant c. Each call
// produces x_new = c + a_0 * x_0 + ... + a_(k-1) * x_(k-1), emits its byte encoding and
// slides the window by one. Both state-changing operations build their new buffers
// completely before swapping them in, so a failure leaves the state as it was.
module RandomGenerator {
  import opened Wrappers
  import opened FiniteField
  import opened FieldElement
  import opened ByteCodec

  predicate AllWf(s: seq<Element>) {
    forall i :: 0 <= i < |s| ==> Wf(s[i])
  }

  /** Every element is reduced and lives in the field f. */
  predicate AllIn(s: seq<Element>, f: Field) {
    forall i :: 0 <= i < |s| ==> InField(s[i]) && s[i].field == f
  }

  /**
   * The running sum after the first n taps: starting from zero, step i multiplies
   * taps[i] by window[i] and adds the running sum to the product.
   */
  function Accumulate(taps: seq<Element>, window: seq<Element>, n: nat, zero: Element): (r: ElemResult)
    requires |taps| == |window| && n <= |taps|
    requires AllWf(taps) && AllWf(window) && Wf(zero)
    ensures r.Success? ==> Wf(r.value)
    ensures r.Success? && n > 0 ==> r.value.field == taps[n - 1].field
  {
    if n == 0 then Success(zero)
    else
      match Accumulate(taps, window, n - 1, zero)
      case Failure(e) => Failure(e)
      case Success(acc) =>
        match Mult(taps[n - 1], window[n - 1])
        case Failure(e) => Failure(e)
        case Success(summand) => FieldElement.Add(summand, acc)
  }

  /** The next value of the recurrence: c plus the sum over all taps. */
  function Next(taps: seq<Element>, window: seq<Element>, c: Element, zero: Element): (r: ElemResult)
    requires |taps| == |window|
    requires AllWf(taps) && AllWf(window) && Wf(c) && Wf(zero)
    ensures r.Success? ==> Wf(r.value) && r.value.field == c.field
  {
    match Accumulate(taps, window, |taps|, zero)
    case Failure(e) => Failure(e)
    case Success(sum) => FieldElement.Add(c, sum)
  }

  /** One step of the sum: the product of the next tap and window element, plus the sum so far. */
  lemma AccumulateStep(taps: seq<Element>, window: seq<Element>, i: nat, n: nat, zero: Element, acc: Element)
    requires |taps| == |window| && i < |taps| && n == i + 1
    requires AllWf(taps) && AllWf(window) && Wf(zero)
    requires Accumulate(taps, window, i, zero) == Success(acc)
    ensures Mult(taps[i], window[i]).Failure? ==> Accumulate(taps, window, n, zero).Failure?
    ensures Mult(taps[i], window[i]).Success? ==>
      Accumulate(taps, window, n, zero) == FieldElement.Add(Mult(taps[i], window[i]).value, acc)
  {
  }

  /** One step of the loop of get_random: a failure at step i fails the whole sum, and a success extends it. */
  lemma SumStep(taps: seq<Element>, window: seq<Element>, i: nat, n: nat, zero: Element, acc: Element)
    requires |taps| == |window| && i < |taps| && n == i + 1
    requires AllWf(taps) && AllWf(window) && Wf(zero)
    requires Accumulate(taps, window, i, zero) == Success(acc)
    ensures Mult(taps[i], window[i]).Failure? ==> Accumulate(taps, window, |taps|, zero).Failure?
    ensures Mult(taps[i], window[i]).Success? ==>
      var sum := FieldElement.Add(Mult(taps[i], window[i]).value, acc);
      (sum.Failure? ==> Accumulate(taps, window, |taps|, zero).Failure?) &&
      (sum.Success? ==> Accumulate(taps, window, n, zero) == sum)
  {
    AccumulateStep(taps, window, i, n, zero, acc);
    if Accumulate(taps, window, n, zero).Failure? {
      AccumulateFails(taps, window, n, |taps|, zero);
    }
  }

  /** The next value is c plus the full sum, and fails exactly when the sum does or the addition does. */
  lemma NextFromSum(taps: seq<Element>, window: seq<Element>, c: Element, zero: Element, ok: bool, xn: Element)
    requires |taps| == |window|
    requires AllWf(taps) && AllWf(window) && Wf(c) && Wf(zero)
    requires ok <==> Accumulate(taps, window, |taps|, zero).Success?
    requires ok ==> Success(xn) == Accumulate(taps, window, |taps|, zero)
    ensures !ok ==> Next(taps, window, c, zero).Failure?
    ensures ok ==> Wf(xn) && Next(taps, window, c, zero) == FieldElement.Add(c, xn)
  {
  }

  /** Once a step of the sum fails, every longer sum fails too. */
  lemma {:induction false} AccumulateFails(taps: seq<Element>, window: seq<Element>, i: nat, n: nat, zero: Element)
    requires |taps| == |window| && i <= n <= |taps|
    requires AllWf(taps) && AllWf(window) && Wf(zero)
    requires Accumulate(taps, window, i, zero).Failure?
    ensures Accumulate(taps, window, n, zero).Failure?
  {
    if n > i {
      var m: nat := n - 1;
      AccumulateFails(taps, window, i, m, zero);
      FailureExtends(taps, window, m, n, zero);
    }
  }

  /** A failed sum stays failed for one more tap. */
  lemma FailureExtends(taps: seq<Element>, window: seq<Element>, m: nat, n: nat, zero: Element)
    requires |taps| == |window| && n <= |taps| && n == m + 1
    requires AllWf(taps) && AllWf(window) && Wf(zero)
    requires Accumulate(taps, window, m, zero).Failure?
    ensures Accumulate(taps, window, n, zero).Failure?
  {
  }

  /** With every tap, window element and the zero in one field, the sum succeeds and stays reduced. */
  lemma {:induction false} AccumulateInField(taps: seq<Element>, window: seq<Element>, n: nat, f: Field)
    requires |taps| == |window| && n <= |taps|
    requires ValidField(f) && HasModulus(f) && AllIn(taps, f) && AllIn(window, f)
    ensures AllWf(taps) && AllWf(window)
    ensures var r := Accumulate(taps, window, n, GetZero(f)); r.Success? && InField(r.value) && r.value.field == f
  {
    AllInWf(taps, f);
    AllInWf(window, f);
    if n > 0 {
      var i: nat := n - 1;
      AccumulateInField(taps, window, i, f);
      InFieldExtends(taps, window, i, n, f);
    }
  }

  /** Adding one more in-field product to an in-field sum gives an in-field sum. */
  lemma InFieldExtends(taps: seq<Element>, window: seq<Element>, i: nat, n: nat, f: Field)
    requires |taps| == |window| && n <= |taps| && n == i + 1
    requires ValidField(f) && HasModulus(f) && AllIn(taps, f) && AllIn(window, f)
    requires AllWf(taps) && AllWf(window)
    requires var r := Accumulate(taps, window, i, GetZero(f)); r.Success? && InField(r.value) && r.value.field == f
    ensures var r := Accumulate(taps, window, n, GetZero(f)); r.Success? && InField(r.value) && r.value.field == f
  {
    assert taps[i].field == f && window[i].field == f;
  }

  /** Reduced elements of one field are well formed. */
  lemma AllInWf(s: seq<Element>, f: Field)
    requires AllIn(s, f)
    ensures AllWf(s)
  {
  }

  /** A configured generator never fails: the next value exists and is a reduced element of f. */
  lemma NextInField(taps: seq<Element>, window: seq<Element>, c: Element, f: Field)
    requires |taps| == |window|
    requires ValidField(f) && HasModulus(f) && AllIn(taps, f) && AllIn(window, f)
    requires InField(c) && c.field == f
    ensures Next(taps, window, c, GetZero(f)).Success?
    ensures InField(Next(taps, window, c, GetZero(f)).value)
    ensures Next(taps, window, c, GetZero(f)).value.field == f
  {
    AccumulateInField(taps, window, |taps|, f);
  }

  /** The first n slots of s hold the window shifted back by one. */
  predicate Shifted(s: seq<Element>, window: seq<Element>, n: nat) {
    n <= |s| && n < |window| && forall j :: 0 <= j < n ==> s[j] == window[j + 1]
  }

  /** The copy in the loop of get_random: slot i - 1 of tmp receives window element i. */
  method CopyShifted(tmp: array<Element>, window: seq<Element>, i: nat, ghost prev: nat)
    requires 1 <= i < |window| == tmp.Length && prev + 1 == i && Shifted(tmp[..], window, prev)
    modifies tmp
    ensures tmp[..] == old(tmp[..])[prev := window[i]]
    ensures Shifted(tmp[..], window, i)
  {
    tmp[i - 1] := Copy(window[i]);
  }

  /**
   * The loop of get_random: sums the products of the taps and the window into xn and
   * copies the window shifted by one into the first k - 1 slots of tmp.
   */
  method SumTaps(taps: seq<Element>, window: seq<Element>, f: Field, tmp: array<Element>) returns (ok: bool, xn: Element)
    requires |taps| == |window| == tmp.Length >= 1 && AllWf(taps) && AllWf(window) && ValidField(f)
    modifies tmp
    ensures ok <==> Accumulate(taps, window, |taps|, GetZero(f)).Success?
    ensures ok ==> Success(xn) == Accumulate(taps, window, |taps|, GetZero(f))
    ensures ok ==> Shifted(tmp[..], window, |taps| - 1)
  {
    ghost var zero := GetZero(f);
    ghost var copied: nat := 0;
    xn := GetZero(f);
    var i: nat := 0;
    while i < |taps|
      invariant i <= |taps| && copied <= i && (i > 0 ==> copied + 1 == i)
      invariant Accumulate(taps, window, i, zero) == Success(xn)
      invariant Shifted(tmp[..], window, copied)
    {
      ghost var next: nat := i + 1;
      SumStep(taps, window, i, next, zero, xn);
      var summand := Mult(taps[i], window[i]);
      if summand.Failure? {
        return false, xn;
      }
      if i != 0 {
        CopyShifted(tmp, window, i, copied);
        copied := i;
      }
      var sum := FieldElement.Add(summand.value, xn);
      if sum.Failure? {
        return false, xn;
      }
      xn := sum.value;
      i := i + 1;
    }
    return true, xn;
  }

  /** Sliding the window by one and appending e keeps every element well formed, or in f. */
  lemma SlideKeeps(window: seq<Element>, e: Element, f: Field)
    requires |window| >= 1
    ensures AllWf(window) && Wf(e) ==> AllWf(window[1..] + [e])
    ensures AllIn(window, f) && InField(e) && e.field == f ==> AllIn(window[1..] + [e], f)
  {
  }

  /**
   * The loop of init_random: for i = 1 .. n, reads buff[i] into ta[i - 1] and buff[i + n]
   * into tx[i - 1], decoded into f. Fails when a read falls beyond buff.
   */
  method ReadTaps(buff: seq<byte>, n: nat, f: Field, ta: array<Element>, tx: array<Element>) returns (ok: bool)
    requires ta.Length == n && tx.Length == n && ta != tx
    modifies ta, tx
    ensures ok <==> n == 0 || 2 * n < |buff|
    ensures ok ==> forall j :: 0 <= j < n ==> ta[j] == FromUint8(f, buff[1 + j])
    ensures ok ==> forall j :: 0 <= j < n ==> tx[j] == FromUint8(f, buff[1 + n + j])
  {
    var i: nat := 1;
    while i <= n
      invariant 1 <= i <= n + 1
      invariant i == 1 || i - 1 + n < |buff|
      invariant forall j :: 0 <= j < i - 1 ==> ta[j] == FromUint8(f, buff[1 + j])
      invariant forall j :: 0 <= j < i - 1 ==> tx[j] == FromUint8(f, buff[1 + n + j])
    {
      if i >= |buff| || i + n >= |buff| {
        return false;
      }
      ta[i - 1] := FromUint8(f, buff[i]);
      tx[i - 1] := FromUint8(f, buff[i + n]);
      i := i + 1;
    }
    return true;
  }

  /** Two fresh, distinct element buffers of length n. */
  method AllocBuffers(n: nat) returns (ta: array<Element>, tx: array<Element>)
    ensures fresh(ta) && fresh(tx) && ta != tx
    ensures ta.Length == n && tx.Length == n
  {
    ta := new Element[n];
    tx := new Element[n];
  }

  class Generator {
    var k: nat
    var a: array<Element>
    var x: array<Element>
    var c: Option<Element>
    var field: Field

    /** The buffers hold k well-formed elements each, k fits a byte and the field is one the byte codec serves. */
    ghost predicate Valid()
      reads this, a, x
    {
      k < 256 && a.Length == k && x.Length == k && ByteField(field)
      && AllWf(a[..]) && AllWf(x[..]) && (c.Some? ==> Wf(c.value))
    }

    /** Configured with at least one tap, and every element a reduced element of the field. */
    ghost predicate Configured()
      reads this, a, x
    {
      Valid() && k >= 1 && c.Some? && InField(c.value) && c.value.field == field
      && AllIn(a[..], field) && AllIn(x[..], field)
    }

    /** The value the next call produces, on the current state. */
    ghost function NextValue(): ElemResult
      reads this, a, x
      requires Valid() && c.Some?
    {
      Next(a[..], x[..], c.value, GetZero(field))
    }

    /** An unconfigured generator over GF(2^8): no taps, empty buffers, no constant. */
    constructor ()
      ensures Valid()
      ensures k == 0 && a.Length == 0 && x.Length == 0 && c == None && field == GF256()
    {
      GF256IsByteField();
      k := 0;
      a := new Element[0];
      x := new Element[0];
      c := None;
      field := GF256();
    }

    /**
     * The commit at the end of get_random: v goes into the last slot of tmp, its byte
     * into target[0], and tmp becomes the window.
     */
    method Commit(tmp: array<Element>, v: Element, target: array<byte>)
      requires Valid() && k >= 1 && tmp.Length == k && tmp != a && tmp != x && target.Length >= 1
      requires Wf(v) && Shifted(tmp[..], x[..], k - 1)
      modifies this, tmp, target
      ensures Valid()
      ensures k == old(k) && a == old(a) && c == old(c) && field == old(field)
      ensures x == tmp && x[..] == old(x[1..]) + [v]
      ensures target[0] == ToUint8(v) && target[1..] == old(target[1..])
      ensures old(Configured()) && InField(v) && v.field == field ==> Configured()
    {
      ghost var window := x[..];
      tmp[k - 1] := v;
      target[0] := ToUint8(v);
      assert tmp[..] == window[1..] + [v];
      SlideKeeps(window, v, field);
      x := tmp;
    }

    /**
     * Computes the next value, writes its byte to target[0] and slides the window.
     * Returns 0 on success and -1, with nothing changed, on failure.
     */
    method GetRandom(target: array<byte>) returns (status: int)
      requires Valid() && k >= 1 && c.Some? && target.Length >= 1
      modifies this, target
      ensures Valid()
      ensures k == old(k) && a == old(a) && c == old(c) && field == old(field)
      ensures status == 0 || status == -1
      ensures status == 0 <==> old(NextValue()).Success?
      ensures status == 0 ==> fresh(x) && x[..] == old(x[1..]) + [old(NextValue()).value]
      ensures status == 0 ==> target[0] == ToUint8(old(NextValue()).value) && target[1..] == old(target[1..])
      ensures status != 0 ==> x == old(x) && target[..] == old(target[..])
      ensures old(Configured()) ==> status == 0 && Configured()
    {
      ghost var taps, window := a[..], x[..];
      if Configured() {
        NextInField(taps, window, c.value, field);
      }
      var tmp := new Element[k];
      var ok, xn := SumTaps(a[..], x[..], field, tmp);
      NextFromSum(taps, window, c.value, GetZero(field), ok, xn);
      status := -1;
      if ok {
        var next := FieldElement.Add(c.value, xn);
        if next.Success? {
          Commit(tmp, next.value, target);
          status := 0;
        }
      }
    }

    /**
     * Reads k, then a_0 .. a_(k-1), x_0 .. x_(k-1) and c from buff, one byte each.
     * Returns -1, with nothing changed, when buff ends before c; the length the
     * caller passes is never consulted, so buff stands for the readable bytes.
     */
    method InitRandom(buff: seq<byte>) returns (status: int)
      requires Valid()
      modifies this
      ensures Valid() && field == old(field)
      ensures status == 0 || status == -1
      ensures status == 0 <==> |buff| >= 1 && |buff| >= 2 * (buff[0] as int) + 2
      ensures status == 0 ==> k == buff[0] && fresh(a) && fresh(x) && c == Some(FromUint8(field, buff[2 * k + 1]))
      ensures status == 0 ==> forall j :: 0 <= j < k ==> a[j] == FromUint8(field, buff[1 + j])
      ensures status == 0 ==> forall j :: 0 <= j < k ==> x[j] == FromUint8(field, buff[1 + k + j])
      ensures status != 0 ==> k == old(k) && a == old(a) && x == old(x) && c == old(c)
      ensures status == 0 && buff[0] >= 1 ==> Configured()
    {
      status := -1;
      if |buff| > 0 {
        var n: nat := buff[0];
        var ta, tx := AllocBuffers(n);
        var ok := ReadTaps(buff, n, field, ta, tx);
        if ok && 2 * n + 1 < |buff| {
          var cn := FromUint8(field, buff[2 * n + 1]);
          Install(n, ta, tx, cn, buff);
          status := 0;
        }
      }
    }

    /** The swaps at the end of init_random: the decoded buffers and constant replace the old ones. */
    method Install(n: nat, ta: array<Element>, tx: array<Element>, cn: Element, ghost buff: seq<byte>)
      requires Valid() && n < 256 && ta.Length == n && tx.Length == n
      requires |buff| >= 2 * n + 2 && cn == FromUint8(field, buff[2 * n + 1])
      requires forall j :: 0 <= j < n ==> ta[j] == FromUint8(field, buff[1 + j])
      requires forall j :: 0 <= j < n ==> tx[j] == FromUint8(field, buff[1 + n + j])
      modifies this
      ensures Valid() && field == old(field)
      ensures k == n && a == ta && x == tx && c == Some(cn)
      ensures n >= 1 ==> Configured()
    {
      forall b: byte ensures InField(FromUint8(field, b)) {
        FromUint8InField(field, b);
      }
      a := ta;
      x := tx;
      k := n;
      c := Some(cn);
    }
  }
}
