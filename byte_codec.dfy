// The byte codec between GF(2) polynomials of degree below 8 and unsigned 8-bit values:
// bit i of the byte is the coefficient of x^i. The generator decodes its configuration
// bytes with FromUint8 and encodes every output with ToUint8.
module ByteCodec {
  import opened Zp
  import opened Polynom
  import opened FiniteField
  import opened FieldElement

  /** An unsigned 8-bit value. */
  type byte = b: int | 0 <= b < 256

  function Pow2(n: nat): (r: nat)
    ensures r >= 1
  {
    if n == 0 then 1 else 2 * Pow2(n - 1)
  }

  /** The n low bits of b, least significant first. */
  function Bits(b: nat, n: nat): (r: seq<int>)
    ensures |r| == n
    ensures forall i :: 0 <= i < n ==> IsCoef(r[i], 2)
  {
    if n == 0 then [] else [b % 2] + Bits(b / 2, n - 1)
  }

  /** Bit i of b. */
  function Bit(b: nat, i: nat): int {
    (b / Pow2(i)) % 2
  }

  /** Dividing by 2 * q is halving and then dividing by q. */
  lemma HalveDiv(b: nat, q: nat)
    requires q >= 1
    ensures b / (2 * q) == (b / 2) / q
  {
    var h, r0 := b / 2, b % 2;
    var t, r1 := h / q, h % q;
    assert h == t * q + r1;
    assert b == t * (2 * q) + (2 * r1 + r0);
    DivModUnique(b, t, 2 * r1 + r0, 2 * q);
  }

  /** Bits lists the bits of b in order. */
  lemma {:induction false} BitsAt(b: nat, n: nat, i: nat)
    requires i < n
    ensures Bits(b, n)[i] == Bit(b, i)
  {
    var k: nat := n - 1;
    var h: nat := b / 2;
    assert Bits(b, n) == [b % 2] + Bits(h, k);
    if i > 0 {
      var j: nat := i - 1;
      BitsAt(h, k, j);
      assert Pow2(i) == 2 * Pow2(j);
      HalveDiv(b, Pow2(j));
    }
  }

  /** The coefficients of x^0 .. x^(n-1), each taken mod 2, read as the bits of a number. */
  function Pack(s: seq<int>, n: nat): (r: nat)
    ensures r < Pow2(n)
  {
    if n == 0 then 0 else Coef(s, 0) % 2 + 2 * Pack(Tail(s), n - 1)
  }

  /** The polynomial whose coefficient of x^i is bit i of b. */
  function FromByte(b: byte): (r: Poly)
    ensures IsPoly(r, 2) && |r| <= 8
  {
    var bits := Bits(b, 8);
    var t := Trim(bits);
    assert forall i :: 0 <= i < |t| ==> t[i] == bits[i];
    t
  }

  /** The byte whose bit i is the coefficient of x^i, for i < 8. */
  function ToByte(s: Poly): (r: byte)
  {
    assert Pow2(8) == 256;
    Pack(s, 8)
  }

  lemma {:induction false} PackBits(b: nat, n: nat)
    requires b < Pow2(n)
    ensures Pack(Bits(b, n), n) == b
  {
    if n > 0 {
      var k: nat := n - 1;
      var h: nat := b / 2;
      var s := Bits(b, n);
      assert s == [b % 2] + Bits(h, k);
      assert Tail(s) == Bits(h, k) && Coef(s, 0) == b % 2;
      assert h < Pow2(k) by {
        assert Pow2(n) == 2 * Pow2(k);
      }
      PackBits(h, k);
      assert Pack(s, n) == b % 2 + 2 * h;
    }
  }

  /** Pack reads only the first n coefficients. */
  lemma {:induction false} PackSameCoefs(s: seq<int>, t: seq<int>, n: nat)
    requires forall i: nat :: i < n ==> Coef(s, i) == Coef(t, i)
    ensures Pack(s, n) == Pack(t, n)
  {
    if n > 0 {
      CoefTail(s);
      CoefTail(t);
      assert Coef(s, 0) == Coef(t, 0);
      var k: nat := n - 1;
      PackSameCoefs(Tail(s), Tail(t), k);
    }
  }

  /** Unpacking a packed word gives back coefficients that were already bits. */
  lemma {:induction false} BitsPack(s: seq<int>, n: nat)
    requires forall i: nat :: i < n ==> 0 <= Coef(s, i) < 2
    ensures forall i :: 0 <= i < n ==> Bits(Pack(s, n), n)[i] == Coef(s, i)
  {
    if n > 0 {
      var k: nat := n - 1;
      CoefTail(s);
      BitsPack(Tail(s), k);
      var w := Pack(s, n);
      var h: nat := w / 2;
      assert w % 2 == Coef(s, 0) && h == Pack(Tail(s), k);
      forall i | 0 <= i < n ensures Bits(w, n)[i] == Coef(s, i) {
        if i > 0 {
          var j: nat := i - 1;
          assert Bits(w, n)[i] == Bits(h, k)[j];
        }
      }
    }
  }

  /** Encoding a decoded byte gives the byte back. */
  lemma ToByteFromByte(b: byte)
    ensures ToByte(FromByte(b)) == b
  {
    var bits := Bits(b, 8);
    CoefTrim(bits);
    PackSameCoefs(Trim(bits), bits, 8);
    assert Pow2(8) == 256;
    PackBits(b, 8);
  }

  /** Decoding an encoded GF(2) polynomial of degree below 8 gives the polynomial back. */
  lemma FromByteToByte(s: Poly)
    requires IsPoly(s, 2) && |s| <= 8
    ensures FromByte(ToByte(s)) == s
  {
    var bits := Bits(ToByte(s), 8);
    forall i: nat | i < 8 ensures 0 <= Coef(s, i) < 2 {
      CoefOfPoly(s, 2, i);
    }
    BitsPack(s, 8);
    CoefTrim(bits);
    forall i: nat ensures Coef(Trim(bits), i) == Coef(s, i) {
      if i >= 8 {
        assert Coef(s, i) == 0;
      }
    }
    Ext(Trim(bits), s);
  }

  /** Coefficient i of a decoded byte is bit i. */
  lemma DecodeBits(b: byte)
    ensures forall i: nat :: i < 8 ==> Coef(FromByte(b), i) == Bit(b, i)
  {
    var bits := Bits(b, 8);
    CoefTrim(bits);
    forall i: nat | i < 8 ensures Coef(FromByte(b), i) == Bit(b, i) {
      BitsAt(b, 8, i);
    }
  }

  /** Bit i of an encoded GF(2) polynomial is its coefficient of x^i. */
  lemma EncodeBits(s: Poly)
    ensures IsPoly(s, 2) ==> forall i: nat :: i < 8 ==> Bit(ToByte(s), i) == Coef(s, i)
  {
    if IsPoly(s, 2) {
      forall i: nat | i < 8 ensures 0 <= Coef(s, i) < 2 {
        CoefOfPoly(s, 2, i);
      }
      BitsPack(s, 8);
      forall i: nat | i < 8 ensures Bit(ToByte(s), i) == Coef(s, i) {
        BitsAt(ToByte(s), 8, i);
      }
    }
  }

  // ---------------------------------------------------------------------
  // Element-level codec

  /** The element of f whose polynomial is decoded from b. */
  function FromUint8(f: Field, b: byte): (r: Element)
    ensures r.field == f && IsPoly(r.pol, 2) && |r.pol| <= 8
    ensures forall i: nat :: i < 8 ==> Coef(r.pol, i) == Bit(b, i)
  {
    DecodeBits(b);
    Element(FromByte(b), f)
  }

  /** The byte encoding an element's polynomial. */
  function ToUint8(e: Element): (r: byte)
    ensures IsPoly(e.pol, 2) ==> forall i: nat :: i < 8 ==> Bit(r, i) == Coef(e.pol, i)
  {
    EncodeBits(e.pol);
    ToByte(e.pol)
  }

  /** The fields the codec serves: characteristic 2 and a usable modulus of degree at least 8. */
  predicate ByteField(f: Field) {
    ValidField(f) && f.p == 2 && HasModulus(f) && |f.pol.value| >= 9
  }

  /** GF(2^8) is such a field. */
  lemma GF256IsByteField()
    ensures ByteField(GF256()) && |GF256().pol.value| == 9
  {
    GF256Shape();
    InvCOfOne(2);
  }

  /** Decoding a byte yields a reduced element that encodes back to the byte. */
  lemma FromUint8InField(f: Field, b: byte)
    requires ByteField(f)
    ensures InField(FromUint8(f, b))
    ensures ToUint8(FromUint8(f, b)) == b
  {
    ToByteFromByte(b);
  }

  /** Every reduced element of degree below 8 is the decoding of its own encoding. */
  lemma FromUint8ToUint8(e: Element)
    requires ByteField(e.field) && InField(e) && |e.pol| <= 8
    ensures FromUint8(e.field, ToUint8(e)) == e
  {
    FromByteToByte(e.pol);
  }
}
