# ChardriverHW: finite fields, field elements and the GF(2^8) byte generator

ChardriverHW is a Linux character driver project whose finite-field recurrence is meant to
produce pseudo-random bytes. The bytes would come from a linear recurrence over the finite
field GF(2^8):

    x_new = c + a_0 * x_0 + ... + a_(k-1) * x_(k-1)

The generator is meant to back the device: a write would configure k, the taps a_i, the
initial window x_i and the constant c (the byte layout `init_random` reads, which
tst/test.c writes to the device), and each read would emit the byte encoding of x_new and
slide the window by one. The driver in driver.c does not call the generator yet: its
`device_write` rejects every write with -EINVAL, and its `device_read` copies from a
static message buffer that nothing ever writes, so every read returns 0 bytes.

This project models three layers of that driver:

- **Field descriptors** (`field.dfy`, module `FiniteField`). A descriptor is a
  characteristic p plus an optional modulus polynomial. `CreateFp` builds a prime field
  with the placeholder modulus x. `CreateFq` decodes a big-endian coefficient array.
  `AreEqualFields` compares two descriptors. `GF256` is the generator's field, with the
  modulus x^8 + x^7 + x^6 + x^5 + x^4 + x^3 + 1.
- **Field elements** (`field_element.dfy`, module `FieldElement`). An element is a
  polynomial together with its field. The module has:
  - zero and identity;
  - reduction modulo the field's modulus (`Descend`);
  - `Add`, `Neg`, `Sub`, `Mult` and `AreEqual`;
  - integer and element square-and-multiply powers (`IntFastPow` and `ElementFastPow`),
    both written as loops and proved against reference powers;
  - the Fermat-style inverse `Inv`, plus `Pow` and `Division`.

  Every C null return other than an allocation failure becomes a `Result` failure with a
  reason (`FieldMismatch`, `InvalidModulus` or `DivisionByZero`). `element_laws.dfy`
  (module `ElementLaws`) proves these ring laws within one field: commutativity,
  associativity, units, additive inverses and distributivity. In every prime field it
  computes `Inv` of a constant as a^(p-2) mod p. It checks `Inv` against the real inverse
  for single elements: x in GF(4), 2 in GF(5), and x in the generator's GF(2^8). The last
  one evaluates x^254 on 8-bit words, where multiplying by x is a shift followed by an
  exclusive or with 0xF9.
- **The generator** (`generator.dfy`, module `RandomGenerator`). It is a class whose
  fields are those of `struct generator`: k, the tap buffer `a`, the window buffer `x`,
  the constant `c` and the field. `GetRandom` is proved against the value-level
  recurrence `Next` (built from `Accumulate`); `InitRandom` is proved against the byte
  decoding `FromUint8` of the configuration bytes. Together they promise three things:
  - a failure changes nothing;
  - success installs exactly the decoded configuration, or slides the window and emits
    the byte of the next value;
  - a configured generator never fails.

  `byte_codec.dfy` (module `ByteCodec`) is the bijection between bytes and GF(2)
  polynomials of degree below 8: bit i of the byte is the coefficient of x^i.

polynom.c is not part of this model. The polynomial arithmetic the elements rely on is
defined here from scratch, in these files:

- `zp.dfy`: coefficients in Z/pZ;
- `polynom.dfy`: trimmed little-endian polynomials, addition, negation, scaling, product,
  long-division remainder and decoding from arrays;
- `polynom_ring.dfy`: the ring laws of these polynomials;
- `polynom_mod.dfy`: the division identity, arithmetic modulo a polynomial and the
  reference power `PolyPow`.

The remainder is defined whenever the modulus's leading coefficient is invertible mod p
(`CanDivide`). `wrappers.dfy` holds `Option` and `Result`.

## Model

| member | source | states |
|---|---|---|
| FiniteField.CreateFp | finite_field.c:3-14 | the prime field GF(p) keeps p and gets the placeholder modulus x, decoded from big-endian {1, 0} |
| FiniteField.PlaceholderModulus | finite_field.c:7-8 | the two-entry array {1, 0} read highest power first is the polynomial x |
| FiniteField.CreateFq | finite_field.c:18-28 | the modulus's coefficient of x^i is entry deg - i of the array reduced mod p, for i <= deg, and 0 above deg; the result is a valid descriptor with a modulus |
| FiniteField.AreEqualFields | finite_field.c:30-39 | descriptors with different p are never equal; when either modulus is missing, they are equal exactly when both are missing and p agrees |
| FiniteField.AreEqualFieldsIsEquality | finite_field.c:30-39 | the comparison holds exactly when the two descriptors are equal |
| FiniteField.AreEqualFieldsReflexive | finite_field.c:31-33 | a descriptor equals itself |
| FiniteField.AreEqualFieldsSymmetric | finite_field.c:30-39 | the comparison does not depend on the order of its arguments |
| FiniteField.AreEqualFieldsModuli | finite_field.c:34-38 | when both moduli are present, the fields are equal iff p and the moduli agree |
| FiniteField.GF256 | generator.c:10-11 | the generator's field, built by CreateFq(2, 8, ...) from the nine-entry array, is a valid descriptor |
| FiniteField.GF256Shape | generator.c:10-11 | the generator's field has p = 2 and the nine-coefficient modulus x^8+x^7+x^6+x^5+x^4+x^3+1 |
| FieldElement.GetZero | field_element.c:46-56 | zero is the empty polynomial in the given field, and it is reduced whenever the field has a modulus |
| FieldElement.GetIdentity | field_element.c:27-36 | the identity is the constant 1 in the given field, and it is reduced when the modulus has degree at least 1 |
| FieldElement.IsZero | field_element.c:38-40 | holds exactly for the element that GetZero builds in the element's own field |
| FieldElement.IsIdentity | field_element.c:42-44 | holds exactly for the element that GetIdentity builds in the element's own field |
| FieldElement.ZeroIdentityRecognised | field_element.c:27-56 | in every field, GetZero is recognised as zero and not as the identity, GetIdentity the other way round, and the two differ |
| FieldElement.Descend | field_element.c:16-25 | reducing succeeds exactly when the field has a usable modulus (otherwise InvalidModulus); the result is reduced, stays in the field, and an element already of lower degree is left unchanged |
| FieldElement.DescendCongruent | field_element.c:16-25 | the old polynomial is the reduced one plus a multiple of the modulus |
| FieldElement.GetFromArray | field_element.c:60-72 | building from an array succeeds exactly when the field has a modulus, and gives a reduced element of that field |
| FieldElement.GetFromArrayShort | field_element.c:60-72 | when fewer entries than the modulus length are read, coefficient i is entry n-1-i of the array mod p and nothing is reduced away |
| FieldElement.InSameField | field_element.c:74-76 | holds exactly when the two fields are equal |
| FieldElement.Copy | field_element.c:79-85 | the copy has the same polynomial and the same field |
| FieldElement.Add | field_element.c:95-109 | fails with FieldMismatch exactly when the fields differ; otherwise the sum is well formed, in the left operand's field, and reduced when both operands are |
| FieldElement.AddCoefficients | field_element.c:95-109 | coefficient i of the sum is the sum mod p of the operands' coefficients i |
| FieldElement.Mult | field_element.c:111-127 | succeeds exactly when the fields agree and have a usable modulus, with FieldMismatch or InvalidModulus otherwise; the product is reduced and in the left operand's field |
| FieldElement.MultIsMulMod | field_element.c:111-127 | the product is the polynomial product taken modulo the field's modulus |
| FieldElement.Neg | field_element.c:206-211 | the negation stays in the field, is no longer than the operand, and is reduced when the operand is |
| FieldElement.Sub | field_element.c:214-222 | fails exactly when the fields differ; otherwise it is the sum with the negation |
| FieldElement.AreEqual | field_element.c:224-226 | holds exactly when the two elements are equal (same field, same polynomial) |
| FieldElement.IntFastPow | field_element.c:129-142 | returns 0 for base 0, 1 for base 1 or a non-positive exponent, and val^pow otherwise |
| FieldElement.ElementFastPow | field_element.c:145-175 | square-and-multiply returns ElementPow: zero and identity unchanged, exponent 0 gives the identity, no usable modulus gives InvalidModulus, otherwise the reduced power PolyPow |
| FieldElement.ElementPowFixedPoints | field_element.c:147-152 | zero and the identity raised to any power are themselves |
| FieldElement.ElementPowStep | field_element.c:145-175 | for every reduced element, zero and the identity included, e^1 = e and e^(k+1) = e * e^k, which makes the power repeated Mult |
| FieldElement.Inv | field_element.c:177-183 | zero fails with DivisionByZero; any other element is raised to InvExponent, i.e. (field order - 2) as an unsigned 32-bit value |
| FieldElement.FieldOrder | field_element.c:180-181 | the count Inv starts from: p - 1 without a modulus, and p^deg(m) with a modulus, kept exact before the 32-bit truncation |
| FieldElement.InvExponent | field_element.c:180-182 | the exponent is below 2^32, and it is the field order minus 2 unless that difference does not fit in 32 bits |
| FieldElement.InvSucceeds | field_element.c:177-183 | a non-zero element of a field with a usable modulus has an inverse in the same field |
| FieldElement.InvExponentGF256 | field_element.c:180-182 | in GF(2^8) the field order is 256 and the inverse exponent 254 |
| FieldElement.InvExponentPrime | field_element.c:180-182 | in a prime field built by CreateFp, the inverse exponent is p - 2 |
| FieldElement.InvExponentNoModulus | field_element.c:180-182 | without a modulus the order is p - 1, so the exponent is p - 3, which wraps to 2^32 - 1 when p = 2 |
| FieldElement.Pow | field_element.c:185-193 | a non-negative exponent gives ElementPow(e, n); a negative one gives the inverse raised to -n |
| FieldElement.Division | field_element.c:195-203 | a zero divisor fails with DivisionByZero; a failed inverse is passed on; otherwise the result is lhs times the inverse of rhs |
| ElementLaws.AddComm | field_element.c:95-109 | addition within one field is commutative |
| ElementLaws.AddAssoc | field_element.c:95-109 | addition within one field is associative |
| ElementLaws.AddZero | field_element.c:95-109 | zero is a two-sided unit for addition |
| ElementLaws.AddNeg | field_element.c:206-211 | an element plus its negation is zero |
| ElementLaws.SubAddCancel | field_element.c:214-222 | (a - b) + b = a |
| ElementLaws.SubZeroIffEqual | field_element.c:214-226 | a - b is zero exactly when AreEqual(a, b) |
| ElementLaws.MultComm | field_element.c:111-127 | multiplication within one field is commutative, failures included |
| ElementLaws.MultAssoc | field_element.c:111-127 | multiplication modulo a usable modulus is associative |
| ElementLaws.MultIdentity | field_element.c:111-127 | the identity is a two-sided unit on reduced elements |
| ElementLaws.MultZero | field_element.c:111-127 | zero absorbs under multiplication |
| ElementLaws.MultDistrib | field_element.c:95-127 | multiplication distributes over addition |
| ElementLaws.DivisionUndoesMult | field_element.c:195-203 | whenever Inv(b) is a true inverse of b, (a / b) * b = a |
| ElementLaws.DivisionFailsOnlyOnZero | field_element.c:195-203 | with a usable modulus, division fails exactly when the divisor is zero |
| ElementLaws.InvExponentGF4 | field_element.c:180-182 | in GF(4) the inverse exponent is 4 - 2 = 2 |
| ElementLaws.InvInGF4 | field_element.h:22 | in GF(2)[x]/(x^2+x+1), Inv(x) = x + 1, and x * (x + 1) is the identity |
| ElementLaws.InvInGF5 | field_element.h:22 | in GF(5), Inv(2) = 3 (2^(5-2) mod 5), and 2 * 3 is the identity |
| ElementLaws.TimesXMulMod | field_element.c:111-127 | in the generator's field, multiplying any polynomial of degree below 8 by x is a shift of its byte, followed by an exclusive or with 0xF9 when the top bit was set |
| ElementLaws.PowXGF256 | field_element.c:145-175 | x^254 modulo the generator's modulus is x^7+x^6+x^5+x^4+x^3+x^2 |
| ElementLaws.InvInGF256 | field_element.h:22 | in the generator's GF(2^8), Inv(x) = x^7+x^6+x^5+x^4+x^3+x^2, and x times it is the identity |
| ElementLaws.CreateFpIsPrimeField | finite_field.c:3-14 | CreateFp(p) is a valid descriptor of characteristic p whose modulus is x |
| ElementLaws.ConstMul | field_element.c:111-127 | the product of two constant polynomials is the constant of the integer product, mod p |
| ElementLaws.PowConst | field_element.c:145-175 | modulo x, the n-th power of the constant a is the constant a^n mod p |
| ElementLaws.MultInPrimeField | field_element.c:111-127 | in a prime field, multiplying the constants a and b gives the constant a * b mod p |
| ElementLaws.PowInPrimeField | field_element.c:145-175 | in a prime field, a constant a not divisible by p raised to n is the constant a^n mod p |
| ElementLaws.InvExponentPrimeField | field_element.c:180-182 | in a prime field the inverse exponent is p - 2 |
| ElementLaws.InvInPrimeField | field_element.c:177-183 | in a prime field, the inverse of a constant a not divisible by p is the constant a^(p-2) mod p |
| ByteCodec.FromUint8 | generator.c:121-122 | the decoded element lies in the given field and is a GF(2) polynomial of degree below 8 whose coefficient of x^i is bit i of the byte |
| ByteCodec.ToUint8 | generator.c:84 | for a GF(2) polynomial, bit i of the byte is the coefficient of x^i, for i < 8 |
| ByteCodec.ToByteFromByte | generator.c:121-122 | decoding a byte into a GF(2) polynomial and encoding it back gives the byte |
| ByteCodec.FromByteToByte | generator.c:84 | a GF(2) polynomial of degree below 8 survives encoding to a byte and decoding back |
| ByteCodec.FromUint8InField | generator.c:121-122 | a decoded byte is a reduced element of any field of characteristic 2 with a modulus of degree at least 8, and encodes back to the byte |
| ByteCodec.FromUint8ToUint8 | generator.c:84 | every reduced element of degree below 8 is the decoding of its own byte |
| ByteCodec.GF256IsByteField | generator.c:10-11 | the generator's field is one the byte codec serves |
| RandomGenerator.Accumulate | generator.c:51-74 | the running sum over the first n taps, when it exists, is well formed and lies in the field of the last tap used; AccumulateStep states each step |
| RandomGenerator.Next | generator.c:75-82 | the next value of the recurrence, c plus the sum, is well formed and lies in c's field when it exists; NextFromSum and NextInField state when and what |
| RandomGenerator.AccumulateStep | generator.c:51-74 | each loop step multiplies the next tap by the next window element and adds the running sum; a failed product fails the sum |
| RandomGenerator.AccumulateFails | generator.c:54-58 | once a step of the sum fails, every longer sum fails |
| RandomGenerator.FailureExtends | generator.c:54-58 | a failed sum stays failed when one more tap is added |
| RandomGenerator.SumStep | generator.c:51-74 | one loop step: a failed product or a failed addition fails the whole sum, and a success extends the sum by one tap |
| RandomGenerator.InFieldExtends | generator.c:51-74 | adding one more in-field product to an in-field sum gives an in-field sum of the same field |
| RandomGenerator.AccumulateInField | generator.c:51-74 | with all taps, window elements and zero in one field with a modulus, the sum succeeds and is a reduced element of that field |
| RandomGenerator.NextFromSum | generator.c:75-82 | the next value is c plus the full sum, and fails when the sum fails |
| RandomGenerator.NextInField | generator.c:40-90 | with a configured state, the next value always exists and is a reduced element of the field |
| RandomGenerator.CopyShifted | generator.c:61-63 | slot i - 1 of tmp receives window element i, nothing else changes, and the shifted prefix grows by one |
| RandomGenerator.SumTaps | generator.c:51-74 | the loop succeeds exactly when the reference sum does and returns it; tmp then holds the window shifted by one |
| RandomGenerator.SlideKeeps | generator.c:83-86 | sliding the window and appending a well-formed (or reduced, same-field) element keeps the whole window so |
| RandomGenerator.ReadTaps | generator.c:117-125 | the read loop succeeds exactly when n = 0 or 2n < the number of readable bytes; tap j is decoded from byte 1+j and window element j from byte 1+n+j |
| RandomGenerator.AllocBuffers | generator.c:92-101 | two fresh, distinct buffers of length n |
| RandomGenerator.Generator.constructor | generator.c:4-13 | a new generator has k = 0, empty buffers, no constant, and the field GF(2^8) |
| RandomGenerator.Generator.Commit | generator.c:83-86 | the new value goes into the last slot, its byte into target[0], and the shifted buffer becomes the window; a configured state stays configured |
| RandomGenerator.Generator.GetRandom | generator.c:40-90 | returns 0 exactly when the recurrence's next value exists; then the window becomes old window[1..] + [next] and target[0] its byte; on -1 nothing changes; a configured generator always returns 0 and stays configured |
| RandomGenerator.Generator.InitRandom | generator.c:110-146 | returns 0 exactly when the bytes hold k and then 2k + 1 more bytes; then k, every tap, every window element and c are the decoded bytes and, for k >= 1, the generator is configured; on -1 nothing changes |
| RandomGenerator.Generator.Install | generator.c:134-145 | the decoded buffers, k and c replace the old ones, and with k >= 1 the generator is configured |
| PolynomMod.DivisionIdentity | field_element.c:16-25 | a = (a mod m) + q * m for some polynomial q: the remainder Descend computes is congruent to its input |
| PolynomMod.MulModAssoc | field_element.c:111-127 | multiplication modulo m is associative |
| PolynomMod.PowSquare | field_element.c:160-172 | (a^2)^k = a^(2k) modulo m, the squaring step of element_fast_pow |
| PolynomMod.PowAdd | field_element.c:160-172 | a^(i+j) = a^i * a^j modulo m |
| PolynomRing.MulComm | field_element.c:111-127 | the polynomial product is commutative |
| PolynomRing.MulAssoc | field_element.c:111-127 | the polynomial product is associative |
| PolynomRing.MulAddRight | field_element.c:95-127 | the polynomial product distributes over addition |

## Left out

- Allocation and freeing are not modelled: kmalloc/kfree failures, FreeElement, FreeField, free_generator, free_elem_buff_if_necessary and dealloc_buffers. Failure paths simply leave the state unchanged; the constructor has no failure path, since CreateF_q fails only on allocation.
- polynom.c is not part of this model. Its operations (addition, product, remainder, comparison, decoding from arrays) are defined here as trimmed little-endian polynomials over Z/pZ.
- Descend is modelled as a function that returns a new element, not as an update of the element's polynomial in place; element_fast_pow's in-place updates of res and value are modelled the same way.
- A field with no modulus, or one whose leading coefficient is not invertible mod p, makes every reducing operation fail with InvalidModulus; the C code would dereference null or divide by a non-unit.
- Field descriptors with p < 2 or p >= 256 are excluded (p is a uint8_t and a modulus of Z/pZ).
- IntFastPow: does not model overflow of the C int result; the value is the exact integer power. FieldOrder keeps this exact value before the unsigned 32-bit truncation that InvExponent applies.
- Irreducibility of a modulus is neither checked (neither is it in the source) nor assumed: the ring laws hold for every usable modulus.
- Inv: that a * Inv(a) is the identity, which field_element.h:22 promises, is proved only for single elements: x in GF(4) (InvInGF4), 2 in GF(5) (InvInGF5) and x in the generator's GF(2^8) (InvInGF256). It is not proved for every element of GF(2^8), nor for any field in general: that needs an irreducible modulus and Fermat's little theorem. In a prime field, Inv(a) is proved to be a^(p-2) mod p (InvInPrimeField), but not to be the inverse.
- Pow with a negative exponent requires the inverse to exist, because the source passes Inv's result on without checking for null.
- GetRandom requires k >= 1 and a present c, because the source writes tmp[k - 1] and adds c without checking.
- get_user and the length argument of init_random are modelled as the sequence of readable bytes; a read past it is a failure.
- FromUint8 and ToUint8, which generator.c calls, are defined outside the files modelled here; this model defines them as the codec in which bit i of the byte is the coefficient of x^i.
- The loops of get_random and init_random are factored into SumTaps and ReadTaps, the copy inside the get_random loop into CopyShifted, and the final swaps into Commit and Install. In GetRandom and InitRandom, early returns become a single exit that leaves the state untouched.
- driver.c (character-device registration, read/write handlers, locking) and tst/test.c are I/O and test harness code and are not modelled. The read and write handlers in driver.c do not call the generator, so no path from a device read or write to GetRandom or InitRandom is modelled. The concrete sequence of bytes for the configuration in tst/test.c is not computed.
