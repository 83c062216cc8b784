// Section 4.2 of FIPS 197 defines the product of two bytes: multiply them as polynomials over the
// field of two elements and keep the remainder modulo x^8 + x^4 + x^3 + x + 1.
module GF256Reference {
  import opened GF256

  // Addition of polynomials over the field of two elements.
  function Plus(p: bv16, r: bv16): bv16
  {
    p ^ r
  }

  // The product of two polynomials over the field of two elements, coefficients as bits.
  function CarrylessProduct(a: bv16, b: bv8): bv16
    decreases b
  {
    if b == 0 then 0
    else Plus(if b & 1 != 0 then a else 0, CarrylessProduct(a << 1, b >> 1))
  }

  // Long division by x^8 + x^4 + x^3 + x + 1: clear the bits from `top` down to x^8 with the
  // divisor shifted under each of them, and keep the remainder.
  function Remainder(p: bv16, divisor: bv16, top: bv16): bv16
    decreases top
  {
    if top <= 0x80 then p
    else Remainder(Cleared(p, divisor, top), divisor >> 1, top >> 1)
  }

  function Cleared(p: bv16, divisor: bv16, top: bv16): bv16
  {
    if p & top != 0 then Plus(p, divisor) else p
  }

  function Low(p: bv16): bv8
  {
    (p & 0xff) as bv8
  }

  // The product has degree at most 14, so the division starts at x^14.
  function Reduced(p: bv16): bv8
  {
    Low(Remainder(p, 0x46c0, 0x4000))
  }

  function ReferenceMul(a: bv8, b: bv8): bv8
  {
    Reduced(CarrylessProduct(a as bv16, b))
  }

  // ----- Reduction commutes with sums and with doubling

  // The divisor x^8 + x^4 + x^3 + x + 1, shifted so that its leading bit is `top`.
  predicate Aligned(divisor: bv16, top: bv16)
  {
    || (top == 0x4000 && divisor == 0x46c0)
    || (top == 0x2000 && divisor == 0x2360)
    || (top == 0x1000 && divisor == 0x11b0)
    || (top == 0x0800 && divisor == 0x08d8)
    || (top == 0x0400 && divisor == 0x046c)
    || (top == 0x0200 && divisor == 0x0236)
    || (top == 0x0100 && divisor == 0x011b)
  }

  lemma SingleBit(p: bv16, divisor: bv16, top: bv16)
    requires Aligned(divisor, top)
    ensures top != 0 && (p & top == 0 || p & top == top)
  {}

  lemma ClearedSum(p: bv16, r: bv16, divisor: bv16, top: bv16)
    requires Aligned(divisor, top)
    ensures Cleared(Plus(p, r), divisor, top) == Plus(Cleared(p, divisor, top), Cleared(r, divisor, top))
  {
    hide Cleared, Plus;
    SingleBit(p, divisor, top);
    SingleBit(r, divisor, top);
    ClearedSumByBit(p, r, divisor, top);
  }

  lemma ClearedSumByBit(p: bv16, r: bv16, divisor: bv16, top: bv16)
    requires p & top == 0 || p & top == top
    requires r & top == 0 || r & top == top
    requires top != 0
    ensures Cleared(Plus(p, r), divisor, top) == Plus(Cleared(p, divisor, top), Cleared(r, divisor, top))
  {
    assert (p ^ r) & top == (p & top) ^ (r & top);
    if p & top != 0 {
      if r & top != 0 {} else {}
    } else {
      if r & top != 0 {} else {}
    }
  }

  lemma {:induction false} RemainderSum(p: bv16, r: bv16, divisor: bv16, top: bv16)
    requires Aligned(divisor, top)
    ensures Remainder(Plus(p, r), divisor, top) == Plus(Remainder(p, divisor, top), Remainder(r, divisor, top))
    decreases top
  {
    hide Cleared;
    ClearedSum(p, r, divisor, top);
    if top != 0x100 {
      RemainderSum(Cleared(p, divisor, top), Cleared(r, divisor, top), divisor >> 1, top >> 1);
    }
  }

  lemma ReducedSum(p: bv16, r: bv16)
    ensures Reduced(Plus(p, r)) == Add(Reduced(p), Reduced(r))
  {
    hide Remainder;
    RemainderSum(p, r, 0x46c0, 0x4000);
    LowSum(Remainder(p, 0x46c0, 0x4000), Remainder(r, 0x46c0, 0x4000));
  }

  lemma LowSum(p: bv16, r: bv16)
    ensures Low(Plus(p, r)) == Add(Low(p), Low(r))
  {}

  // Dividing the doubled polynomial runs one step ahead of dividing the polynomial itself.
  lemma {:induction false} RemainderOfDouble(p: bv16, divisor: bv16, top: bv16)
    requires Aligned(divisor, top)
    ensures Low(Remainder(p << 1, divisor, top)) == Xtime(Low(Remainder(p, divisor >> 1, top >> 1)))
    decreases top
  {
    hide Cleared, Low, Xtime;
    if top == 0x100 {
      LastStep(p);
    } else {
      ClearedDouble(p, divisor, top);
      RemainderOfDouble(Cleared(p, divisor >> 1, top >> 1), divisor >> 1, top >> 1);
    }
  }

  lemma LastStep(p: bv16)
    ensures Low(Remainder(p << 1, 0x11b, 0x100)) == Xtime(Low(Remainder(p, 0x8d, 0x80)))
  {
    LastStepOnBits(p);
    hide Cleared, Low, Xtime;
    assert Remainder(p << 1, 0x11b, 0x100) == Cleared(p << 1, 0x11b, 0x100);
  }

  lemma LastStepOnBits(p: bv16)
    ensures Low(Cleared(p << 1, 0x11b, 0x100)) == Xtime(Low(p))
  {}

  lemma ClearedDouble(p: bv16, divisor: bv16, top: bv16)
    requires Aligned(divisor, top) && top != 0x100
    ensures Cleared(p << 1, divisor, top) == Cleared(p, divisor >> 1, top >> 1) << 1
  {}

  lemma ReducedDouble(p: bv16)
    requires p < 0x4000
    ensures Reduced(p << 1) == Xtime(Reduced(p))
  {
    hide Xtime, Low;
    RemainderOfDouble(p, 0x46c0, 0x4000);
    assert Cleared(p, 0x46c0, 0x4000) == p;
    assert Remainder(p, 0x46c0, 0x4000) == Remainder(p, 0x2360, 0x2000);
  }

  lemma {:induction false} RemainderOfByte(p: bv16, divisor: bv16, top: bv16)
    requires p < 0x100 && Aligned(divisor, top)
    ensures Remainder(p, divisor, top) == p
    decreases top
  {
    assert Cleared(p, divisor, top) == p;
    hide Cleared;
    if top != 0x100 {
      RemainderOfByte(p, divisor >> 1, top >> 1);
    }
  }

  // ----- The main result

  // A product of p and b has no bit above 14.
  predicate Fits(p: bv16, b: bv8)
  {
    || b == 0
    || p < 0x100
    || (p < 0x0200 && b < 0x80)
    || (p < 0x0400 && b < 0x40)
    || (p < 0x0800 && b < 0x20)
    || (p < 0x1000 && b < 0x10)
    || (p < 0x2000 && b < 0x08)
    || (p < 0x4000 && b < 0x04)
    || (p < 0x8000 && b < 0x02)
  }

  lemma FitsNext(p: bv16, b: bv8)
    requires Fits(p, b) && b != 0
    ensures Fits(p << 1, b >> 1)
    ensures b >> 1 != 0 ==> p < 0x4000
  {}

  lemma {:induction false} ReducedProduct(p: bv16, b: bv8)
    requires Fits(p, b)
    ensures Reduced(CarrylessProduct(p, b)) == Mul(Reduced(p), b)
    decreases b
  {
    hide Reduced, Plus, Add, Xtime;
    ReducedZero();
    if b != 0 {
      FitsNext(p, b);
      hide Fits;
      ReducedSum(if b & 1 != 0 then p else 0, CarrylessProduct(p << 1, b >> 1));
      ReducedProduct(p << 1, b >> 1);
      if b >> 1 != 0 {
        ReducedDouble(p);
      } else {
        assert Mul(Reduced(p << 1), 0) == Mul(Xtime(Reduced(p)), 0) == 0;
      }
    }
  }

  lemma ReducedZero()
    ensures Reduced(0) == 0
  {
    RemainderOfByte(0, 0x46c0, 0x4000);
  }

  // The field product is the reduced carry-less product.
  lemma MulRefinesReference(a: bv8, b: bv8)
    ensures Mul(a, b) == ReferenceMul(a, b)
  {
    hide Mul, Remainder, CarrylessProduct;
    WidenedByte(a);
    RemainderOfByte(a as bv16, 0x46c0, 0x4000);
    ReducedProduct(a as bv16, b);
  }

  lemma WidenedByte(a: bv8)
    ensures a as bv16 < 0x100 && Low(a as bv16) == a
  {}
}
