// The pairing groups, modelled by exponents: an element is its discrete logarithm to the base of
// the generator of its group, modulo an arbitrary order q > 1, and the pairing multiplies exponents.
module Groups {
  import opened ModArithmetic

  datatype G1 = G1(exponent: nat)
  datatype G2 = G2(exponent: nat)
  datatype GT = GT(exponent: nat)

  type Order = q: nat | q > 1 witness 2

  predicate InG1(q: Order, a: G1)
  {
    a.exponent < q
  }

  predicate InG2(q: Order, a: G2)
  {
    a.exponent < q
  }

  predicate InGT(q: Order, a: GT)
  {
    a.exponent < q
  }

  function G1Zero(): G1
  {
    G1(0)
  }

  function G2Zero(): G2
  {
    G2(0)
  }

  function G1Generator(q: Order): G1
  {
    G1(1)
  }

  function G2Generator(q: Order): G2
  {
    G2(1)
  }

  function G1Add(q: Order, a: G1, b: G1): G1
  {
    G1((a.exponent + b.exponent) % q)
  }

  function G1Sub(q: Order, a: G1, b: G1): G1
  {
    G1((a.exponent - b.exponent) % q)
  }

  // Multiplication by a scalar is repeated addition.
  function G1Mul(q: Order, a: G1, s: nat): G1
  {
    G1(TimesMod(a.exponent, s, q))
  }

  function G2Mul(q: Order, a: G2, s: nat): G2
  {
    G2(TimesMod(a.exponent, s, q))
  }

  function GTAdd(q: Order, a: GT, b: GT): GT
  {
    GT((a.exponent + b.exponent) % q)
  }

  function GTMul(q: Order, a: GT, s: nat): GT
  {
    GT(TimesMod(a.exponent, s, q))
  }

  function Pairing(q: Order, a: G1, b: G2): GT
  {
    GT(TimesMod(a.exponent, b.exponent, q))
  }

  lemma GeneratorMul(q: Order, s: nat)
    ensures G1Mul(q, G1Generator(q), s) == G1(s % q)
    ensures G2Mul(q, G2Generator(q), s) == G2(s % q)
  {
    TimesModIsProduct(1, s, q);
  }

  lemma GeneratorPairing(q: Order, a: G1)
    ensures Pairing(q, a, G2Generator(q)) == GT(a.exponent % q)
  {
    TimesModIsProduct(a.exponent, 1, q);
  }

  lemma TimesModTwice(x: nat, y: nat, z: nat, q: Order)
    ensures TimesMod(TimesMod(x, y, q), z, q) == (x * y * z) % q
  {
    TimesModIsProduct(x, y, q);
    TimesModIsProduct(TimesMod(x, y, q), z, q);
    MulMod(x * y, z, q);
  }

  lemma TimesModCommutes(x: nat, y: nat, q: Order)
    ensures TimesMod(x, y, q) == TimesMod(y, x, q)
  {
    TimesModIsProduct(x, y, q);
    TimesModIsProduct(y, x, q);
    assert x * y == y * x;
  }

  // The pairing is linear in each argument.
  lemma Bilinear(q: Order, a: G1, b: G2, s: nat)
    ensures Pairing(q, G1Mul(q, a, s), b) == GTMul(q, Pairing(q, a, b), s)
    ensures Pairing(q, a, G2Mul(q, b, s)) == GTMul(q, Pairing(q, a, b), s)
  {
    hide TimesMod;
    var x, y := a.exponent, b.exponent;
    TimesModTwice(x, s, y, q);
    TimesModTwice(x, y, s, q);
    TimesModCommutes(x, TimesMod(y, s, q), q);
    TimesModTwice(y, s, x, q);
    Rearrange(x, s, y);
    Rearrange(y, s, x);
  }

  lemma Rearrange(x: int, s: int, y: int)
    ensures x * s * y == x * y * s == y * x * s
  {}

  // Sums in G1 become sums of pairings.
  lemma PairingAdditive(q: Order, a: G1, b: G1, c: G2)
    ensures Pairing(q, G1Add(q, a, b), c) == GTAdd(q, Pairing(q, a, c), Pairing(q, b, c))
  {
    hide TimesMod;
    var x, y, z := a.exponent, b.exponent, c.exponent;
    TimesModIsProduct((x + y) % q, z, q);
    TimesModIsProduct(x, z, q);
    TimesModIsProduct(y, z, q);
    MulMod(x + y, z, q);
    AddMod(x * z, (y * z) % q, q);
    AddMod(y * z, x * z, q);
    assert (x + y) * z == x * z + y * z;
  }
}
