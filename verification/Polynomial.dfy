// Polynomials over the field of 256 elements (src/seal/polynomial.rs): coefficients, the
// constant term first.
module Polynomial {
  import opened Results
  import opened GF256
  import opened GF256Laws

  type Poly = seq<bv8>

  // The program underflows on the empty coefficient vector.
  function Degree(p: Poly): nat
    requires p != []
  {
    |p| - 1
  }

  // Horner's rule, folding from the highest coefficient.
  function Evaluate(p: Poly, x: bv8): bv8
  {
    if p == [] then 0 else Add(Mul(Evaluate(p[1..], x), x), p[0])
  }

  function Stripped(p: Poly): Poly
  {
    if p != [] && p[|p| - 1] == 0 then Stripped(p[..|p| - 1]) else p
  }

  // The loop that pops zeros off the end of the coefficient vector.
  method StripTrailingZeros(p: Poly) returns (r: Poly)
    ensures r == Stripped(p)
  {
    r := p;
    while r != [] && r[|r| - 1] == 0
      invariant Stripped(r) == Stripped(p)
    {
      r := r[..|r| - 1];
    }
  }

  function MonicLinear(constant: bv8): Poly
  {
    [constant, 1]
  }

  // Sums coefficients pairwise and keeps the tail of the longer operand.
  function ZipAdd(p: Poly, q: Poly): Poly
  {
    if p == [] then q
    else if q == [] then p
    else [Add(p[0], q[0])] + ZipAdd(p[1..], q[1..])
  }

  function AddPoly(p: Poly, q: Poly): Poly
  {
    Stripped(ZipAdd(p, q))
  }

  function SumPoly(terms: seq<Poly>): Poly
  {
    if terms == [] then [] else AddPoly(SumPoly(terms[..|terms| - 1]), terms[|terms| - 1])
  }

  function ScaleAll(p: Poly, s: bv8): Poly
  {
    if p == [] then [] else [Mul(p[0], s)] + ScaleAll(p[1..], s)
  }

  function Scale(p: Poly, s: bv8): Poly
  {
    Stripped(ScaleAll(p, s))
  }

  function DivScalar(p: Poly, divisor: bv8): Result<Poly>
  {
    var inverse :- Div(1, divisor);
    Ok(Stripped(ScaleAll(p, inverse)))
  }

  // The products p[j] * q[i - j] for j below n, leaving out indices beyond either degree.
  function ConvolutionTerms(p: Poly, q: Poly, i: nat, n: nat): seq<bv8>
    requires p != [] && q != [] && n <= i + 1
  {
    if n == 0 then []
    else
      var j := n - 1;
      ConvolutionTerms(p, q, i, j) +
      (if j <= Degree(p) && i - j <= Degree(q) then [Mul(p[j], q[i - j])] else [])
  }

  // Neither operand may be the zero polynomial [], whose degree underflows.
  function MulPoly(p: Poly, q: Poly): (r: Poly)
    requires p != [] && q != []
    ensures |r| == |p| + |q| - 1
  {
    seq(Degree(p) + Degree(q) + 1, i requires 0 <= i => Sum(ConvolutionTerms(p, q, i, i + 1)))
  }

  predicate AllNonempty(factors: seq<Poly>)
  {
    forall i | 0 <= i < |factors| :: factors[i] != []
  }

  function ProductPoly(factors: seq<Poly>): (r: Poly)
    requires AllNonempty(factors)
    ensures r != []
  {
    if factors == [] then [1]
    else MulPoly(ProductPoly(factors[..|factors| - 1]), factors[|factors| - 1])
  }

  // ----- Lagrange interpolation

  // The factors (x - x_i) / (x_j - x_i) for i below n other than j.
  function BasisFactors(points: seq<(bv8, bv8)>, j: nat, n: nat): (r: Result<seq<Poly>>)
    requires j < |points| && n <= |points|
    ensures r.Ok? ==> AllNonempty(r.value)
  {
    if n == 0 then Ok([])
    else
      var factors :- BasisFactors(points, j, n - 1);
      if n - 1 == j then Ok(factors)
      else
        var xi := points[n - 1].0;
        var factor :- DivScalar(MonicLinear(Neg(xi)), Sub(points[j].0, xi));
      LinearStaysLinear(Neg(xi), Sub(points[j].0, xi));
      Ok(factors + [factor])
  }

  // Dividing x + constant leaves it without a zero at the end, so nothing is stripped.
  lemma LinearStaysLinear(constant: bv8, divisor: bv8)
    ensures DivScalar(MonicLinear(constant), divisor) ==
            if divisor == 0 then Err(InvalidInput)
            else Ok([Mul(constant, Inverse(divisor)), Inverse(divisor)])
  {
    hide Mul, Inverse;
    if divisor != 0 {
      var inverse := Inverse(divisor);
      InverseWorks(divisor);
      MulOne(inverse);
      var p := MonicLinear(constant);
      assert ScaleAll(p[1..], inverse) == [inverse];
      assert ScaleAll(p, inverse) == [Mul(constant, inverse), inverse];
      assert Div(1, divisor) == Ok(inverse);
      assert DivScalar(p, divisor) == Ok(Stripped([Mul(constant, inverse), inverse]));
    }
  }

  function BasisPolynomial(points: seq<(bv8, bv8)>, j: nat): (r: Result<Poly>)
    requires j < |points|
  {
    var factors :- BasisFactors(points, j, |points|);
    Ok(ProductPoly(factors))
  }

  // The scaled basis polynomials of the first n points.
  function LagrangeTerms(points: seq<(bv8, bv8)>, n: nat): Result<seq<Poly>>
    requires n <= |points|
  {
    if n == 0 then Ok([])
    else
      var terms :- LagrangeTerms(points, n - 1);
      var basis :- BasisPolynomial(points, n - 1);
      Ok(terms + [Scale(basis, points[n - 1].1)])
  }

  function Interpolate(points: seq<(bv8, bv8)>): Result<Poly>
  {
    var terms :- LagrangeTerms(points, |points|);
    Ok(SumPoly(terms))
  }
}
