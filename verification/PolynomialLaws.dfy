// Evaluation is a ring homomorphism, in spite of the stripping, and the canonical form is kept.
module PolynomialLaws {
  import opened Results
  import opened GF256
  import opened GF256Sums
  import opened GF256Laws
  import opened Polynomial

  // ----- Coefficients and the canonical form

  function Coefficient(p: Poly, i: int): bv8
  {
    if 0 <= i < |p| then p[i] else 0
  }

  predicate Canonical(p: Poly)
  {
    p == [] || p[|p| - 1] != 0
  }

  // The same polynomial, up to trailing zeros.
  ghost predicate SamePolynomial(p: Poly, q: Poly)
  {
    forall i: nat :: Coefficient(p, i) == Coefficient(q, i)
  }

  lemma {:induction false} StrippedIsCanonical(p: Poly)
    ensures Canonical(Stripped(p)) && SamePolynomial(Stripped(p), p)
    ensures |Stripped(p)| <= |p| && Stripped(p) == p[..|Stripped(p)|]
  {
    if p != [] && p[|p| - 1] == 0 {
      var front := p[..|p| - 1];
      StrippedIsCanonical(front);
      forall i: nat
        ensures Coefficient(Stripped(p), i) == Coefficient(p, i)
      {
        assert Coefficient(front, i) == Coefficient(p, i);
      }
    }
  }

  lemma CanonicalIsShortest(p: Poly, q: Poly)
    requires Canonical(p) && SamePolynomial(p, q)
    ensures |p| <= |q|
  {
    if p != [] {
      assert Coefficient(q, |p| - 1) == Coefficient(p, |p| - 1);
    }
  }

  lemma CanonicalIsUnique(p: Poly, q: Poly)
    requires Canonical(p) && Canonical(q) && SamePolynomial(p, q)
    ensures p == q
  {
    CanonicalIsShortest(p, q);
    CanonicalIsShortest(q, p);
    forall i | 0 <= i < |p|
      ensures p[i] == q[i]
    {
      assert Coefficient(p, i) == Coefficient(q, i);
    }
  }

  // Stripped computes the one canonical representative of a coefficient vector.
  lemma StrippedIsTheCanonicalForm(p: Poly, q: Poly)
    ensures q == Stripped(p) <==> Canonical(q) && SamePolynomial(q, p)
  {
    StrippedIsCanonical(p);
    if Canonical(q) && SamePolynomial(q, p) {
      assert SamePolynomial(q, Stripped(p));
      CanonicalIsUnique(q, Stripped(p));
    }
  }

  // ----- Evaluation ignores stripping

  lemma {:induction false} EvaluateEndingInZero(p: Poly, x: bv8)
    ensures Evaluate(p + [0], x) == Evaluate(p, x)
  {
    hide Mul;
    if p == [] {
      MulZero(x);
      assert Evaluate((p + [0])[1..], x) == 0;
    } else {
      EvaluateEndingInZero(p[1..], x);
      assert (p + [0])[1..] == p[1..] + [0];
    }
  }

  lemma {:induction false} EvaluateStripped(p: Poly, x: bv8)
    ensures Evaluate(Stripped(p), x) == Evaluate(p, x)
  {
    hide Mul;
    if p != [] && p[|p| - 1] == 0 {
      var front := p[..|p| - 1];
      assert p == front + [0];
      EvaluateStripped(front, x);
      EvaluateEndingInZero(front, x);
    }
  }

  // ----- Sums and scalings

  lemma {:induction false} EvaluateZipAdd(p: Poly, q: Poly, x: bv8)
    ensures Evaluate(ZipAdd(p, q), x) == Add(Evaluate(p, x), Evaluate(q, x))
  {
    hide Mul, Add;
    AddIsGroup(Evaluate(p, x), Evaluate(q, x), 0);
    if p != [] && q != [] {
      var u, v := Evaluate(p[1..], x), Evaluate(q[1..], x);
      var sum := ZipAdd(p, q);
      assert sum[1..] == ZipAdd(p[1..], q[1..]);
      EvaluateZipAdd(p[1..], q[1..], x);
      MulDistributes(x, u, v);
      AddSwapsInner(Mul(u, x), Mul(v, x), p[0], q[0]);
    }
    AddIsGroup(Evaluate(q, x), 0, 0);
    AddIsGroup(Evaluate(p, x), 0, 0);
  }

  lemma EvaluateAddPoly(p: Poly, q: Poly, x: bv8)
    ensures Evaluate(AddPoly(p, q), x) == Add(Evaluate(p, x), Evaluate(q, x))
  {
    hide Mul, Add;
    EvaluateStripped(ZipAdd(p, q), x);
    EvaluateZipAdd(p, q, x);
  }

  lemma {:induction false} EvaluateScaleAll(p: Poly, s: bv8, x: bv8)
    ensures Evaluate(ScaleAll(p, s), x) == Mul(Evaluate(p, x), s)
  {
    hide Mul, Add;
    if p == [] {
      MulZero(s);
    } else {
      var u := Evaluate(p[1..], x);
      assert ScaleAll(p, s)[1..] == ScaleAll(p[1..], s);
      EvaluateScaleAll(p[1..], s, x);
      MulSwapsMiddle(u, s, x);
      MulDistributes(s, Mul(u, x), p[0]);
    }
  }

  lemma EvaluateScale(p: Poly, s: bv8, x: bv8)
    ensures Evaluate(Scale(p, s), x) == Mul(Evaluate(p, x), s)
  {
    hide Mul;
    EvaluateStripped(ScaleAll(p, s), x);
    EvaluateScaleAll(p, s, x);
  }

  lemma EvaluateDivScalar(p: Poly, d: bv8, x: bv8)
    ensures DivScalar(p, d).Ok? <==> d != 0
    ensures d != 0 ==> Div(Evaluate(p, x), d) == Ok(Evaluate(DivScalar(p, d).value, x))
  {
    hide Mul, Inverse;
    if d != 0 {
      MulOne(Inverse(d));
      EvaluateStripped(ScaleAll(p, Inverse(d)), x);
      EvaluateScaleAll(p, Inverse(d), x);
    }
  }

  lemma {:induction false} EvaluateSumPoly(terms: seq<Poly>, x: bv8)
    ensures Evaluate(SumPoly(terms), x) == Sum(Evaluations(terms, x))
  {
    hide Mul, Add;
    if terms != [] {
      var front, last := terms[..|terms| - 1], terms[|terms| - 1];
      EvaluateSumPoly(front, x);
      EvaluateAddPoly(SumPoly(front), last, x);
      assert Evaluations(terms, x) == Evaluations(front, x) + [Evaluate(last, x)];
    }
  }

  function Evaluations(polynomials: seq<Poly>, x: bv8): seq<bv8>
  {
    seq(|polynomials|, i requires 0 <= i < |polynomials| => Evaluate(polynomials[i], x))
  }

  // ----- Products

  // The convolution, unrolled along the first operand.
  function Convolution(p: Poly, q: Poly): (r: Poly)
    requires p != [] && q != []
    ensures |r| == |p| + |q| - 1
  {
    if |p| == 1 then
      ScaledBy(p[0], q)
    else
      var rest := [0] + Convolution(p[1..], q);
      ZipAddLength(ScaledBy(p[0], q), rest);
      ZipAdd(ScaledBy(p[0], q), rest)
  }

  function ScaledBy(s: bv8, q: Poly): (r: Poly)
    ensures |r| == |q|
  {
    seq(|q|, i requires 0 <= i < |q| => Mul(s, q[i]))
  }

  lemma {:induction false} ZipAddLength(p: Poly, q: Poly)
    ensures |ZipAdd(p, q)| == if |p| < |q| then |q| else |p|
  {
    if p != [] && q != [] {
      ZipAddLength(p[1..], q[1..]);
    }
  }

  lemma {:induction false} ZipAddCoefficient(p: Poly, q: Poly, i: nat)
    ensures Coefficient(ZipAdd(p, q), i) == Add(Coefficient(p, i), Coefficient(q, i))
  {
    hide Add;
    AddIsGroup(Coefficient(p, i), 0, 0);
    AddIsGroup(Coefficient(q, i), 0, 0);
    if p != [] && q != [] && i > 0 {
      ZipAddCoefficient(p[1..], q[1..], i - 1);
    }
  }

  // The sum over j below n of the products of coefficients j and i - j.
  function CoefficientSum(p: Poly, q: Poly, i: nat, n: nat): bv8
  {
    if n == 0 then 0
    else Add(CoefficientSum(p, q, i, n - 1), Mul(Coefficient(p, n - 1), Coefficient(q, i - (n - 1))))
  }

  // The terms that the program filters out are zero.
  lemma {:induction false} FilteredTermsAreZero(p: Poly, q: Poly, i: nat, n: nat)
    requires p != [] && q != [] && n <= i + 1
    ensures Sum(ConvolutionTerms(p, q, i, n)) == CoefficientSum(p, q, i, n)
  {
    hide Mul, Add;
    if n != 0 {
      var j := n - 1;
      FilteredTermsAreZero(p, q, i, j);
      var before, all := ConvolutionTerms(p, q, i, j), ConvolutionTerms(p, q, i, n);
      if j <= Degree(p) && i - j <= Degree(q) {
        assert all[..|all| - 1] == before;
      } else {
        assert all == before;
        MulZero(Coefficient(p, j));
        MulZero(Coefficient(q, i - j));
        AddIsGroup(CoefficientSum(p, q, i, j), 0, 0);
      }
    }
  }

  lemma {:induction false} CoefficientSumShift(p: Poly, q: Poly, i: nat, n: nat)
    requires p != []
    ensures i > 0 ==> CoefficientSum(p, q, i, n + 1) ==
                      Add(Mul(p[0], Coefficient(q, i)), CoefficientSum(p[1..], q, i - 1, n))
    ensures i == 0 && n == 0 ==> CoefficientSum(p, q, i, n + 1) == Mul(p[0], Coefficient(q, i))
  {
    hide Mul, Add;
    var first := Mul(p[0], Coefficient(q, i));
    AddIsGroup(first, 0, 0);
    if n == 0 {
      assert CoefficientSum(p, q, i, 0) == 0;
    } else if i > 0 {
      CoefficientSumShift(p, q, i, n - 1);
      var middle := CoefficientSum(p[1..], q, i - 1, n - 1);
      var last := Mul(Coefficient(p, n), Coefficient(q, i - n));
      assert Coefficient(p, n) == Coefficient(p[1..], n - 1);
      AddIsGroup(first, middle, last);
    }
  }

  lemma {:induction false} ConvolutionCoefficient(p: Poly, q: Poly, i: nat)
    requires p != [] && q != []
    ensures Coefficient(Convolution(p, q), i) == CoefficientSum(p, q, i, i + 1)
  {
    hide Mul, Add;
    var first := Mul(p[0], Coefficient(q, i));
    MulZero(p[0]);
    assert Coefficient(ScaledBy(p[0], q), i) == first;
    CoefficientSumShift(p, q, i, i);
    if |p| == 1 {
      if i > 0 {
        CoefficientSumOfZero(q, i - 1, i);
        assert p[1..] == [];
        AddIsGroup(first, 0, 0);
      }
    } else {
      var rest := [0] + Convolution(p[1..], q);
      ZipAddCoefficient(ScaledBy(p[0], q), rest, i);
      if i > 0 {
        ConvolutionCoefficient(p[1..], q, i - 1);
        assert Coefficient(rest, i) == Coefficient(Convolution(p[1..], q), i - 1);
      } else {
        AddIsGroup(first, 0, 0);
      }
    }
  }

  lemma {:induction false} CoefficientSumOfZero(q: Poly, i: nat, n: nat)
    ensures CoefficientSum([], q, i, n) == 0
  {
    hide Mul, Add;
    if n != 0 {
      CoefficientSumOfZero(q, i, n - 1);
      MulZero(Coefficient(q, i - (n - 1)));
      AddIsGroup(0, 0, 0);
    }
  }

  lemma MulPolyIsConvolution(p: Poly, q: Poly)
    requires p != [] && q != []
    ensures MulPoly(p, q) == Convolution(p, q)
  {
    hide Mul, Add;
    var r := Convolution(p, q);
    forall i | 0 <= i < |r|
      ensures MulPoly(p, q)[i] == r[i]
    {
      FilteredTermsAreZero(p, q, i, i + 1);
      ConvolutionCoefficient(p, q, i);
      assert Coefficient(r, i) == r[i];
    }
  }

  lemma {:induction false} EvaluateScaledBy(s: bv8, q: Poly, x: bv8)
    ensures Evaluate(ScaledBy(s, q), x) == Mul(s, Evaluate(q, x))
  {
    hide Mul, Add;
    if q == [] {
      MulZero(s);
    } else {
      var u := Evaluate(q[1..], x);
      assert ScaledBy(s, q)[1..] == ScaledBy(s, q[1..]);
      EvaluateScaledBy(s, q[1..], x);
      MulAssociates(s, u, x);
      MulDistributes(s, Mul(u, x), q[0]);
    }
  }

  lemma {:induction false} EvaluateConvolution(p: Poly, q: Poly, x: bv8)
    requires p != [] && q != []
    ensures Evaluate(Convolution(p, q), x) == Mul(Evaluate(p, x), Evaluate(q, x))
  {
    hide Mul, Add;
    var u, v := Evaluate(p[1..], x), Evaluate(q, x);
    EvaluateScaledBy(p[0], q, x);
    if |p| == 1 {
      MulZero(x);
      AddIsGroup(p[0], 0, 0);
    } else {
      var rest := Convolution(p[1..], q);
      EvaluateConvolution(p[1..], q, x);
      assert ([0] + rest)[1..] == rest;
      AddIsGroup(Mul(Evaluate(rest, x), x), 0, 0);
      EvaluateZipAdd(ScaledBy(p[0], q), [0] + rest, x);
      MulSwapsMiddle(u, v, x);
      MulDistributes(v, Mul(u, x), p[0]);
      AddIsGroup(Mul(p[0], v), Mul(Mul(u, x), v), 0);
    }
  }

  lemma EvaluateMulPoly(p: Poly, q: Poly, x: bv8)
    requires p != [] && q != []
    ensures Evaluate(MulPoly(p, q), x) == Mul(Evaluate(p, x), Evaluate(q, x))
  {
    hide Mul;
    MulPolyIsConvolution(p, q);
    EvaluateConvolution(p, q, x);
  }

  lemma {:induction false} EvaluateProductPoly(factors: seq<Poly>, x: bv8)
    requires AllNonempty(factors)
    ensures Evaluate(ProductPoly(factors), x) == Product(Evaluations(factors, x))
  {
    hide Mul, Add;
    if factors == [] {
      MulZero(x);
      AddIsGroup(1, 0, 0);
      assert Evaluate([1][1..], x) == 0;
    } else {
      var front, last := factors[..|factors| - 1], factors[|factors| - 1];
      EvaluateProductPoly(front, x);
      EvaluateMulPoly(ProductPoly(front), last, x);
      assert Evaluations(factors, x) == Evaluations(front, x) + [Evaluate(last, x)];
    }
  }

  // The product of canonical nonzero polynomials is canonical, so MulPoly need not strip.
  lemma MulPolyStaysCanonical(p: Poly, q: Poly)
    requires p != [] && q != [] && Canonical(p) && Canonical(q)
    ensures Canonical(MulPoly(p, q)) && Stripped(MulPoly(p, q)) == MulPoly(p, q)
  {
    hide Mul, MulPoly, Convolution;
    MulPolyIsConvolution(p, q);
    LeadingCoefficient(p, q);
    NoZeroDivisors(p[|p| - 1], q[|q| - 1]);
  }

  lemma {:induction false} LeadingCoefficient(p: Poly, q: Poly)
    requires p != [] && q != []
    ensures Convolution(p, q)[|p| + |q| - 2] == Mul(p[|p| - 1], q[|q| - 1])
  {
    hide Mul, Add;
    if |p| > 1 {
      var i := |p| + |q| - 2;
      var rest := [0] + Convolution(p[1..], q);
      LeadingCoefficient(p[1..], q);
      ZipAddCoefficient(ScaledBy(p[0], q), rest, i);
      AddIsGroup(rest[i], 0, 0);
      assert Coefficient(Convolution(p, q), i) == Convolution(p, q)[i];
    }
  }
}
