// Lagrange interpolation of src/seal/polynomial.rs: when it succeeds, what it passes through, and
// that its result is the only polynomial it could be.
module Interpolation {
  import opened Results
  import opened GF256
  import opened GF256Sums
  import opened GF256Laws
  import opened Polynomial
  import opened PolynomialLaws

  type Point = (bv8, bv8)

  predicate DistinctX(points: seq<Point>)
  {
    forall i, j | 0 <= i < j < |points| :: points[i].0 != points[j].0
  }

  predicate PassesThrough(p: Poly, points: seq<Point>)
  {
    forall k | 0 <= k < |points| :: Evaluate(p, points[k].0) == points[k].1
  }

  // ----- One basis polynomial

  predicate OthersDiffer(points: seq<Point>, j: nat, n: nat)
    requires j < |points| && n <= |points|
  {
    forall i | 0 <= i < n && i != j :: points[i].0 != points[j].0
  }

  predicate AllLinear(factors: seq<Poly>)
  {
    forall i | 0 <= i < |factors| :: |factors[i]| == 2
  }

  lemma {:induction false} FactorsExist(points: seq<Point>, j: nat, n: nat)
    requires j < |points| && n <= |points|
    ensures BasisFactors(points, j, n).Ok? <==> OthersDiffer(points, j, n)
    ensures BasisFactors(points, j, n).Err? ==> BasisFactors(points, j, n) == Err(InvalidInput)
    ensures BasisFactors(points, j, n).Ok? ==>
              var factors := BasisFactors(points, j, n).value;
              |factors| == (if j < n then n - 1 else n) && AllLinear(factors)
  {
    hide Mul, Inverse, Add;
    if n != 0 {
      FactorsExist(points, j, n - 1);
      if n - 1 != j {
        var xi := points[n - 1].0;
        LinearStaysLinear(Neg(xi), Sub(points[j].0, xi));
        AddZeroMeansEqual(points[j].0, xi);
      }
    }
  }

  lemma FactorEvaluates(xi: bv8, xj: bv8, x: bv8)
    requires xi != xj
    ensures DivScalar(MonicLinear(Neg(xi)), Sub(xj, xi)).Ok?
    ensures Evaluate(DivScalar(MonicLinear(Neg(xi)), Sub(xj, xi)).value, x) == Mul(Add(x, xi), Inverse(Add(xj, xi)))
  {
    hide Mul, Inverse, Add;
    var linear := MonicLinear(Neg(xi));
    AddIsGroup(xi, 0, 0);
    AddZeroMeansEqual(xj, xi);
    assert Evaluate(linear, x) == Add(x, xi) by {
      assert linear[1..] == [1] && linear[1..][1..] == [];
      MulZero(x);
      MulOne(x);
      AddIsGroup(1, 0, 0);
      assert Evaluate(linear[1..], x) == 1;
    }
    EvaluateDivScalar(linear, Sub(xj, xi), x);
  }

  // A basis polynomial is one at its own x-value...
  lemma {:induction false} BasisAtOwn(points: seq<Point>, j: nat, n: nat)
    requires j < |points| && n <= |points| && BasisFactors(points, j, n).Ok?
    ensures Product(Evaluations(BasisFactors(points, j, n).value, points[j].0)) == 1
  {
    hide Mul, Inverse, Add, DivScalar, Evaluate;
    if n != 0 {
      BasisAtOwn(points, j, n - 1);
      if n - 1 != j {
        var xi, xj := points[n - 1].0, points[j].0;
        FactorsExist(points, j, n);
        FactorEvaluates(xi, xj, xj);
        AddZeroMeansEqual(xj, xi);
        InverseWorks(Add(xj, xi));
        MulOne(1);
        EvaluationsSnoc(BasisFactors(points, j, n - 1).value, BasisFactors(points, j, n).value, xj);
      }
    }
  }

  lemma EvaluationsSnoc(front: seq<Poly>, all: seq<Poly>, x: bv8)
    requires |all| == |front| + 1 && all[..|front|] == front
    ensures Evaluations(all, x) == Evaluations(front, x) + [Evaluate(all[|front|], x)]
    ensures Product(Evaluations(all, x)) == Mul(Product(Evaluations(front, x)), Evaluate(all[|front|], x))
    ensures Sum(Evaluations(all, x)) == Add(Sum(Evaluations(front, x)), Evaluate(all[|front|], x))
  {
    hide Mul, Add, Evaluate;
    var values := Evaluations(all, x);
    assert values == Evaluations(front, x) + [Evaluate(all[|front|], x)];
    assert values[..|values| - 1] == Evaluations(front, x);
  }

  // ... and zero at every other.
  lemma {:induction false} BasisAtOther(points: seq<Point>, j: nat, n: nat, k: nat)
    requires j < |points| && n <= |points| && BasisFactors(points, j, n).Ok?
    requires k < n && k != j
    ensures Product(Evaluations(BasisFactors(points, j, n).value, points[k].0)) == 0
  {
    hide Mul, Inverse, Add, DivScalar, Evaluate;
    var factors, before := BasisFactors(points, j, n).value, BasisFactors(points, j, n - 1).value;
    var x := points[k].0;
    if n - 1 == j {
      BasisAtOther(points, j, n - 1, k);
    } else {
      var xi, xj := points[n - 1].0, points[j].0;
      FactorsExist(points, j, n);
      FactorEvaluates(xi, xj, x);
      EvaluationsSnoc(before, factors, x);
      MulZero(Product(Evaluations(before, x)));
      MulZero(Evaluate(factors[|before|], x));
      if k == n - 1 {
        AddZeroMeansEqual(x, xi);
        MulZero(Inverse(Add(xj, xi)));
      } else {
        BasisAtOther(points, j, n - 1, k);
      }
    }
  }

  lemma {:induction false} ProductOfLinearLength(factors: seq<Poly>)
    requires AllLinear(factors) && AllNonempty(factors)
    ensures |ProductPoly(factors)| == |factors| + 1
  {
    if factors != [] {
      ProductOfLinearLength(factors[..|factors| - 1]);
    }
  }

  // Every product in the interpolation has nonempty operands, and a basis polynomial has exactly
  // as many coefficients as there are points.
  lemma BasisPolynomialWorks(points: seq<Point>, j: nat)
    requires j < |points|
    ensures BasisPolynomial(points, j).Ok? <==> OthersDiffer(points, j, |points|)
    ensures BasisPolynomial(points, j).Err? ==> BasisPolynomial(points, j) == Err(InvalidInput)
    ensures BasisPolynomial(points, j).Ok? ==> |BasisPolynomial(points, j).value| == |points|
    ensures BasisPolynomial(points, j).Ok? ==>
              forall k | 0 <= k < |points| ::
                Evaluate(BasisPolynomial(points, j).value, points[k].0) == if k == j then 1 else 0
  {
    hide Mul, Inverse, Add, DivScalar, Evaluate;
    FactorsExist(points, j, |points|);
    if OthersDiffer(points, j, |points|) {
      var factors := BasisFactors(points, j, |points|).value;
      ProductOfLinearLength(factors);
      forall k | 0 <= k < |points|
        ensures Evaluate(BasisPolynomial(points, j).value, points[k].0) == if k == j then 1 else 0
      {
        EvaluateProductPoly(factors, points[k].0);
        if k == j {
          BasisAtOwn(points, j, |points|);
        } else {
          BasisAtOther(points, j, |points|, k);
        }
      }
    }
  }

  // ----- The sum of the scaled basis polynomials

  predicate FirstDiffer(points: seq<Point>, n: nat)
    requires n <= |points|
  {
    forall j | 0 <= j < n :: OthersDiffer(points, j, |points|)
  }

  lemma {:induction false} TermsExist(points: seq<Point>, n: nat)
    requires n <= |points|
    ensures LagrangeTerms(points, n).Ok? <==> FirstDiffer(points, n)
    ensures LagrangeTerms(points, n).Err? ==> LagrangeTerms(points, n) == Err(InvalidInput)
    ensures LagrangeTerms(points, n).Ok? ==> |LagrangeTerms(points, n).value| == n
    ensures LagrangeTerms(points, n).Ok? ==>
              forall j | 0 <= j < n :: |LagrangeTerms(points, n).value[j]| <= |points|
  {
    hide Evaluate, BasisPolynomial, OthersDiffer;
    if n != 0 {
      TermsExist(points, n - 1);
      BasisPolynomialWorks(points, n - 1);
      if FirstDiffer(points, n - 1) && OthersDiffer(points, n - 1, |points|) {
        ScaleLength(BasisPolynomial(points, n - 1).value, points[n - 1].1);
      }
    }
  }

  lemma {:induction false} ScaleAllLength(p: Poly, s: bv8)
    ensures |ScaleAll(p, s)| == |p|
  {
    if p != [] {
      ScaleAllLength(p[1..], s);
    }
  }

  lemma ScaleLength(p: Poly, s: bv8)
    ensures |Scale(p, s)| <= |p|
  {
    ScaleAllLength(p, s);
    StrippedIsCanonical(ScaleAll(p, s));
  }

  lemma {:induction false} TermsEvaluate(points: seq<Point>, n: nat, k: nat)
    requires n <= |points| && k < |points| && LagrangeTerms(points, n).Ok?
    ensures Sum(Evaluations(LagrangeTerms(points, n).value, points[k].0)) == if k < n then points[k].1 else 0
  {
    hide Mul, Add, Evaluate, BasisPolynomial, OthersDiffer;
    if n != 0 {
      var (x, y) := (points[k].0, points[n - 1].1);
      TermsEvaluate(points, n - 1, k);
      TermsExist(points, n);
      BasisPolynomialWorks(points, n - 1);
      var before, terms := LagrangeTerms(points, n - 1).value, LagrangeTerms(points, n).value;
      EvaluationsSnoc(before, terms, x);
      EvaluateScale(BasisPolynomial(points, n - 1).value, y, x);
      MulOne(y);
      MulZero(y);
      AddIsGroup(if k < n - 1 then points[k].1 else 0, 0, 0);
      AddIsGroup(y, 0, 0);
    }
  }

  lemma {:induction false} SumPolyShape(terms: seq<Poly>, bound: nat)
    requires forall i | 0 <= i < |terms| :: |terms[i]| <= bound
    ensures Canonical(SumPoly(terms)) && |SumPoly(terms)| <= bound
  {
    if terms != [] {
      var front, last := terms[..|terms| - 1], terms[|terms| - 1];
      SumPolyShape(front, bound);
      ZipAddLength(SumPoly(front), last);
      StrippedIsCanonical(ZipAdd(SumPoly(front), last));
    }
  }

  // Interpolation fails exactly when two x-values coincide. Otherwise the result passes through
  // every point, has at most as many coefficients as there are points, and no trailing zero.
  lemma InterpolateWorks(points: seq<Point>)
    ensures Interpolate(points).Ok? <==> DistinctX(points)
    ensures Interpolate(points).Err? ==> Interpolate(points) == Err(InvalidInput)
    ensures Interpolate(points).Ok? ==>
              var p := Interpolate(points).value;
              PassesThrough(p, points) && |p| <= |points| && Canonical(p)
  {
    hide Evaluate, Mul, Add, OthersDiffer;
    TermsExist(points, |points|);
    DistinctMeansAllDiffer(points);
    if DistinctX(points) {
      var terms := LagrangeTerms(points, |points|).value;
      SumPolyShape(terms, |points|);
      forall k | 0 <= k < |points|
        ensures Evaluate(SumPoly(terms), points[k].0) == points[k].1
      {
        EvaluateSumPoly(terms, points[k].0);
        TermsEvaluate(points, |points|, k);
      }
    }
  }

  lemma DistinctMeansAllDiffer(points: seq<Point>)
    ensures DistinctX(points) <==> FirstDiffer(points, |points|)
  {
    if FirstDiffer(points, |points|) {
      forall i, j | 0 <= i < j < |points|
        ensures points[i].0 != points[j].0
      {
        assert OthersDiffer(points, j, |points|);
      }
    }
  }

  // ----- Roots

  // The quotient of p by x - r (synthetic division).
  function Quotient(p: Poly, r: bv8): (q: Poly)
    ensures |q| == if p == [] then 0 else |p| - 1
  {
    if |p| <= 1 then [] else [Evaluate(p[1..], r)] + Quotient(p[1..], r)
  }

  lemma {:induction false} QuotientEvaluates(p: Poly, r: bv8, x: bv8)
    ensures Add(Evaluate(p, x), Evaluate(p, r)) == Mul(Add(x, r), Evaluate(Quotient(p, r), x))
  {
    hide Mul, Add;
    if p == [] {
      AddIsGroup(0, 0, 0);
      MulZero(Add(x, r));
    } else if |p| == 1 {
      MulZero(x);
      MulZero(r);
      MulZero(Add(x, r));
      AddIsGroup(Evaluate(p, x), 0, 0);
      assert Evaluate(p, x) == Evaluate(p, r);
    } else {
      var rest, q := p[1..], Quotient(p, r);
      var u, v, w := Evaluate(rest, x), Evaluate(rest, r), Evaluate(Quotient(rest, r), x);
      assert q[1..] == Quotient(rest, r);
      QuotientEvaluates(rest, r, x);
      HornerDifference(u, v, w, p[0], x, r);
    }
  }

  // With u + v = (x + r) w: (u x + c) + (v r + c) = (x + r) (w x + v).
  lemma HornerDifference(u: bv8, v: bv8, w: bv8, c: bv8, x: bv8, r: bv8)
    requires Add(u, v) == Mul(Add(x, r), w)
    ensures Add(Add(Mul(u, x), c), Add(Mul(v, r), c)) == Mul(Add(x, r), Add(Mul(w, x), v))
  {
    hide Mul, Add;
    var s := Add(x, r);
    AddSwapsInner(Mul(u, x), c, Mul(v, r), c);
    AddIsGroup(c, 0, 0);
    AddIsGroup(Add(Mul(u, x), Mul(v, r)), 0, 0);
    MulDistributes(s, Mul(w, x), v);
    MulAssociates(s, w, x);
    MulDistributes(x, u, v);
    MulDistributes(v, x, r);
    MulCommutes(v, x);
    MulCommutes(v, r);
    AddCancelsMiddle(Mul(u, x), Mul(v, x), Mul(v, r));
  }

  lemma AddCancelsMiddle(a: bv8, b: bv8, c: bv8)
    ensures Add(Add(a, b), Add(b, c)) == Add(a, c)
  {
    hide Add;
    AddIsGroup(a, b, Add(b, c));
    AddIsGroup(b, b, c);
    AddIsGroup(c, 0, 0);
    AddIsGroup(b, 0, 0);
  }

  predicate AllZero(p: Poly)
  {
    forall i | 0 <= i < |p| :: p[i] == 0
  }

  lemma {:induction false} ZeroQuotient(p: Poly, r: bv8)
    requires Evaluate(p, r) == 0 && AllZero(Quotient(p, r))
    ensures AllZero(p)
  {
    hide Mul, Add;
    if |p| == 1 {
      MulZero(r);
      AddIsGroup(p[0], 0, 0);
    } else if |p| > 1 {
      var q := Quotient(p, r);
      assert q[1..] == Quotient(p[1..], r);
      assert q[0] == 0;
      ZeroQuotient(p[1..], r);
      MulZero(r);
      AddIsGroup(p[0], 0, 0);
    }
  }

  predicate DistinctRoots(p: Poly, roots: seq<bv8>)
  {
    && (forall i, j | 0 <= i < j < |roots| :: roots[i] != roots[j])
    && (forall i | 0 <= i < |roots| :: Evaluate(p, roots[i]) == 0)
  }

  // A polynomial with as many distinct roots as coefficients is zero.
  lemma {:induction false} RootBound(p: Poly, roots: seq<bv8>)
    requires DistinctRoots(p, roots) && |p| <= |roots|
    ensures AllZero(p)
    decreases |p|
  {
    hide Mul, Add, Evaluate;
    if p != [] {
      var r, others := roots[0], roots[1..];
      var q := Quotient(p, r);
      forall i | 0 <= i < |others|
        ensures Evaluate(q, others[i]) == 0
      {
        var x := others[i];
        QuotientEvaluates(p, r, x);
        AddIsGroup(0, 0, 0);
        AddZeroMeansEqual(x, r);
        NoZeroDivisors(Add(x, r), Evaluate(q, x));
      }
      RootBound(q, others);
      ZeroQuotient(p, r);
    }
  }

  // Two polynomials that agree at as many distinct points as either has coefficients are the same.
  lemma AgreeingPolynomialsAreSame(p: Poly, q: Poly, xs: seq<bv8>)
    requires |p| <= |xs| && |q| <= |xs|
    requires forall i, j | 0 <= i < j < |xs| :: xs[i] != xs[j]
    requires forall i | 0 <= i < |xs| :: Evaluate(p, xs[i]) == Evaluate(q, xs[i])
    ensures SamePolynomial(p, q)
  {
    hide Mul, Add, Evaluate;
    var d := ZipAdd(p, q);
    ZipAddLength(p, q);
    forall i | 0 <= i < |xs|
      ensures Evaluate(d, xs[i]) == 0
    {
      EvaluateZipAdd(p, q, xs[i]);
      AddZeroMeansEqual(Evaluate(p, xs[i]), Evaluate(q, xs[i]));
    }
    RootBound(d, xs);
    forall i: nat
      ensures Coefficient(p, i) == Coefficient(q, i)
    {
      ZipAddCoefficient(p, q, i);
      AddZeroMeansEqual(Coefficient(p, i), Coefficient(q, i));
    }
  }

  // Interpolating samples of P at pairwise distinct x-values, at least as many as P has
  // coefficients, returns P with its trailing zeros stripped.
  lemma InterpolateIsUnique(p: Poly, points: seq<Point>)
    requires DistinctX(points) && |p| <= |points| && PassesThrough(p, points)
    ensures Interpolate(points) == Ok(Stripped(p))
  {
    hide Evaluate, Interpolate, Stripped;
    InterpolateWorks(points);
    var q := Interpolate(points).value;
    var xs := seq(|points|, i requires 0 <= i < |points| => points[i].0);
    AgreeingPolynomialsAreSame(p, q, xs);
    StrippedIsTheCanonicalForm(p, q);
  }
}
