// What secret sharing promises: threshold reconstruction, perfect secrecy of fewer shares, and the
// agreement of the two reconstructions.
module TSSLaws {
  import opened Bytes
  import opened Results
  import opened GF256
  import opened GF256Sums
  import opened GF256Laws
  import opened Polynomial
  import opened PolynomialLaws
  import opened Interpolation
  import opened Utils
  import opened TSS

  // ----- Splitting

  lemma ShareIndexFacts(n: u8)
    ensures AllUnique(ShareIndices(n)) && 0 !in ShareIndices(n)
  {
    hide Byte;
    var indices := ShareIndices(n);
    forall i, j | 0 <= i < j < n
      ensures indices[i] != indices[j]
    {
      if indices[i] == indices[j] {
        ByteInjective(i + 1, j + 1);
      }
    }
    forall i | 0 <= i < n
      ensures indices[i] != 0
    {
      ByteOfZero();
      if indices[i] == 0 {
        ByteInjective(i + 1, 0);
      }
    }
  }

  lemma ByteOfZero()
    ensures Byte(0) == 0
  {}

  lemma {:induction false} Pigeonhole(s: seq<nat>, bound: nat)
    requires AllUnique(s) && forall i | 0 <= i < |s| :: 1 <= s[i] <= bound
    ensures |s| <= bound
    decreases bound
  {
    if s != [] {
      if bound in s {
        var k :| 0 <= k < |s| && s[k] == bound;
        Pigeonhole(s[..k] + s[k + 1..], bound - 1);
      } else {
        Pigeonhole(s, bound - 1);
      }
    }
  }

  lemma AtMost255Indices(indices: seq<bv8>)
    requires AllUnique(indices) && 0 !in indices
    ensures |indices| <= 255
  {
    hide Value, Byte;
    var values := seq(|indices|, i requires 0 <= i < |indices| => Value(indices[i]));
    forall i, j | 0 <= i < j < |values|
      ensures values[i] != values[j]
    {
      ByteOfValue(indices[i]);
      ByteOfValue(indices[j]);
    }
    forall i | 0 <= i < |values|
      ensures 1 <= values[i] <= 255
    {
      ByteOfValue(indices[i]);
      ByteOfZero();
      assert indices[i] in indices;
    }
    Pigeonhole(values, 255);
  }

  // A byte is split exactly when 1 <= threshold <= number of indices and the indices are distinct and
  // nonzero: truncating their number to a u8 changes nothing. Share k is then the value at index k.
  lemma ByteSharesWork(secret: bv8, threshold: u8, indices: seq<bv8>, draws: Bytes)
    ensures ByteShares(secret, threshold, indices, draws) ==
            if 1 <= threshold <= |indices| && 0 !in indices && AllUnique(indices) then
              Ok(EvaluateAll([secret] + draws, indices))
            else Err(InvalidInput)
  {
    hide EvaluateAll;
    if AllUnique(indices) && 0 !in indices {
      AtMost255Indices(indices);
    }
  }

  lemma {:induction false} SharesOfBytesWork(secret: Bytes, n: nat, threshold: u8, indices: seq<bv8>, draws: seq<Bytes>)
    requires n <= |secret| && n <= |draws| && ValidSplit(threshold, indices)
    ensures SharesOfBytes(secret, n, threshold, indices, draws).Ok?
    ensures var rows := SharesOfBytes(secret, n, threshold, indices, draws).value;
            forall i | 0 <= i < n :: rows[i] == EvaluateAll([secret[i]] + draws[i], indices)
  {
    hide Evaluate, EvaluateAll;
    if n != 0 {
      SharesOfBytesWork(secret, n - 1, threshold, indices, draws);
    }
  }

  // Splitting succeeds exactly for 1 <= threshold <= number of shares and a nonempty secret, and
  // byte i of share j is the value at j + 1 of the polynomial with constant term secret[i].
  lemma SharingWorks(secret: Bytes, threshold: u8, n: u8, draws: seq<Bytes>)
    requires |draws| == |secret|
    ensures Sharing(secret, threshold, n, draws).Ok? <==> 1 <= threshold <= n && secret != []
    ensures Sharing(secret, threshold, n, draws).Err? ==> Sharing(secret, threshold, n, draws) == Err(InvalidInput)
    ensures Sharing(secret, threshold, n, draws).Ok? ==>
              var s := Sharing(secret, threshold, n, draws).value;
              && s.secret == secret && s.indices == ShareIndices(n) && |s.shares| == n
              && (forall j | 0 <= j < n :: |s.shares[j]| == |secret|)
              && (forall i, j | 0 <= i < |secret| && 0 <= j < n ::
                    s.shares[j][i] == Evaluate([secret[i]] + draws[i], Byte(j + 1)))
  {
    hide Evaluate, Byte;
    if 1 <= threshold <= n {
      var indices := ShareIndices(n);
      ShareIndexFacts(n);
      SharesOfBytesWork(secret, |secret|, threshold, indices, draws);
      var rows := SharesOfBytes(secret, |secret|, threshold, indices, draws).value;
      TransposeWorks(|secret|, rows);
      if secret != [] {
        var s := Sharing(secret, threshold, n, draws).value;
        forall i, j | 0 <= i < |secret| && 0 <= j < n
          ensures s.shares[j][i] == Evaluate([secret[i]] + draws[i], Byte(j + 1))
        {
          assert s.shares[j][i] == rows[i][j];
        }
      }
    }
  }

  // ----- One byte: the closed formula is interpolation evaluated at 0

  lemma AcceptedMeansDistinct(shares: seq<ByteShare>)
    ensures AllUnique(Firsts(shares)) <==> DistinctX(shares)
  {
    var xs := Firsts(shares);
    if AllUnique(xs) {
      forall i, j | 0 <= i < j < |shares|
        ensures shares[i].0 != shares[j].0
      {
        assert xs[i] != xs[j];
      }
    }
  }

  // Over the first n shares other than share j: the product of the differences of CombineByte, the
  // value at 0 of the basis factors, and the product of all indices including that of j.
  function DifferenceProduct(shares: seq<ByteShare>, j: nat, n: nat): bv8
    requires j < |shares| && n <= |shares|
  {
    Product(Differences(shares[..n], shares[j].0))
  }

  function BasisProduct(shares: seq<ByteShare>, j: nat, n: nat): bv8
    requires j < |shares| && n <= |shares| && BasisFactors(shares, j, n).Ok?
  {
    Product(Evaluations(BasisFactors(shares, j, n).value, 0))
  }

  function IndexProduct(shares: seq<ByteShare>, n: nat): bv8
    requires n <= |shares|
  {
    Product(Firsts(shares[..n]))
  }

  lemma DifferenceStep(shares: seq<ByteShare>, j: nat, n: nat)
    requires j < |shares| && n < |shares|
    requires n != j ==> shares[n].0 != shares[j].0
    ensures DifferenceProduct(shares, j, n + 1) ==
            if n == j then DifferenceProduct(shares, j, n)
            else Mul(DifferenceProduct(shares, j, n), Add(shares[j].0, shares[n].0))
  {
    hide Mul, Add, Product;
    var x, xi := shares[j].0, shares[n].0;
    assert shares[..n + 1][..n] == shares[..n];
    AddIsGroup(xi, x, 0);
    if n == j {
      assert Differences(shares[..n + 1], x) == Differences(shares[..n], x);
    } else {
      ProductSnoc(Differences(shares[..n], x), Sub(xi, x), Differences(shares[..n + 1], x));
    }
  }

  lemma BasisStep(shares: seq<ByteShare>, j: nat, n: nat)
    requires j < |shares| && n < |shares| && BasisFactors(shares, j, n + 1).Ok?
    ensures BasisFactors(shares, j, n).Ok?
    ensures n != j ==> shares[n].0 != shares[j].0
    ensures BasisProduct(shares, j, n + 1) ==
            if n == j then BasisProduct(shares, j, n)
            else Mul(BasisProduct(shares, j, n), Mul(shares[n].0, Inverse(Add(shares[j].0, shares[n].0))))
  {
    hide Mul, Add, Inverse, DivScalar, Evaluate, Product;
    FactorsExist(shares, j, n + 1);
    if n != j {
      FactorEvaluates(shares[n].0, shares[j].0, 0);
      AddIsGroup(shares[n].0, 0, 0);
      EvaluationsSnoc(BasisFactors(shares, j, n).value, BasisFactors(shares, j, n + 1).value, 0);
    }
  }

  lemma {:induction false} BasisTimesDifferences(shares: seq<ByteShare>, j: nat, n: nat)
    requires j < |shares| && n <= |shares| && BasisFactors(shares, j, n).Ok?
    ensures var others := Mul(DifferenceProduct(shares, j, n), BasisProduct(shares, j, n));
            IndexProduct(shares, n) == if j < n then Mul(shares[j].0, others) else others
  {
    hide Mul, Add, Inverse, Product, DifferenceProduct, BasisProduct;
    var x := shares[j].0;
    if n == 0 {
      BasisTimesDifferencesOfNone(shares, j);
    } else {
      var xi := shares[n - 1].0;
      BasisStep(shares, j, n - 1);
      DifferenceStep(shares, j, n - 1);
      BasisTimesDifferences(shares, j, n - 1);
      ProductSnoc(Firsts(shares[..n - 1]), xi, Firsts(shares[..n]));
      var d, b := DifferenceProduct(shares, j, n - 1), BasisProduct(shares, j, n - 1);
      if n - 1 == j {
        MulCommutes(Mul(d, b), x);
      } else {
        AddZeroMeansEqual(x, xi);
        OneMoreFactor(d, b, Add(x, xi), xi);
        MulAssociates(x, Mul(d, b), xi);
      }
    }
  }

  lemma BasisTimesDifferencesOfNone(shares: seq<ByteShare>, j: nat)
    requires j < |shares|
    ensures IndexProduct(shares, 0) == Mul(DifferenceProduct(shares, j, 0), BasisProduct(shares, j, 0)) == 1
  {
    hide Mul;
    MulOne(1);
  }

  lemma ProductSnoc(front: seq<bv8>, last: bv8, all: seq<bv8>)
    requires |all| == |front| + 1 && all[..|front|] == front && all[|front|] == last
    ensures Product(all) == Mul(Product(front), last)
  {
    hide Mul;
  }

  // (d s)(b (c / s)) = (d b) c
  lemma OneMoreFactor(d: bv8, b: bv8, s: bv8, c: bv8)
    requires s != 0
    ensures Mul(Mul(d, s), Mul(b, Mul(c, Inverse(s)))) == Mul(Mul(d, b), c)
  {
    hide Mul, Inverse;
    var q := Mul(c, Inverse(s));
    MulAssociates(d, s, Mul(b, q));
    MulCommutes(s, Mul(b, q));
    MulAssociates(b, q, s);
    MulAssociates(c, Inverse(s), s);
    MulCommutes(s, Inverse(s));
    InverseWorks(s);
    MulOne(c);
    MulAssociates(d, b, c);
  }

  lemma BasisAtZero(shares: seq<ByteShare>, j: nat)
    requires j < |shares| && DistinctX(shares) && shares[j].0 != 0
    ensures BasisPolynomial(shares, j).Ok?
    ensures Evaluate(BasisPolynomial(shares, j).value, 0) ==
            Mul(Product(Firsts(shares)), Inverse(Denominator(shares, shares[j].0)))
  {
    hide Mul, Inverse, Evaluate, DivScalar;
    var n, x := |shares|, shares[j].0;
    DistinctMeansAllDiffer(shares);
    FactorsExist(shares, j, n);
    assert shares[..n] == shares;
    BasisTimesDifferences(shares, j, n);
    var d, b := DifferenceProduct(shares, j, n), BasisProduct(shares, j, n);
    EvaluateProductPoly(BasisFactors(shares, j, n).value, 0);
    DenominatorNonzero(shares, x);
    MulAssociates(x, d, b);
    CancelDenominator(Denominator(shares, x), b);
  }

  lemma CancelDenominator(d: bv8, b: bv8)
    requires d != 0
    ensures Mul(Mul(d, b), Inverse(d)) == b
  {
    hide Mul, Inverse;
    MulCommutes(d, b);
    MulAssociates(b, d, Inverse(d));
    InverseWorks(d);
    MulOne(b);
  }

  lemma {:induction false} QuotientsAreTerms(shares: seq<ByteShare>, n: nat)
    requires n <= |shares| && DistinctX(shares) && LagrangeTerms(shares, n).Ok?
    requires forall i | 0 <= i < |shares| :: shares[i].0 != 0
    ensures Mul(Product(Firsts(shares)), Sum(Quotients(shares, n))) ==
            Sum(Evaluations(LagrangeTerms(shares, n).value, 0))
  {
    hide Mul, Add, Inverse, Evaluate, BasisPolynomial, Denominator, Product, Scale;
    var p := Product(Firsts(shares));
    if n == 0 {
      MulZero(p);
    } else {
      hide Evaluations;
      QuotientsAreTerms(shares, n - 1);
      TermsExist(shares, n);
      var (x, y) := shares[n - 1];
      var i := Inverse(Denominator(shares, x));
      DenominatorNonzero(shares, x);
      BasisAtZero(shares, n - 1);
      EvaluateScale(BasisPolynomial(shares, n - 1).value, y, 0);
      EvaluationsSnoc(LagrangeTerms(shares, n - 1).value, LagrangeTerms(shares, n).value, 0);
      var q := Quotients(shares, n);
      assert q[..n - 1] == Quotients(shares, n - 1);
      MulDistributes(p, Sum(q[..n - 1]), Mul(y, i));
      MulCommutes(y, i);
      MulAssociates(p, i, y);
    }
  }

  // The two reconstructions of a byte agree, and CombineByte rejects exactly what the callers of
  // interpolation reject.
  lemma CombineByteIsValueAtZero(shares: seq<ByteShare>)
    ensures CombineByte(shares).Ok? <==> AcceptedBytes(shares)
    ensures CombineByte(shares).Err? ==> CombineByte(shares) == Err(InvalidInput)
    ensures CombineByte(shares).Ok? ==>
              && Polynomial.Interpolate(shares).Ok?
              && CombineByte(shares) == Ok(Evaluate(Polynomial.Interpolate(shares).value, 0))
  {
    hide Mul, Evaluate, Product, Sum, Quotients, LagrangeTerms, Evaluations, SumPoly;
    if AcceptedBytes(shares) {
      AcceptedMeansDistinct(shares);
      IndicesNonzero(shares);
      InterpolateWorks(shares);
      QuotientsAreTerms(shares, |shares|);
      EvaluateSumPoly(LagrangeTerms(shares, |shares|).value, 0);
    }
  }

  // ----- Byte strings

  lemma RowIndices(shares: seq<Share>, i: nat)
    requires forall k | 0 <= k < |shares| :: i < |shares[k].1|
    ensures Firsts(ByteRow(shares, i)) == Firsts(shares)
    ensures AcceptedBytes(ByteRow(shares, i)) <==> Accepted(shares)
  {}

  lemma {:induction false} CombineFirstWorks(shares: seq<Share>, n: nat)
    requires forall k | 0 <= k < |shares| :: n <= |shares[k].1|
    ensures CombineFirst(shares, n).Ok? <==> n == 0 || Accepted(shares)
    ensures CombineFirst(shares, n).Err? ==> CombineFirst(shares, n) == Err(InvalidInput)
    ensures CombineFirst(shares, n).Ok? ==>
              forall i | 0 <= i < n :: CombineByte(ByteRow(shares, i)) == Ok(CombineFirst(shares, n).value[i])
  {
    hide CombineByte;
    if n != 0 {
      CombineFirstWorks(shares, n - 1);
      RowIndices(shares, n - 1);
      CombineByteIsValueAtZero(ByteRow(shares, n - 1));
    }
  }

  lemma {:induction false} InterpolateFirstWorks(shares: seq<Share>, n: nat)
    requires Accepted(shares) && forall k | 0 <= k < |shares| :: n <= |shares[k].1|
    ensures InterpolateFirst(shares, n).Ok?
    ensures forall i | 0 <= i < n ::
              Polynomial.Interpolate(ByteRow(shares, i)) == Ok(InterpolateFirst(shares, n).value[i])
  {
    hide Polynomial.Interpolate;
    if n != 0 {
      InterpolateFirstWorks(shares, n - 1);
      RowIndices(shares, n - 1);
      AcceptedMeansDistinct(ByteRow(shares, n - 1));
      InterpolateWorks(ByteRow(shares, n - 1));
    }
  }

  lemma InterpolateSharesWorks(n: nat, shares: seq<Share>)
    requires HaveLength(shares, n)
    ensures InterpolateShares(n, shares).Ok? <==> Accepted(shares)
    ensures InterpolateShares(n, shares).Err? ==> InterpolateShares(n, shares) == Err(InvalidInput)
    ensures InterpolateShares(n, shares).Ok? ==>
              forall i | 0 <= i < n ::
                Polynomial.Interpolate(ByteRow(shares, i)) == Ok(InterpolateShares(n, shares).value[i])
  {
    hide Polynomial.Interpolate;
    if Accepted(shares) {
      InterpolateFirstWorks(shares, n);
    }
  }

  // On accepted shares both reconstructions succeed and agree. On rejected ones interpolation
  // always fails, and so does combination unless the secret is empty.
  lemma CombineIsValueAtZero(n: nat, shares: seq<Share>)
    requires HaveLength(shares, n)
    ensures Accepted(shares) ==>
              && InterpolateShares(n, shares).Ok?
              && Combine(n, shares) == Ok(ValueAt(InterpolateShares(n, shares).value, 0))
    ensures !Accepted(shares) ==>
              && InterpolateShares(n, shares) == Err(InvalidInput)
              && Combine(n, shares) == if n == 0 then Ok([]) else Err(InvalidInput)
  {
    hide Polynomial.Interpolate, CombineByte, Evaluate;
    CombineFirstWorks(shares, n);
    InterpolateSharesWorks(n, shares);
    if Accepted(shares) {
      forall i | 0 <= i < n
        ensures Combine(n, shares).value[i] == Evaluate(InterpolateShares(n, shares).value[i], 0)
      {
        CombineByteIsValueAtZero(ByteRow(shares, i));
      }
      assert Combine(n, shares).value == ValueAt(InterpolateShares(n, shares).value, 0);
    }
  }

  // The two reconstructions accept the same shares exactly when the secret has a byte or the
  // shares are well-formed: combining empty secrets checks nothing.
  lemma ReconstructionsRejectAlike(n: nat, shares: seq<Share>)
    requires HaveLength(shares, n)
    ensures (Combine(n, shares).Ok? <==> InterpolateShares(n, shares).Ok?) <==> n >= 1 || Accepted(shares)
  {
    CombineIsValueAtZero(n, shares);
  }

  // ----- Threshold reconstruction

  predicate LieOn(shares: seq<Share>, polynomials: seq<Poly>)
  {
    forall k | 0 <= k < |shares| :: ValueAt(polynomials, shares[k].0) == shares[k].1
  }

  // Enough shares on given polynomials determine them: interpolation returns their canonical forms
  // and combination their values at 0.
  lemma SharesDeterminePolynomials(n: nat, shares: seq<Share>, polynomials: seq<Poly>)
    requires HaveLength(shares, n) && |polynomials| == n && Accepted(shares)
    requires forall i | 0 <= i < n :: |polynomials[i]| <= |shares|
    requires LieOn(shares, polynomials)
    ensures InterpolateShares(n, shares).Ok?
    ensures forall i | 0 <= i < n :: InterpolateShares(n, shares).value[i] == Stripped(polynomials[i])
    ensures forall x :: ValueAt(InterpolateShares(n, shares).value, x) == ValueAt(polynomials, x)
    ensures Combine(n, shares) == Ok(ValueAt(polynomials, 0))
  {
    hide Polynomial.Interpolate, Evaluate, Combine;
    InterpolateSharesWorks(n, shares);
    CombineIsValueAtZero(n, shares);
    var found := InterpolateShares(n, shares).value;
    forall i | 0 <= i < n
      ensures found[i] == Stripped(polynomials[i])
    {
      var row := ByteRow(shares, i);
      RowIndices(shares, i);
      AcceptedMeansDistinct(row);
      forall k | 0 <= k < |row|
        ensures Evaluate(polynomials[i], row[k].0) == row[k].1
      {
        assert ValueAt(polynomials, shares[k].0)[i] == shares[k].1[i];
      }
      InterpolateIsUnique(polynomials[i], row);
    }
    forall x
      ensures ValueAt(found, x) == ValueAt(polynomials, x)
    {
      forall i | 0 <= i < n
        ensures Evaluate(found[i], x) == Evaluate(polynomials[i], x)
      {
        EvaluateStripped(polynomials[i], x);
      }
    }
  }

  lemma EvaluateAtZero(p: Poly)
    ensures Evaluate(p, 0) == Coefficient(p, 0)
  {
    hide Mul, Add;
    if p != [] {
      MulZero(Evaluate(p[1..], 0));
      AddIsGroup(p[0], 0, 0);
    }
  }

  // The polynomials that a sharing evaluates: one per byte, with that byte as constant term.
  function SharingPolynomials(secret: Bytes, draws: seq<Bytes>): (r: seq<Poly>)
    requires |draws| == |secret|
    ensures |r| == |secret|
  {
    seq(|secret|, i requires 0 <= i < |secret| => [secret[i]] + draws[i])
  }

  lemma SharingPolynomialsAtZero(secret: Bytes, draws: seq<Bytes>)
    requires |draws| == |secret|
    ensures ValueAt(SharingPolynomials(secret, draws), 0) == secret
  {
    hide Evaluate;
    forall i | 0 <= i < |secret|
      ensures Evaluate([secret[i]] + draws[i], 0) == secret[i]
    {
      EvaluateAtZero([secret[i]] + draws[i]);
    }
  }

  // The shares at the chosen positions, in the chosen order.
  function Chosen(sharing: SecretSharing, positions: seq<nat>): (r: seq<Share>)
    requires |sharing.indices| == |sharing.shares|
    requires forall k | 0 <= k < |positions| :: positions[k] < |sharing.shares|
    ensures |r| == |positions|
  {
    seq(|positions|, k requires 0 <= k < |positions| => (sharing.indices[positions[k]], sharing.shares[positions[k]]))
  }

  lemma SharesLieOnPolynomials(secret: Bytes, threshold: u8, n: u8, draws: seq<Bytes>, j: nat)
    requires |draws| == |secret| && secret != [] && 1 <= threshold <= n && j < n
    requires Sharing(secret, threshold, n, draws).Ok?
    ensures var s := Sharing(secret, threshold, n, draws).value;
            |s.shares| == |s.indices| == n &&
            s.shares[j] == ValueAt(SharingPolynomials(secret, draws), s.indices[j])
  {
    hide Evaluate, Byte, Sharing;
    SharingWorks(secret, threshold, n, draws);
  }

  // Any sublist of at least `threshold` distinct shares, in any order, combines to the secret,
  // whatever coefficients were drawn.
  lemma ThresholdReconstruction(secret: Bytes, threshold: u8, n: u8, draws: seq<Bytes>, positions: seq<nat>)
    requires |draws| == |secret| && secret != [] && 1 <= threshold <= n
    requires forall i | 0 <= i < |draws| :: |draws[i]| == threshold - 1
    requires forall k | 0 <= k < |positions| :: positions[k] < n
    requires AllUnique(positions) && |positions| >= threshold
    ensures Sharing(secret, threshold, n, draws).Ok?
    ensures var s := Sharing(secret, threshold, n, draws).value;
            && |s.indices| == |s.shares| == n
            && HaveLength(Chosen(s, positions), |secret|)
            && Combine(|secret|, Chosen(s, positions)) == Ok(secret)
  {
    hide Evaluate, Byte, Sharing, Combine, InterpolateShares;
    SharingWorks(secret, threshold, n, draws);
    var s := Sharing(secret, threshold, n, draws).value;
    var shares := Chosen(s, positions);
    ChosenAreAccepted(n, s, positions);
    var polynomials := SharingPolynomials(secret, draws);
    forall k | 0 <= k < |shares|
      ensures ValueAt(polynomials, shares[k].0) == shares[k].1
    {
      SharesLieOnPolynomials(secret, threshold, n, draws, positions[k]);
    }
    SharesDeterminePolynomials(|secret|, shares, polynomials);
    SharingPolynomialsAtZero(secret, draws);
  }

  lemma ChosenAreAccepted(n: u8, s: SecretSharing, positions: seq<nat>)
    requires s.indices == ShareIndices(n) && |s.shares| == n
    requires forall k | 0 <= k < |positions| :: positions[k] < n
    requires AllUnique(positions) && positions != []
    ensures Accepted(Chosen(s, positions))
  {
    hide Byte, ShareIndices;
    ShareIndexFacts(n);
    var shares := Chosen(s, positions);
    var indices := Firsts(shares);
    forall i, j | 0 <= i < j < |indices|
      ensures indices[i] != indices[j]
    {
      assert positions[i] != positions[j];
      var a, b := if positions[i] < positions[j] then positions[i] else positions[j],
                  if positions[i] < positions[j] then positions[j] else positions[i];
      assert s.indices[a] != s.indices[b];
    }
    assert forall i | 0 <= i < |indices| :: indices[i] == s.indices[positions[i]];
  }

  // ----- Perfect secrecy of fewer shares

  // What the holders of the shares at the given positions see.
  predicate Explains(secret: bv8, threshold: u8, indices: seq<bv8>, draws: Bytes, positions: seq<nat>, values: seq<bv8>)
    requires ValidSplit(threshold, indices) && |values| == |positions|
    requires forall k | 0 <= k < |positions| :: positions[k] < |indices|
  {
    forall k | 0 <= k < |positions| :: ByteShares(secret, threshold, indices, draws).value[positions[k]] == values[k]
  }

  // threshold - 1 shares say nothing about the byte: for every value the byte might have, exactly
  // one choice of the random coefficients produces the shares seen.
  lemma PerfectThreshold(secret: bv8, threshold: u8, indices: seq<bv8>, positions: seq<nat>, values: seq<bv8>)
    returns (draws: Bytes)
    requires ValidSplit(threshold, indices)
    requires |positions| == |values| == threshold - 1 && AllUnique(positions)
    requires forall k | 0 <= k < |positions| :: positions[k] < |indices|
    ensures |draws| == threshold - 1 && Explains(secret, threshold, indices, draws, positions, values)
    ensures forall other: Bytes |
              |other| == threshold - 1 && Explains(secret, threshold, indices, other, positions, values) ::
              other == draws
  {
    hide Evaluate, Polynomial.Interpolate;
    var xs := [0] + seq(|positions|, k requires 0 <= k < |positions| => indices[positions[k]]);
    var ys := [secret] + values;
    var points := seq(|xs|, k requires 0 <= k < |xs| => (xs[k], ys[k]));
    SeenIndicesDistinct(indices, positions, xs);
    InterpolateWorks(points);
    var p := Polynomial.Interpolate(points).value;
    var padded := seq(threshold, i requires 0 <= i => Coefficient(p, i));
    SameEvaluation(p, padded);
    EvaluateAtZero(padded);
    assert points[0] == (0, secret);
    draws := padded[1..];
    assert [secret] + draws == padded;
    forall k | 0 <= k < |positions|
      ensures ByteShares(secret, threshold, indices, draws).value[positions[k]] == values[k]
    {
      assert points[k + 1] == (indices[positions[k]], values[k]);
    }
    forall other: Bytes | |other| == threshold - 1 && Explains(secret, threshold, indices, other, positions, values)
      ensures other == draws
    {
      OnlyOneExplanation(secret, threshold, indices, draws, other, positions, values, xs);
    }
  }

  lemma SeenIndicesDistinct(indices: seq<bv8>, positions: seq<nat>, xs: seq<bv8>)
    requires 0 !in indices && AllUnique(indices) && AllUnique(positions)
    requires forall k | 0 <= k < |positions| :: positions[k] < |indices|
    requires |xs| == |positions| + 1 && xs[0] == 0
    requires forall k | 1 <= k < |xs| :: xs[k] == indices[positions[k - 1]]
    ensures forall i, j | 0 <= i < j < |xs| :: xs[i] != xs[j]
  {
    forall i, j | 0 <= i < j < |xs|
      ensures xs[i] != xs[j]
    {
      var b := positions[j - 1];
      assert indices[b] in indices;
      if i > 0 {
        var a := positions[i - 1];
        assert a != b;
        assert if a < b then indices[a] != indices[b] else indices[b] != indices[a];
      }
    }
  }

  lemma SameEvaluation(p: Poly, q: Poly)
    requires |p| <= |q| && forall i | 0 <= i < |q| :: q[i] == Coefficient(p, i)
    ensures forall x :: Evaluate(p, x) == Evaluate(q, x)
  {
    hide Evaluate;
    StrippedIsTheCanonicalForm(p, Stripped(q));
    StrippedIsTheCanonicalForm(q, Stripped(q));
    assert SamePolynomial(Stripped(q), p) by {
      forall i: nat
        ensures Coefficient(Stripped(q), i) == Coefficient(p, i)
      {
        assert Coefficient(Stripped(q), i) == Coefficient(q, i);
      }
    }
    forall x
      ensures Evaluate(p, x) == Evaluate(q, x)
    {
      EvaluateStripped(p, x);
      EvaluateStripped(q, x);
    }
  }

  lemma OnlyOneExplanation(secret: bv8, threshold: u8, indices: seq<bv8>, a: Bytes, b: Bytes,
                           positions: seq<nat>, values: seq<bv8>, xs: seq<bv8>)
    requires ValidSplit(threshold, indices)
    requires |positions| == |values| == |a| == |b| == threshold - 1
    requires forall k | 0 <= k < |positions| :: positions[k] < |indices|
    requires Explains(secret, threshold, indices, a, positions, values)
    requires Explains(secret, threshold, indices, b, positions, values)
    requires |xs| == |positions| + 1 && xs[0] == 0
    requires forall k | 1 <= k < |xs| :: xs[k] == indices[positions[k - 1]]
    requires forall i, j | 0 <= i < j < |xs| :: xs[i] != xs[j]
    ensures a == b
  {
    hide Evaluate;
    var p, q := [secret] + a, [secret] + b;
    forall k | 0 <= k < |xs|
      ensures Evaluate(p, xs[k]) == Evaluate(q, xs[k])
    {
      if k == 0 {
        EvaluateAtZero(p);
        EvaluateAtZero(q);
      } else {
        assert ByteShares(secret, threshold, indices, a).value[positions[k - 1]] ==
               ByteShares(secret, threshold, indices, b).value[positions[k - 1]];
      }
    }
    AgreeingPolynomialsAreSame(p, q, xs);
    forall i | 0 <= i < |a|
      ensures a[i] == b[i]
    {
      assert Coefficient(p, i + 1) == Coefficient(q, i + 1);
    }
  }
}
