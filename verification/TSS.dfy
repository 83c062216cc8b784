// Shamir secret sharing of byte strings (src/seal/tss.rs). The [u8; N] arrays of the program are
// byte strings of length n; the length is a parameter where the program infers it.
module TSS {
  import opened Bytes
  import opened Results
  import opened GF256
  import opened GF256Sums
  import opened GF256Laws
  import opened Polynomial
  import opened Randomness
  import opened Utils

  datatype SecretSharing = SecretSharing(secret: Bytes, indices: seq<bv8>, shares: seq<Bytes>)

  type ByteShare = (bv8, bv8)
  type Share = (bv8, Bytes)

  predicate AllUnique<T(==)>(s: seq<T>)
  {
    forall i, j | 0 <= i < j < |s| :: s[i] != s[j]
  }

  // ----- Splitting

  predicate ValidSplit(threshold: u8, indices: seq<bv8>)
  {
    var numberOfShares := |indices| % 256;
    && threshold != 0
    && numberOfShares != 0
    && threshold <= numberOfShares
    && 0 !in indices
    && AllUnique(indices)
  }

  function EvaluateAll(p: Poly, indices: seq<bv8>): (r: seq<bv8>)
    ensures |r| == |indices|
  {
    seq(|indices|, i requires 0 <= i < |indices| => Evaluate(p, indices[i]))
  }

  // The shares of one byte, for given values of the threshold - 1 random coefficients.
  function ByteShares(secret: bv8, threshold: u8, indices: seq<bv8>, draws: Bytes): Result<seq<bv8>>
  {
    if !ValidSplit(threshold, indices) then Err(InvalidInput)
    else Ok(EvaluateAll([secret] + draws, indices))
  }

  method SplitByte(rng: Rng, secret: bv8, threshold: u8, indices: seq<bv8>) returns (r: Result<seq<bv8>>)
    modifies rng`bytesRead
    ensures r == ByteShares(secret, threshold, indices,
                            old(rng.Upcoming(if threshold == 0 then 0 else threshold - 1)))
    ensures rng.bytesRead == old(rng.bytesRead) + if r.Ok? then threshold - 1 else 0
  {
    if !ValidSplit(threshold, indices) {
      return Err(InvalidInput);
    }
    var coefficients := [secret];
    ghost var draws := rng.Upcoming(threshold - 1);
    for k := 0 to threshold - 1
      invariant rng.bytesRead == old(rng.bytesRead) + k
      invariant coefficients == [secret] + draws[..k]
    {
      var b := rng.NextByte();
      coefficients := coefficients + [b];
    }
    assert draws[..threshold - 1] == draws;
    r := Ok(EvaluateAll(coefficients, indices));
  }

  // 1 up to n.
  function ShareIndices(n: u8): (r: seq<bv8>)
    ensures |r| == n
  {
    seq(n, i requires 0 <= i < n => Byte(i + 1))
  }

  // The shares of the first n bytes, byte by byte; the first failure ends the computation.
  function SharesOfBytes(secret: Bytes, n: nat, threshold: u8, indices: seq<bv8>, draws: seq<Bytes>)
    : (r: Result<seq<seq<bv8>>>)
    requires n <= |secret| && n <= |draws|
    ensures r.Ok? ==> |r.value| == n
  {
    if n == 0 then Ok([])
    else
      var rows :- SharesOfBytes(secret, n - 1, threshold, indices, draws);
      var row :- ByteShares(secret[n - 1], threshold, indices, draws[n - 1]);
      Ok(rows + [row])
  }

  // The result of splitting for given values of the random coefficients, one row per byte.
  function Sharing(secret: Bytes, threshold: u8, numberOfShares: u8, draws: seq<Bytes>): Result<SecretSharing>
    requires |draws| == |secret|
  {
    if threshold > numberOfShares || threshold == 0 then Err(InvalidInput)
    else
      var indices := ShareIndices(numberOfShares);
      var byteShares :- SharesOfBytes(secret, |secret|, threshold, indices, draws);
      var shares :- Transpose(|secret|, byteShares);
      Ok(SecretSharing(secret, indices, shares))
  }

  // The coefficients that Split draws: threshold - 1 bytes for each byte of the secret.
  function Coefficients(bytes: nat -> bv8, from: nat, n: nat, threshold: u8): (r: seq<Bytes>)
    ensures |r| == n
  {
    TapeRows(bytes, from, n, if threshold == 0 then 0 else threshold - 1)
  }

  method Split(rng: Rng, secret: Bytes, threshold: u8, numberOfShares: u8) returns (r: Result<SecretSharing>)
    modifies rng`bytesRead
    ensures r == Sharing(secret, threshold, numberOfShares,
                         Coefficients(rng.bytes, old(rng.bytesRead), |secret|, threshold))
    ensures rng.bytesRead >= old(rng.bytesRead)
    ensures r.Ok? ==> rng.bytesRead == old(rng.bytesRead) + |secret| * (threshold - 1)
  {
    if threshold > numberOfShares || threshold == 0 {
      return Err(InvalidInput);
    }
    hide EvaluateAll, Transpose, ShareIndices, ValidSplit;
    var indices := ShareIndices(numberOfShares);
    ghost var draws := Coefficients(rng.bytes, rng.bytesRead, |secret|, threshold);
    var byteShares := [];
    for i := 0 to |secret|
      invariant SharesOfBytes(secret, i, threshold, indices, draws) == Ok(byteShares)
      invariant rng.bytesRead == old(rng.bytesRead) + i * (threshold - 1)
      invariant draws[i..] == TapeRows(rng.bytes, rng.bytesRead, |secret| - i, threshold - 1)
    {
      assert draws[i] == draws[i..][0] == rng.Upcoming(threshold - 1);
      assert draws[i + 1..] == draws[i..][1..];
      var row := SplitByte(rng, secret[i], threshold, indices);
      if row.Err? {
        FailureStays(secret, i + 1, |secret|, threshold, indices, draws);
        return Err(row.error);
      }
      byteShares := byteShares + [row.value];
      OneMoreRow(i, threshold - 1);
    }
    var shares := Transpose(|secret|, byteShares);
    if shares.Err? {
      return Err(shares.error);
    }
    r := Ok(SecretSharing(secret, indices, shares.value));
  }

  lemma OneMoreRow(i: nat, n: nat)
    ensures (i + 1) * n == i * n + n
  {}

  lemma {:induction false} FailureStays(secret: Bytes, i: nat, n: nat, threshold: u8, indices: seq<bv8>,
                                        draws: seq<Bytes>)
    requires i <= n <= |secret| && n <= |draws|
    requires SharesOfBytes(secret, i, threshold, indices, draws).Err?
    ensures SharesOfBytes(secret, n, threshold, indices, draws) == SharesOfBytes(secret, i, threshold, indices, draws)
  {
    if i < n {
      FailureStays(secret, i, n - 1, threshold, indices, draws);
    }
  }

  // ----- Reconstruction

  // The values other than x, each minus x.
  function Differences(shares: seq<ByteShare>, x: bv8): seq<bv8>
  {
    if shares == [] then []
    else
      var n := |shares| - 1;
      Differences(shares[..n], x) + (if shares[n].0 != x then [Sub(shares[n].0, x)] else [])
  }

  function Denominator(shares: seq<ByteShare>, x: bv8): bv8
  {
    Mul(x, Product(Differences(shares, x)))
  }

  lemma {:induction false} DifferencesNonzero(shares: seq<ByteShare>, x: bv8)
    ensures Product(Differences(shares, x)) != 0
  {
    hide Mul, Add;
    if shares != [] {
      var n := |shares| - 1;
      DifferencesNonzero(shares[..n], x);
      if shares[n].0 != x {
        var all := Differences(shares, x);
        assert all[..|all| - 1] == Differences(shares[..n], x);
        AddZeroMeansEqual(shares[n].0, x);
        NoZeroDivisors(Product(Differences(shares[..n], x)), Sub(shares[n].0, x));
      } else {
        assert Differences(shares, x) == Differences(shares[..n], x);
      }
    }
  }

  // No denominator is zero, so the division in CombineByte cannot fail.
  lemma DenominatorNonzero(shares: seq<ByteShare>, x: bv8)
    requires x != 0
    ensures Denominator(shares, x) != 0
  {
    hide Mul, Product;
    DifferencesNonzero(shares, x);
    NoZeroDivisors(x, Product(Differences(shares, x)));
  }

  predicate AcceptedBytes(shares: seq<ByteShare>)
  {
    && shares != []
    && AllUnique(Firsts(shares))
    && 0 !in Firsts(shares)
  }

  // The quotients of the first n shares. The program unwraps the division.
  function Quotients(shares: seq<ByteShare>, n: nat): (r: seq<bv8>)
    requires n <= |shares|
    requires forall i | 0 <= i < n :: shares[i].0 != 0
    ensures |r| == n
  {
    if n == 0 then []
    else
      var (x, y) := shares[n - 1];
      DenominatorNonzero(shares, x);
      Quotients(shares, n - 1) + [Div(y, Denominator(shares, x)).value]
  }

  // The closed formula for the value at 0 of the polynomial through the shares.
  function CombineByte(shares: seq<ByteShare>): Result<bv8>
  {
    if !AcceptedBytes(shares) then Err(InvalidInput)
    else
      IndicesNonzero(shares);
      var product := Product(Firsts(shares));
      var quotient := Sum(Quotients(shares, |shares|));
      Ok(Mul(product, quotient))
  }

  lemma IndicesNonzero(shares: seq<ByteShare>)
    requires 0 !in Firsts(shares)
    ensures forall i | 0 <= i < |shares| :: shares[i].0 != 0
  {
    forall i | 0 <= i < |shares|
      ensures shares[i].0 != 0
    {
      assert Firsts(shares)[i] != 0;
    }
  }

  predicate HaveLength(shares: seq<Share>, n: nat)
  {
    forall i | 0 <= i < |shares| :: |shares[i].1| == n
  }

  // Byte i of every share.
  function ByteRow(shares: seq<Share>, i: nat): (r: seq<ByteShare>)
    requires forall k | 0 <= k < |shares| :: i < |shares[k].1|
    ensures |r| == |shares|
  {
    seq(|shares|, k requires 0 <= k < |shares| => (shares[k].0, shares[k].1[i]))
  }

  function CombineFirst(shares: seq<Share>, n: nat): (r: Result<Bytes>)
    requires forall k | 0 <= k < |shares| :: n <= |shares[k].1|
    ensures r.Ok? ==> |r.value| == n
  {
    if n == 0 then Ok([])
    else
      var front :- CombineFirst(shares, n - 1);
      var last :- CombineByte(ByteRow(shares, n - 1));
      Ok(front + [last])
  }

  function Combine(n: nat, shares: seq<Share>): (r: Result<Bytes>)
    requires HaveLength(shares, n)
    ensures r.Ok? ==> |r.value| == n
  {
    CombineFirst(shares, n)
  }

  predicate Accepted(shares: seq<Share>)
  {
    && shares != []
    && 0 !in Firsts(shares)
    && AllUnique(Firsts(shares))
  }

  function InterpolateFirst(shares: seq<Share>, n: nat): (r: Result<seq<Poly>>)
    requires forall k | 0 <= k < |shares| :: n <= |shares[k].1|
    ensures r.Ok? ==> |r.value| == n
  {
    if n == 0 then Ok([])
    else
      var front :- InterpolateFirst(shares, n - 1);
      var last :- Polynomial.Interpolate(ByteRow(shares, n - 1));
      Ok(front + [last])
  }

  // The polynomials that the program's closure evaluates, one per byte.
  function InterpolateShares(n: nat, shares: seq<Share>): (r: Result<seq<Poly>>)
    requires HaveLength(shares, n)
    ensures r.Ok? ==> |r.value| == n
  {
    if !Accepted(shares) then Err(InvalidInput) else InterpolateFirst(shares, n)
  }

  // Calling the closure at x.
  function ValueAt(polynomials: seq<Poly>, x: bv8): (r: Bytes)
    ensures |r| == |polynomials|
  {
    seq(|polynomials|, i requires 0 <= i < |polynomials| => Evaluate(polynomials[i], x))
  }
}
