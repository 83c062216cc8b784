// Byte-string helpers of src/seal/utils.rs.
module Utils {
  import opened Bytes
  import opened Results

  // The first components of a list of pairs.
  function Firsts<A, B>(pairs: seq<(A, B)>): (r: seq<A>)
    ensures |r| == |pairs|
  {
    seq(|pairs|, i requires 0 <= i < |pairs| => pairs[i].0)
  }

  // Stops at the end of the shorter operand.
  function XorUnchecked(a: Bytes, b: Bytes): Bytes
  {
    if a == [] || b == [] then [] else [a[0] ^ b[0]] + XorUnchecked(a[1..], b[1..])
  }

  function Xor(a: Bytes, b: Bytes): (r: Bytes)
    requires |a| == |b|
    ensures |r| == |a|
  {
    XorAt(a, b);
    XorUnchecked(a, b)
  }

  lemma {:induction false} XorAt(a: Bytes, b: Bytes)
    ensures |XorUnchecked(a, b)| == if |a| < |b| then |a| else |b|
    ensures forall i | 0 <= i < |a| && i < |b| :: XorUnchecked(a, b)[i] == a[i] ^ b[i]
  {
    if a != [] && b != [] {
      XorAt(a[1..], b[1..]);
      var r := XorUnchecked(a, b);
      forall i | 0 <= i < |a| && i < |b|
        ensures r[i] == a[i] ^ b[i]
      {
        if i > 0 {
          assert r[i] == XorUnchecked(a[1..], b[1..])[i - 1];
        }
      }
    }
  }

  lemma XorBytesCancel(a: bv8, b: bv8)
    ensures (a ^ b) ^ b == a && (b ^ a) ^ b == a && b ^ (a ^ b) == a
  {}

  // Masking twice with the same key gives the text back, on whichever side the key stands.
  lemma {:induction false} XorCancels(a: Bytes, key: Bytes)
    requires |a| <= |key|
    ensures XorUnchecked(XorUnchecked(a, key), key) == a
    ensures XorUnchecked(XorUnchecked(key, a), key) == a
    ensures XorUnchecked(key, XorUnchecked(key, a)) == a
  {
    var m, w := XorUnchecked(a, key), XorUnchecked(key, a);
    XorAt(a, key);
    XorAt(key, a);
    XorAt(m, key);
    XorAt(w, key);
    XorAt(key, w);
    forall i | 0 <= i < |a|
      ensures XorUnchecked(m, key)[i] == a[i]
      ensures XorUnchecked(w, key)[i] == a[i]
      ensures XorUnchecked(key, w)[i] == a[i]
    {
      XorBytesCancel(a[i], key[i]);
    }
  }

  // Concatenations whose first parts have the same length agree part by part.
  lemma SplitsAlike(a: Bytes, b: Bytes, c: Bytes, d: Bytes)
    requires a + b == c + d && |a| == |c|
    ensures a == c && b == d
  {
    assert a == (a + b)[..|a|] && c == (c + d)[..|c|];
    assert b == (a + b)[|a|..] && d == (c + d)[|c|..];
  }

  predicate SameLengths(matrix: seq<Bytes>)
  {
    forall i | 0 <= i < |matrix| :: |matrix[i]| == |matrix[0]|
  }

  // Turns n rows of m bytes into m arrays of n bytes.
  function Transpose(n: nat, matrix: seq<Bytes>): Result<seq<Bytes>>
  {
    if |matrix| != n || matrix == [] then Err(InvalidInput)
    else if !SameLengths(matrix) then Err(InvalidInput)
    else Ok(Columns(matrix))
  }

  function Columns(matrix: seq<Bytes>): seq<Bytes>
    requires matrix != [] && SameLengths(matrix)
  {
    seq(|matrix[0]|, i requires 0 <= i < |matrix[0]| => Column(matrix, i))
  }

  function Column(matrix: seq<Bytes>, i: nat): Bytes
    requires matrix != [] && SameLengths(matrix) && i < |matrix[0]|
  {
    seq(|matrix|, row requires 0 <= row < |matrix| => matrix[row][i])
  }

  lemma TransposeWorks(n: nat, matrix: seq<Bytes>)
    ensures Transpose(n, matrix).Ok? <==> n > 0 && |matrix| == n && SameLengths(matrix)
    ensures Transpose(n, matrix).Err? ==> Transpose(n, matrix) == Err(InvalidInput)
    ensures Transpose(n, matrix).Ok? ==>
              var t := Transpose(n, matrix).value;
              && |t| == |matrix[0]|
              && (forall j | 0 <= j < |t| :: |t[j]| == n)
              && (forall i, j | 0 <= i < n && 0 <= j < |t| :: t[j][i] == matrix[i][j])
  {}

  // Transposing a matrix that has a column, twice, gives it back.
  lemma TransposeTwice(n: nat, matrix: seq<Bytes>)
    requires Transpose(n, matrix).Ok? && matrix[0] != []
    ensures Transpose(|matrix[0]|, Transpose(n, matrix).value) == Ok(matrix)
  {
    var m := |matrix[0]|;
    var t := Transpose(n, matrix).value;
    TransposeWorks(n, matrix);
    assert |t[0]| == n;
    TransposeWorks(m, t);
    var back := Transpose(m, t).value;
    forall i | 0 <= i < n
      ensures back[i] == matrix[i]
    {
      assert |back[i]| == |matrix[i]|;
      forall j | 0 <= j < m
        ensures back[i][j] == matrix[i][j]
      {
        assert back[i][j] == t[j][i];
      }
    }
    assert back == matrix;
  }
}
