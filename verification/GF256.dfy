// The field of 256 elements used for secret sharing (src/seal/gf256.rs). An element is its byte.
// Multiplication is the product of section 4.2 of FIPS 197. The program computes it, and
// division, through the tables of GF256Tables; GF256Laws proves the two forms equal.
module GF256 {
  import opened Results

  function Add(a: bv8, b: bv8): bv8
  {
    a ^ b
  }

  function Sub(a: bv8, b: bv8): bv8
  {
    Add(a, b)
  }

  function Neg(a: bv8): bv8
  {
    Sub(0, a)
  }

  // The byte times x, reduced by x^8 + x^4 + x^3 + x + 1 (section 4.2.1 of FIPS 197).
  function Xtime(a: bv8): bv8
  {
    (a << 1) ^ (if a & 0x80 != 0 then 0x1b else 0)
  }

  // Each bit of b selects a copy of a that has been multiplied by x once per bit position.
  function Mul(a: bv8, b: bv8): bv8
    decreases b
  {
    if b == 0 then 0
    else Add(if b & 1 != 0 then a else 0, Mul(Xtime(a), b >> 1))
  }

  function Power(a: bv8, n: nat): bv8
  {
    if n == 0 then 1 else Mul(a, Power(a, n - 1))
  }

  // In a field of 256 elements the inverse of a nonzero element is its 254th power.
  function Inverse(a: bv8): bv8
  {
    Power(a, 254)
  }

  function Div(a: bv8, b: bv8): Result<bv8>
  {
    if b == 0 then Err(InvalidInput) else Ok(Mul(a, Inverse(b)))
  }

  // Left folds, as iterators are consumed from the front.
  function Product(factors: seq<bv8>): bv8
  {
    if factors == [] then 1 else Mul(Product(factors[..|factors| - 1]), factors[|factors| - 1])
  }

  function Sum(terms: seq<bv8>): bv8
  {
    if terms == [] then 0 else Add(Sum(terms[..|terms| - 1]), terms[|terms| - 1])
  }
}
