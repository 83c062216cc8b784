// The laws of the field of 256 elements, and the equality of the table arithmetic with it.
module GF256Laws {
  import opened Results
  import opened GF256
  import opened GF256Sums
  import Proofs = GF256TableProofs
  import Tables = GF256Tables

  // ----- The table arithmetic of src/seal/gf256.rs is the arithmetic of the field

  lemma TableMulIsMul(a: bv8, b: bv8)
    ensures Tables.Mul(a, b) == Mul(a, b)
  {
    Proofs.MulIsFieldMul(a, b);
  }

  // Division fails exactly on a zero divisor and is multiplication by the inverse otherwise.
  lemma TableDivIsDiv(a: bv8, b: bv8)
    ensures Tables.Div(a, b) == Div(a, b)
  {
    hide Tables.Mul, Mul, Inverse;
    if b != 0 {
      Proofs.DivUndoesMul(a, b);
      hide Tables.Div;
      var q := Tables.Div(a, b).value;
      TableMulIsMul(q, b);
      MulAssociates(q, b, Inverse(b));
      InverseWorks(b);
      MulOne(q);
    }
  }

  // ----- Field laws

  lemma MulCommutes(a: bv8, b: bv8)
    ensures Mul(a, b) == Mul(b, a)
  {
    hide Tables.Mul, Mul;
    Proofs.MulCommutes(a, b);
    TableMulIsMul(a, b);
    TableMulIsMul(b, a);
  }

  lemma MulDistributes(a: bv8, b: bv8, c: bv8)
    ensures Mul(a, Add(b, c)) == Add(Mul(a, b), Mul(a, c))
    ensures Mul(Add(b, c), a) == Add(Mul(b, a), Mul(c, a))
  {
    hide Tables.Mul, Mul, Add;
    Proofs.MulDistributes(a, b, c);
    TableMulIsMul(a, Add(b, c));
    TableMulIsMul(a, b);
    TableMulIsMul(a, c);
    MulCommutes(a, Add(b, c));
    MulCommutes(a, b);
    MulCommutes(a, c);
  }

  lemma MulAssociates(a: bv8, b: bv8, c: bv8)
    ensures Mul(Mul(a, b), c) == Mul(a, Mul(b, c))
  {
    hide Tables.Mul, Mul;
    Proofs.MulAssociates(a, b, c);
    TableMulIsMul(a, b);
    TableMulIsMul(b, c);
    TableMulIsMul(Mul(a, b), c);
    TableMulIsMul(a, Mul(b, c));
  }

  lemma MulOne(a: bv8)
    ensures Mul(1, a) == a && Mul(a, 1) == a
  {
    hide Tables.Mul, Mul;
    Proofs.MulOne(a);
    TableMulIsMul(1, a);
    TableMulIsMul(a, 1);
  }

  lemma MulZero(a: bv8)
    ensures Mul(0, a) == 0 && Mul(a, 0) == 0
  {
    MulCommutes(0, a);
  }

  lemma InverseWorks(a: bv8)
    requires a != 0
    ensures Mul(a, Inverse(a)) == 1 && Inverse(a) != 0
  {
    hide Mul;
    Proofs.Power255(a);
    assert Power(a, 255) == Mul(a, Power(a, 254));
    MulZero(a);
  }

  lemma NoZeroDivisors(a: bv8, b: bv8)
    ensures Mul(a, b) == 0 <==> a == 0 || b == 0
  {
    hide Mul, Inverse;
    if a != 0 && Mul(a, b) == 0 {
      InverseWorks(a);
      MulAssociates(Inverse(a), a, b);
      MulCommutes(a, Inverse(a));
      MulZero(Inverse(a));
      MulOne(b);
    }
    MulZero(a);
    MulZero(b);
  }

  lemma InverseIsUnique(a: bv8, b: bv8)
    requires Mul(a, b) == 1
    ensures a != 0 && b == Inverse(a)
  {
    hide Mul, Inverse;
    MulZero(b);
    InverseWorks(a);
    MulAssociates(Inverse(a), a, b);
    MulCommutes(a, Inverse(a));
    MulOne(b);
    MulOne(Inverse(a));
  }

  // Div undoes Mul.
  lemma DivUndoesMul(a: bv8, b: bv8)
    requires b != 0
    ensures Div(Mul(a, b), b) == Ok(a)
  {
    hide Mul, Inverse;
    MulAssociates(a, b, Inverse(b));
    InverseWorks(b);
    MulOne(a);
  }

  // ----- Rearrangements used by the layers above

  lemma MulSwapsMiddle(a: bv8, b: bv8, c: bv8)
    ensures Mul(Mul(a, b), c) == Mul(Mul(a, c), b)
  {
    hide Mul;
    MulAssociates(a, b, c);
    MulCommutes(b, c);
    MulAssociates(a, c, b);
  }
}
