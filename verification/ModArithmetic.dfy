// Sums and products modulo q.
module ModArithmetic {

  lemma RemainderIsUnique(x: int, q: nat, k: int, r: nat)
    requires 0 <= r < q && x == q * k + r
    ensures x % q == r
  {
    var d := k - x / q;
    assert q * d == x % q - r by {
      assert x == q * (x / q) + x % q;
      assert q * d == q * k - q * (x / q);
    }
    MultipleIsLarge(q, d);
  }

  lemma MultipleIsLarge(q: nat, d: int)
    ensures d >= 1 ==> q * d >= q
    ensures d <= -1 ==> q * d + q <= 0
  {}

  lemma AddMultiple(x: int, q: nat, k: int)
    requires q > 0
    ensures (x + q * k) % q == x % q
  {
    assert x + q * k == q * (x / q + k) + x % q by {
      assert q * (x / q + k) == q * (x / q) + q * k;
    }
    RemainderIsUnique(x + q * k, q, x / q + k, x % q);
  }

  lemma AddMod(x: int, y: int, q: nat)
    requires q > 0
    ensures (x % q + y) % q == (x + y) % q
  {
    assert x + y == (x % q + y) + q * (x / q);
    AddMultiple(x % q + y, q, x / q);
  }

  lemma MulMod(x: int, y: int, q: nat)
    requires q > 0
    ensures (x % q * y) % q == (x * y) % q
  {
    var k := x / q;
    assert x * y == x % q * y + q * (k * y) by {
      assert x == q * k + x % q;
      assert (q * k) * y == q * (k * y);
      assert x * y == (q * k) * y + x % q * y;
    }
    AddMultiple(x % q * y, q, k * y);
  }

  // y copies of x added up modulo q.
  function TimesMod(x: nat, y: nat, q: nat): (r: nat)
    requires q > 0
    ensures r < q
    decreases y
  {
    if y == 0 then 0 else (TimesMod(x, y - 1, q) + x) % q
  }

  lemma OneMoreCopy(x: nat, y: nat, before: nat, q: nat)
    requires q > 0 && y != 0 && before == (x * (y - 1)) % q
    ensures (before + x) % q == (x * y) % q
  {
    var z := x * (y - 1);
    assert z + x == x * y;
    AddMod(z, x, q);
  }

  lemma {:induction false} TimesModIsProduct(x: nat, y: nat, q: nat)
    requires q > 0
    ensures TimesMod(x, y, q) == (x * y) % q
    decreases y
  {
    if y != 0 {
      TimesModIsProduct(x, y - 1, q);
      OneMoreCopy(x, y, TimesMod(x, y - 1, q), q);
    }
  }

  lemma SmallMod(x: nat, q: nat)
    requires x < q
    ensures x % q == x
  {}
}
