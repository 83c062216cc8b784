// The tables of src/seal/gf256.rs compute the field product and the field quotient. EXP holds
// the powers of 3 and LOG inverts it, so multiplying by a nonzero `a` is multiplying by 3 as
// many times as Log(a) says, and that is a linear map.
module GF256TableProofs {
  import opened Bytes
  import opened Results
  import opened GF256Tables
  import GF256
  import opened GF256Sums

  // ----- The two tables

  function Times3(a: bv8): bv8
  {
    GF256.Xtime(a) ^ a
  }

  lemma LogInRange(x: bv8)
    requires x != 0
    ensures LOG(x - 1) < 255
  {}

  lemma ExpNonzero(i: bv8)
    requires i < 255
    ensures EXP(i) != 0
  {}

  // Every nonzero byte is the power its logarithm says.
  lemma ExpOfLog(x: bv8)
    requires x != 0 && LOG(x - 1) < 255
    ensures EXP(LOG(x - 1)) == x
  {}

  lemma LogOfNextPower(i: bv8)
    requires i < 254 && Times3(EXP(i)) != 0
    ensures LOG(Times3(EXP(i)) - 1) == i + 1
  {}

  lemma ExpEnds()
    ensures EXP(0) == 1 && Times3(EXP(254)) == EXP(0)
  {}

  lemma ExpNext(i: bv8)
    requires i < 254
    ensures EXP(i + 1) == Times3(EXP(i))
  {
    hide EXP, LOG;
    ExpNonzero(i);
    LogOfNextPower(i);
    LogInRange(Times3(EXP(i)));
    ExpOfLog(Times3(EXP(i)));
  }

  // ----- Exponents

  lemma ExpStep(n: u16)
    requires n < 0xffff
    ensures Exp(n + 1) == Times3(Exp(n))
  {
    hide EXP, Times3;
    var i := n as nat % 255;
    if i == 254 {
      assert (n + 1) as nat % 255 == 0;
      BoundaryBytes();
      ExpEnds();
    } else {
      assert (n + 1) as nat % 255 == i + 1;
      ByteBound(i);
      ByteBound(i + 1);
      assert Byte(i + 1) == Byte(i) + 1;
      ExpNext(Byte(i));
    }
  }

  lemma BoundaryBytes()
    ensures Byte(0) == 0 && Byte(254) == 254
  {
    ByteOfValue(254);
  }

  function Times3Repeated(n: nat, x: bv8): bv8
  {
    if n == 0 then x else Times3(Times3Repeated(n - 1, x))
  }

  // Exp is periodic exponentiation: the reduction of the exponent modulo 255 is invisible.
  lemma {:induction false} ExpIsRepeatedTimes3(n: nat)
    requires n < 0x1_0000
    ensures Exp(n as u16) == Times3Repeated(n, 1)
  {
    hide Times3;
    if n == 0 {
      ExpEnds();
    } else {
      hide Exp;
      ExpIsRepeatedTimes3(n - 1);
      ExpStep((n - 1) as u16);
    }
  }

  lemma XtimeLinear(x: bv8, y: bv8)
    ensures GF256.Xtime(x ^ y) == GF256.Xtime(x) ^ GF256.Xtime(y)
  {
    assert (x ^ y) << 1 == (x << 1) ^ (y << 1);
    if x & 0x80 != 0 {
      if y & 0x80 != 0 {} else {}
    } else {
      if y & 0x80 != 0 {} else {}
    }
  }

  lemma Times3Linear(x: bv8, y: bv8)
    ensures Times3(GF256.Add(x, y)) == GF256.Add(Times3(x), Times3(y))
  {
    hide GF256.Xtime;
    XtimeLinear(x, y);
  }

  lemma {:induction false} Times3RepeatedLinear(n: nat, x: bv8, y: bv8)
    ensures Times3Repeated(n, GF256.Add(x, y)) == GF256.Add(Times3Repeated(n, x), Times3Repeated(n, y))
  {
    hide Times3, GF256.Add;
    if n != 0 {
      Times3RepeatedLinear(n - 1, x, y);
      Times3Linear(Times3Repeated(n - 1, x), Times3Repeated(n - 1, y));
    }
  }

  lemma {:induction false} Times3RepeatedZero(n: nat)
    ensures Times3Repeated(n, 0) == 0
  {
    if n != 0 {
      Times3RepeatedZero(n - 1);
    }
  }

  lemma {:induction false} Times3RepeatedSum(n: nat, m: nat, x: bv8)
    ensures Times3Repeated(n, Times3Repeated(m, x)) == Times3Repeated(n + m, x)
  {
    hide Times3;
    if n != 0 {
      Times3RepeatedSum(n - 1, m, x);
    }
  }

  lemma ValueBelow255(b: bv8)
    requires b < 255
    ensures Value(b) < 255
  {}

  lemma ExpOfLogIsIdentity(x: bv8)
    requires x != 0
    ensures Log(x) < 255 && Exp(Log(x)) == x
  {
    hide EXP, LOG, Byte, Value;
    LogInRange(x);
    ExpOfLog(x);
    ValueBelow255(LOG(x - 1));
    ByteOfValue(LOG(x - 1));
  }

  lemma MulIsTimes3Repeated(a: bv8, b: bv8)
    requires a != 0
    ensures Mul(a, b) == Times3Repeated(Log(a) as nat, b)
  {
    hide Exp, Log, Times3Repeated;
    if b == 0 {
      Times3RepeatedZero(Log(a) as nat);
    } else {
      var n, m := Log(a) as nat, Log(b) as nat;
      ExpIsRepeatedTimes3(n + m);
      ExpIsRepeatedTimes3(m);
      ExpOfLogIsIdentity(b);
      Times3RepeatedSum(n, m, 1);
    }
  }

  // ----- The laws of the table product

  lemma MulCommutes(a: bv8, b: bv8)
    ensures Mul(a, b) == Mul(b, a)
  {
    hide Exp, Log;
    if a != 0 && b != 0 {
      assert Log(a) + Log(b) == Log(b) + Log(a);
    }
  }

  lemma MulDistributes(a: bv8, b: bv8, c: bv8)
    ensures Mul(a, GF256.Add(b, c)) == GF256.Add(Mul(a, b), Mul(a, c))
  {
    hide GF256.Add, Mul, Exp, Log, Times3Repeated;
    if a == 0 {
      MulZero(b);
      MulZero(c);
      MulZero(GF256.Add(b, c));
      AddIsGroup(0, 0, 0);
    } else {
      MulIsTimes3Repeated(a, b);
      MulIsTimes3Repeated(a, c);
      MulIsTimes3Repeated(a, GF256.Add(b, c));
      Times3RepeatedLinear(Log(a) as nat, b, c);
    }
  }

  lemma MulSwaps(a: bv8, b: bv8, c: bv8)
    requires a != 0 && b != 0
    ensures Mul(a, Mul(b, c)) == Mul(b, Mul(a, c))
  {
    hide Mul, Exp, Log, Times3Repeated;
    var n, m := Log(a) as nat, Log(b) as nat;
    MulIsTimes3Repeated(b, c);
    MulIsTimes3Repeated(a, Mul(b, c));
    MulIsTimes3Repeated(a, c);
    MulIsTimes3Repeated(b, Mul(a, c));
    Times3RepeatedSum(n, m, c);
    Times3RepeatedSum(m, n, c);
    assert n + m == m + n;
  }

  lemma MulAssociates(a: bv8, b: bv8, c: bv8)
    ensures Mul(Mul(a, b), c) == Mul(a, Mul(b, c))
  {
    hide Exp, Log;
    if a != 0 && c != 0 {
      hide Mul;
      MulCommutes(Mul(a, b), c);
      MulSwaps(c, a, b);
      MulCommutes(c, b);
    }
  }

  lemma MulOne(a: bv8)
    ensures Mul(1, a) == a && Mul(a, 1) == a
  {
    hide Exp, LOG;
    MulCommutes(1, a);
    LogOfOne();
    if a != 0 {
      ExpOfLogIsIdentity(a);
    }
  }

  lemma LogOfOne()
    ensures Log(1) == 0
  {}

  lemma MulZero(a: bv8)
    ensures Mul(0, a) == 0 && Mul(a, 0) == 0
  {
    hide Exp, Log;
  }

  // The quotient times the divisor gives the dividend back.
  lemma DivUndoesMul(a: bv8, b: bv8)
    requires b != 0
    ensures Div(a, b).Ok? && Mul(Div(a, b).value, b) == a
  {
    hide Exp, Log, Times3Repeated;
    if a == 0 {
      MulZero(b);
    } else {
      var n, m := Log(a), Log(b);
      ExpOfLogIsIdentity(a);
      var q := Exp(255 + n - m);
      MulCommutes(q, b);
      MulIsTimes3Repeated(b, q);
      ExpIsRepeatedTimes3((255 + n - m) as nat);
      Times3RepeatedSum(m as nat, (255 + n - m) as nat, 1);
      ExpIsRepeatedTimes3((255 + n) as nat);
      ExpPeriod(n);
    }
  }

  lemma ExpPeriod(n: u16)
    requires n < 255
    ensures Exp(255 + n) == Exp(n)
  {
    hide EXP, Byte;
  }

  // ----- The table product is the field product

  lemma MulByTwo(a: bv8)
    ensures Mul(a, 2) == GF256.Xtime(a)
  {
    hide EXP, Exp, GF256.Xtime;
    LogOfThree();
    if a == 0 {
      XtimeZero();
    } else {
      hide Mul, Log, Times3Repeated, GF256.Add, Times3;
      MulCommutes(3, a);
      MulIsTimes3Repeated(3, a);
      OneTimes3(a);
      MulOne(a);
      MulDistributes(a, 3, 1);
      ThreePlusOne(a);
    }
  }

  lemma XtimeZero()
    ensures GF256.Xtime(0) == 0
  {}

  lemma LogOfThree()
    ensures Log(3) == 1
  {}

  lemma OneTimes3(a: bv8)
    ensures Times3Repeated(1, a) == Times3(a)
  {
    hide Times3;
    assert Times3Repeated(0, a) == a;
  }

  lemma ThreePlusOne(a: bv8)
    ensures GF256.Add(3, 1) == 2 && GF256.Add(Times3(a), a) == GF256.Xtime(a)
  {
    hide GF256.Xtime;
  }

  lemma {:induction false} MulIsFieldMul(a: bv8, b: bv8)
    ensures Mul(a, b) == GF256.Mul(a, b)
    decreases b
  {
    hide Mul, GF256.Xtime, GF256.Add;
    if b == 0 {
      MulZero(a);
    } else {
      var low, high := b & 1, b >> 1;
      LowAndHighBits(b);
      MulDistributes(a, low, Mul(high, 2));
      MulByTwo(high);
      MulIsFieldMul(GF256.Xtime(a), high);
      MulCommutes(high, 2);
      MulAssociates(a, 2, high);
      MulByTwo(a);
      MulZero(a);
      MulOne(a);
    }
  }

  lemma LowAndHighBits(b: bv8)
    ensures b == GF256.Add(b & 1, GF256.Xtime(b >> 1))
    ensures b & 1 == 0 || b & 1 == 1
  {}

  // ----- Powers: every nonzero element has order dividing 255

  lemma {:induction false} PowerByLog(a: bv8, n: nat)
    requires a != 0
    ensures GF256.Power(a, n) == Times3Repeated(n * Log(a) as nat, 1)
  {
    hide Mul, GF256.Mul, Log, Times3;
    var l := Log(a) as nat;
    if n != 0 {
      PowerByLog(a, n - 1);
      MulIsFieldMul(a, GF256.Power(a, n - 1));
      MulIsTimes3Repeated(a, GF256.Power(a, n - 1));
      Times3RepeatedSum(l, (n - 1) * l, 1);
      assert l + (n - 1) * l == n * l;
    }
  }

  lemma {:induction false} Times3RepeatedPeriod(k: nat)
    ensures Times3Repeated(255 * k, 1) == 1
  {
    hide Times3, Exp;
    if k != 0 {
      Times3RepeatedPeriod(k - 1);
      Times3RepeatedSum(255 * (k - 1), 255, 1);
      ExpIsRepeatedTimes3(255);
      ExpPeriod(0);
      ExpIsRepeatedTimes3(0);
    }
  }

  lemma Power255(a: bv8)
    requires a != 0
    ensures GF256.Power(a, 255) == 1
  {
    hide GF256.Power, Log, Times3Repeated;
    PowerByLog(a, 255);
    Times3RepeatedPeriod(Log(a) as nat);
  }
}
