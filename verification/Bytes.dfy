// Byte values and the machine integers that become bytes.
module Bytes {

  type u8 = n: nat | n < 256

  type Bytes = seq<bv8>

  // The number that a byte stands for.
  function Value(b: bv8): (n: nat)
    ensures n < 256
  {
    b as nat
  }

  // A number below 256 as a byte, counting up from zero. This is the conversion of the program (see
  // ByteIsConversion), defined without mixing integers and bit-vectors.
  function Byte(n: nat): bv8
    requires n < 256
  {
    if n == 0 then 0 else Byte(n - 1) + 1
  }

  lemma NextValue(b: bv8)
    requires b != 255
    ensures Value(b + 1) == Value(b) + 1
  {}

  lemma {:induction false} ValueOfByte(n: nat)
    requires n < 256
    ensures Value(Byte(n)) == n
  {
    if n != 0 {
      ValueOfByte(n - 1);
      assert Value(255) == 255;
      NextValue(Byte(n - 1));
    }
  }

  lemma {:induction false} ByteOfValue(b: bv8)
    ensures Byte(Value(b)) == b
    decreases b
  {
    if b != 0 {
      ByteOfValue(b - 1);
      NextValue(b - 1);
    }
  }

  lemma ByteIsConversion(n: nat)
    requires n < 256
    ensures Byte(n) == n as bv8
  {
    ValueOfByte(n);
    ConvertedTwice(Byte(n));
  }

  lemma ConvertedTwice(b: bv8)
    ensures (b as nat) as bv8 == b
  {}

  lemma ByteBound(n: nat)
    requires n < 255
    ensures Byte(n) < 255
  {
    ValueOfByte(n);
    assert Value(255) == 255;
  }

  lemma ByteInjective(n: nat, m: nat)
    requires n < 256 && m < 256 && Byte(n) == Byte(m)
    ensures n == m
  {
    ValueOfByte(n);
    ValueOfByte(m);
  }
}
