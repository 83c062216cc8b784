// ElGamal encryption of a group element (src/seal/elgamal.rs), as the key servers encrypt user
// secret keys. The scalars drawn from the generator are parameters.
module ElGamal {
  import opened Groups
  import opened ModArithmetic

  datatype Encryption = Encryption(e0: G1, e1: G1)
  datatype KeyPair = KeyPair(sk: nat, pk: G1, vk: G2)

  function GenKey(q: Order, sk: nat): KeyPair
  {
    KeyPair(sk, G1Mul(q, G1Generator(q), sk), G2Mul(q, G2Generator(q), sk))
  }

  function Encrypt(q: Order, r: nat, msg: G1, pk: G1): Encryption
  {
    Encryption(G1Mul(q, G1Generator(q), r), G1Add(q, G1Mul(q, pk, r), msg))
  }

  function Decrypt(q: Order, sk: nat, e: Encryption): G1
  {
    G1Sub(q, e.e1, G1Mul(q, e.e0, sk))
  }

  // Decryption with the matching key recovers every message.
  lemma DecryptUndoesEncrypt(q: Order, sk: nat, r: nat, msg: G1)
    requires InG1(q, msg)
    ensures Decrypt(q, sk, Encrypt(q, r, msg, GenKey(q, sk).pk)) == msg
  {
    hide TimesMod;
    GeneratorMul(q, sk);
    GeneratorMul(q, r);
    var mask := (sk * r) % q;
    TimesModIsProduct(sk % q, r, q);
    TimesModIsProduct(r % q, sk, q);
    MulMod(sk, r, q);
    MulMod(r, sk, q);
    assert r * sk == sk * r;
    MaskCancels(q, mask, msg.exponent);
  }

  // The first component commits to the drawn scalar, and the second is the message masked by the
  // scalar times the secret key.
  lemma EncryptionIsMasked(q: Order, sk: nat, r: nat, msg: G1)
    ensures var e := Encrypt(q, r, msg, GenKey(q, sk).pk);
            e.e0 == G1(r % q) && e.e1 == G1((sk * r + msg.exponent) % q)
  {
    hide TimesMod;
    GeneratorMul(q, sk);
    GeneratorMul(q, r);
    TimesModIsProduct(sk % q, r, q);
    MulMod(sk, r, q);
    AddMod(sk * r, msg.exponent, q);
  }

  lemma MaskCancels(q: Order, mask: int, m: int)
    requires 0 <= m < q
    ensures ((mask + m) % q - mask) % q == m
  {
    AddMod(mask + m, -mask, q);
    assert mask + m + -mask == m;
    SmallMod(m, q);
  }
}
