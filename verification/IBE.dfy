// Boneh-Franklin identity-based encryption of 32-byte messages (src/seal/ibe.rs).
module IBE {
  import opened Bytes
  import opened Results
  import opened Groups
  import opened ModArithmetic
  import opened Primitives
  import opened Utils
  import ElGamal

  // The object id of a key server and the index of the share it protects.
  type Info = (Key, bv8)

  function DstId(): Bytes
  {
    Ascii("SUI-SEAL-IBE-BLS12381-00")
  }

  function DstKdf(): Bytes
  {
    Ascii("SUI-SEAL-IBE-BLS12381-H2-00")
  }

  function PublicKeyFromMasterKey(p: Primitives, masterKey: nat): G2
  {
    G2Mul(p.q, G2Generator(p.q), masterKey)
  }

  function HashToG1(p: Primitives, id: Bytes): G1
  {
    p.hashToGroup(DstId() + id)
  }

  function Extract(p: Primitives, masterKey: nat, id: Bytes): G1
  {
    G1Mul(p.q, HashToG1(p, id), masterKey)
  }

  function VerifyUserSecretKey(p: Primitives, userSecretKey: G1, id: Bytes, publicKey: G2): Result<()>
  {
    if Pairing(p.q, userSecretKey, G2Generator(p.q)) == Pairing(p.q, HashToG1(p, id), publicKey) then Ok(())
    else Err(InvalidInput)
  }

  function VerifyEncryptedSignature(p: Primitives, signature: ElGamal.Encryption, ephemeralVk: G2,
                                    partialPk: G2, id: Bytes): Result<()>
  {
    if signature.e0 == G1Zero() || signature.e1 == G1Zero() || ephemeralVk == G2Zero() || partialPk == G2Zero() then
      Err(InvalidInput)
    else
      var lhs := Pairing(p.q, signature.e1, G2Generator(p.q));
      var rhs := GTAdd(p.q, Pairing(p.q, signature.e0, ephemeralVk), Pairing(p.q, HashToG1(p, id), partialPk));
      if lhs == rhs then Ok(()) else Err(InvalidInput)
  }

  function KdfInput(p: Primitives, input: GT, nonce: G2, gid: G1, info: Info): Bytes
  {
    DstKdf() + p.gtBytes(input) + p.g2Bytes(nonce) + p.g1Bytes(gid) + info.0 + [info.1]
  }

  function Kdf(p: Primitives, input: GT, nonce: G2, gid: G1, info: Info): Key
  {
    p.sha3(KdfInput(p, input, nonce, gid, info))
  }

  // The program feeds the fields to an incremental hash.
  method ComputeKdf(p: Primitives, input: GT, nonce: G2, gid: G1, info: Info) returns (key: Key)
    ensures key == Kdf(p, input, nonce, gid, info)
  {
    var hash := new Hasher(p);
    hash.Update(DstKdf());
    hash.Update(p.gtBytes(input));
    hash.Update(p.g2Bytes(nonce));
    hash.Update(p.g1Bytes(gid));
    hash.Update(info.0);
    hash.Update([info.1]);
    assert hash.absorbed == KdfInput(p, input, nonce, gid, info);
    key := hash.Finalize();
  }

  // Encrypts plaintext i to public key i, all under one nonce.
  function EncryptBatchedDeterministic(p: Primitives, randomness: nat, plaintexts: seq<Key>, publicKeys: seq<G2>,
                                       id: Bytes, infos: seq<Info>): Result<(G2, seq<Key>)>
  {
    if |plaintexts| != |publicKeys| || |plaintexts| != |infos| then Err(InvalidInput)
    else
      var gid := HashToG1(p, id);
      var gidR := G1Mul(p.q, gid, randomness);
      var nonce := G2Mul(p.q, G2Generator(p.q), randomness);
      Ok((nonce, seq(|plaintexts|, i requires 0 <= i < |plaintexts| =>
        Xor(Kdf(p, Pairing(p.q, gidR, publicKeys[i]), nonce, gid, infos[i]), plaintexts[i]))))
  }

  function Decrypt(p: Primitives, nonce: G2, ciphertext: Key, secretKey: G1, id: Bytes, info: Info): Key
  {
    var gid := HashToG1(p, id);
    Xor(ciphertext, Kdf(p, Pairing(p.q, secretKey, nonce), nonce, gid, info))
  }

  function VerifyNonce(p: Primitives, randomness: nat, nonce: G2): Result<()>
  {
    if G2Mul(p.q, G2Generator(p.q), randomness) != nonce then Err(GeneralError("Invalid randomness")) else Ok(())
  }

  function DecryptDeterministic(p: Primitives, randomness: nat, ciphertext: Key, publicKey: G2, id: Bytes,
                                info: Info): Result<Key>
  {
    var gid := HashToG1(p, id);
    var gidR := G1Mul(p.q, gid, randomness);
    var nonce := G2Mul(p.q, G2Generator(p.q), randomness);
    Ok(Xor(ciphertext, Kdf(p, Pairing(p.q, gidR, publicKey), nonce, gid, info)))
  }

  function EncryptRandomness(p: Primitives, randomness: nat, key: Key): Key
  {
    Xor(key, p.scalarBytes(randomness))
  }

  function DecryptRandomness(p: Primitives, encryptedRandomness: Key, derivedKey: Key): Result<nat>
  {
    p.scalarFromBytes(Xor(derivedKey, encryptedRandomness))
  }

  // ----- What the pairing equations give

  // A key passes verification exactly when it is the identity's point times the public key's
  // exponent; a key extracted with the master key is the only one for its public key.
  lemma VerifiedMeansExtracted(p: Primitives, userSecretKey: G1, id: Bytes, masterKey: nat)
    requires InG1(p.q, userSecretKey)
    ensures VerifyUserSecretKey(p, userSecretKey, id, PublicKeyFromMasterKey(p, masterKey)).Ok? <==>
            userSecretKey == Extract(p, masterKey, id)
    ensures userSecretKey != Extract(p, masterKey, id) ==>
              VerifyUserSecretKey(p, userSecretKey, id, PublicKeyFromMasterKey(p, masterKey)) == Err(InvalidInput)
  {
    hide G2Generator, HashToG1, Pairing, G1Mul, G2Mul;
    GeneratorPairing(p.q, userSecretKey);
    PairingWithPublicKey(p, HashToG1(p, id), masterKey);
    SmallMod(userSecretKey.exponent, p.q);
  }

  lemma PairingWithPublicKey(p: Primitives, h: G1, masterKey: nat)
    ensures Pairing(p.q, h, PublicKeyFromMasterKey(p, masterKey)) == GT(G1Mul(p.q, h, masterKey).exponent)
  {
    hide G2Generator, TimesMod;
    GeneratorMul(p.q, masterKey);
    TimesModIsProduct(h.exponent, masterKey, p.q);
    TimesModIsProduct(h.exponent, masterKey % p.q, p.q);
    MulMod(masterKey, h.exponent, p.q);
    assert h.exponent * (masterKey % p.q) == masterKey % p.q * h.exponent;
    assert h.exponent * masterKey == masterKey * h.exponent;
  }

  // The mask that a verified key computes from the nonce is the mask of the encryption.
  lemma VerifiedKeyPairsLikeSender(p: Primitives, userSecretKey: G1, id: Bytes, publicKey: G2, randomness: nat)
    requires VerifyUserSecretKey(p, userSecretKey, id, publicKey).Ok?
    ensures Pairing(p.q, userSecretKey, G2Mul(p.q, G2Generator(p.q), randomness)) ==
            Pairing(p.q, G1Mul(p.q, HashToG1(p, id), randomness), publicKey)
  {
    hide G2Generator, HashToG1, Pairing, G1Mul, G2Mul;
    Bilinear(p.q, userSecretKey, G2Generator(p.q), randomness);
    Bilinear(p.q, HashToG1(p, id), publicKey, randomness);
  }

  // A verified key decrypts every ciphertext exactly as someone who knows the randomness does.
  lemma VerifiedKeyDecryptsDeterministically(p: Primitives, randomness: nat, nonce: G2, ciphertext: Key,
                                             userSecretKey: G1, publicKey: G2, id: Bytes, info: Info)
    requires VerifyUserSecretKey(p, userSecretKey, id, publicKey).Ok?
    requires VerifyNonce(p, randomness, nonce).Ok?
    ensures DecryptDeterministic(p, randomness, ciphertext, publicKey, id, info) ==
            Ok(Decrypt(p, nonce, ciphertext, userSecretKey, id, info))
  {
    hide G2Generator, HashToG1, Pairing, G1Mul, G2Mul, Kdf;
    VerifiedKeyPairsLikeSender(p, userSecretKey, id, publicKey, randomness);
  }

  // Batch encryption succeeds exactly for as many public keys and infos as plaintexts, and the nonce
  // is the generator times the randomness.
  lemma BatchSucceeds(p: Primitives, randomness: nat, plaintexts: seq<Key>, publicKeys: seq<G2>, id: Bytes,
                      infos: seq<Info>)
    ensures var batch := EncryptBatchedDeterministic(p, randomness, plaintexts, publicKeys, id, infos);
            if |plaintexts| == |publicKeys| == |infos| then
              batch.Ok? && batch.value.0 == G2(randomness % p.q) && |batch.value.1| == |plaintexts|
            else batch == Err(InvalidInput)
  {
    hide Kdf, Pairing, HashToG1, G1Mul, XorUnchecked, G2Generator, G2Mul;
    GeneratorMul(p.q, randomness);
  }

  // A verified key recovers every plaintext encrypted to its public key, identity and info.
  lemma VerifiedKeyDecrypts(p: Primitives, randomness: nat, plaintexts: seq<Key>, publicKeys: seq<G2>, id: Bytes,
                            infos: seq<Info>, i: nat, userSecretKey: G1)
    requires |plaintexts| == |publicKeys| == |infos| && i < |plaintexts|
    requires VerifyUserSecretKey(p, userSecretKey, id, publicKeys[i]).Ok?
    ensures EncryptBatchedDeterministic(p, randomness, plaintexts, publicKeys, id, infos).Ok?
    ensures var (nonce, ciphertexts) :=
              EncryptBatchedDeterministic(p, randomness, plaintexts, publicKeys, id, infos).value;
            && |ciphertexts| == |plaintexts|
            && Decrypt(p, nonce, ciphertexts[i], userSecretKey, id, infos[i]) == plaintexts[i]
  {
    hide G2Generator, HashToG1, Pairing, G1Mul, G2Mul, Kdf, XorUnchecked;
    VerifiedKeyPairsLikeSender(p, userSecretKey, id, publicKeys[i], randomness);
    var gid := HashToG1(p, id);
    var nonce := G2Mul(p.q, G2Generator(p.q), randomness);
    var mask := Kdf(p, Pairing(p.q, G1Mul(p.q, gid, randomness), publicKeys[i]), nonce, gid, infos[i]);
    XorCancels(plaintexts[i], mask);
  }

  // The check on an encrypted key accepts exactly when no component is the identity element and
  // the key decrypted with the ephemeral secret passes verification.
  lemma EncryptedSignatureMeansVerifiedKey(p: Primitives, signature: ElGamal.Encryption, sk: nat, partialPk: G2,
                                           id: Bytes)
    ensures VerifyEncryptedSignature(p, signature, ElGamal.GenKey(p.q, sk).vk, partialPk, id).Ok? <==>
            && signature.e0 != G1Zero() && signature.e1 != G1Zero()
            && sk % p.q != 0 && partialPk != G2Zero()
            && VerifyUserSecretKey(p, ElGamal.Decrypt(p.q, sk, signature), id, partialPk).Ok?
    ensures VerifyEncryptedSignature(p, signature, ElGamal.GenKey(p.q, sk).vk, partialPk, id).Err? ==>
              VerifyEncryptedSignature(p, signature, ElGamal.GenKey(p.q, sk).vk, partialPk, id) == Err(InvalidInput)
  {
    hide G2Generator, HashToG1, Pairing, G1Mul, G2Mul;
    var q, h := p.q, HashToG1(p, id);
    var key := ElGamal.Decrypt(q, sk, signature);
    var mask, target := G1Mul(q, signature.e0, sk).exponent, Pairing(q, h, partialPk).exponent;
    GeneratorMul(q, sk);
    GeneratorPairing(q, signature.e1);
    GeneratorPairing(q, key);
    PairingWithPublicKey(p, signature.e0, sk);
    ResultsAreReduced(q, signature.e0, sk, h, partialPk);
    SumMeansDifference(q, signature.e1.exponent, mask, target);
    SmallMod(key.exponent, q);
  }

  lemma ResultsAreReduced(q: Order, a: G1, s: nat, b: G1, c: G2)
    ensures G1Mul(q, a, s).exponent < q && Pairing(q, b, c).exponent < q
  {}

  // b = mask + target exactly when b - mask = target.
  lemma SumMeansDifference(q: Order, b: int, mask: int, target: int)
    requires 0 <= mask < q && 0 <= target < q
    ensures b % q == (mask + target) % q <==> (b - mask) % q == target
  {
    if b % q == (mask + target) % q {
      SubtractMask(q, b, mask, target);
    }
    if (b - mask) % q == target {
      AddMask(q, b, mask, target);
    }
  }

  lemma SubtractMask(q: Order, b: int, mask: int, target: int)
    requires 0 <= target < q && b % q == (mask + target) % q
    ensures (b - mask) % q == target
  {
    AddMod(b, -mask, q);
    AddMod(mask + target, -mask, q);
    assert mask + target + -mask == target;
    SmallMod(target, q);
  }

  lemma AddMask(q: Order, b: int, mask: int, target: int)
    requires (b - mask) % q == target
    ensures b % q == (mask + target) % q
  {
    AddMod(b - mask, mask, q);
  }
}
