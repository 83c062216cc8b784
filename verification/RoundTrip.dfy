// Decryption undoes encryption, for every draw, threshold, mode and sufficient set of keys.
module RoundTrip {
  import opened Bytes
  import opened Results
  import opened Groups
  import opened Primitives
  import opened Utils
  import opened TSS
  import opened TSSLaws
  import opened Polynomial
  import opened DEM
  import DEMLaws
  import IBE
  import Randomness
  import opened Core
  import opened CoreLaws

  // A draw has a coefficient row per byte of the base key and a reduced scalar.
  predicate DrawFits(p: Primitives, draw: Draw, threshold: u8)
  {
    && threshold > 0
    && (forall i | 0 <= i < KEY_SIZE :: |draw.coefficients[i]| == threshold - 1)
    && draw.randomness < p.q
  }

  // Every draw that a generator supplies fits.
  lemma DrawsFit(p: Primitives, rng: Randomness.Rng, threshold: u8)
    requires threshold > 0
    ensures DrawFits(p, DrawFrom(p, rng, threshold), threshold)
  {}

  // An encryption reads the tape without gaps or repetitions: the base key first, then threshold - 1
  // coefficients for each of its bytes, and one scalar.
  lemma DrawReadsTape(p: Primitives, rng: Randomness.Rng, threshold: u8)
    requires threshold > 0
    ensures var draw, at := DrawFrom(p, rng, threshold), rng.bytesRead;
            && (forall i | 0 <= i < KEY_SIZE :: draw.baseKey[i] == rng.bytes(at + i))
            && Randomness.ReadConsecutively(rng.bytes, at + KEY_SIZE, draw.coefficients, threshold - 1)
            && draw.randomness == rng.scalars(rng.scalarsRead) % p.q
  {
    hide Randomness.ReadConsecutively;
    Randomness.TapeRowsAreConsecutive(rng.bytes, rng.bytesRead + KEY_SIZE, KEY_SIZE, threshold - 1);
  }

  // The arguments of an encryption, with its draw.
  datatype Request = Request(
    packageId: ObjectID,
    id: Bytes,
    keyServers: seq<ObjectID>,
    publicKeys: PublicKeys,
    threshold: u8,
    input: EncryptionInput,
    draw: Draw)

  function Encrypted(p: Primitives, r: Request): Result<(EncryptedObject, Key)>
  {
    SealEncrypted(p, r.packageId, r.id, r.keyServers, r.publicKeys, r.threshold, r.input, r.draw)
  }

  // ----- What encryption produces

  lemma SplitBaseKeyWorks(baseKey: Key, threshold: u8, n: u8, coefficients: CoefficientRows)
    ensures SplitBaseKey(baseKey, threshold, n, coefficients).Ok? <==> 1 <= threshold <= n
    ensures SplitBaseKey(baseKey, threshold, n, coefficients).Err? ==>
              SplitBaseKey(baseKey, threshold, n, coefficients) == Err(InvalidInput)
    ensures SplitBaseKey(baseKey, threshold, n, coefficients).Ok? ==>
              var (indices, shares) := SplitBaseKey(baseKey, threshold, n, coefficients).value;
              var sharing := Sharing(baseKey, threshold, n, coefficients);
              && indices == ShareIndices(n) && |shares| == n
              && sharing == Ok(SecretSharing(baseKey, indices, shares))
              && forall j | 0 <= j < n :: shares[j] == ValueAt(SharingPolynomials(baseKey, coefficients), indices[j])
  {
    hide Sharing, ValueAt, Byte;
    SharingWorks(baseKey, threshold, n, coefficients);
    if 1 <= threshold <= n {
      forall j | 0 <= j < n
        ensures Sharing(baseKey, threshold, n, coefficients).value.shares[j] ==
                ValueAt(SharingPolynomials(baseKey, coefficients), ShareIndices(n)[j])
      {
        SharesLieOnPolynomials(baseKey, threshold, n, coefficients, j);
      }
    }
  }

  // Encryption succeeds exactly for 1 <= threshold <= n and n public keys, n being the number of
  // servers modulo 256.
  lemma EncryptionSucceeds(p: Primitives, r: Request)
    ensures Encrypted(p, r).Ok? <==>
            1 <= r.threshold <= |r.keyServers| % 256 && |r.publicKeys| == |r.keyServers| % 256
    ensures Encrypted(p, r).Err? ==> Encrypted(p, r) == Err(InvalidInput)
  {
    hide IBE.EncryptRandomness, DeriveKey, DEM.Encrypt, SplitBaseKey;
    SplitBaseKeyWorks(r.draw.baseKey, r.threshold, |r.keyServers| % 256, r.draw.coefficients);
  }

  // For at most 255 servers, the object lists all of them, with indices 1, 2, 3, ..., and holds the
  // shares of the base key encrypted under one nonce.
  lemma ObjectShape(p: Primitives, r: Request, eo: EncryptedObject, demKey: Key)
    requires |r.keyServers| <= 255
    requires Encrypted(p, r) == Ok((eo, demKey))
    ensures 1 <= r.threshold <= |r.keyServers|
    ensures eo.version == 0 && eo.packageId == r.packageId && eo.id == r.id && eo.threshold == r.threshold
    ensures |eo.services| == |eo.encryptedShares.encryptedShares| == |r.keyServers| == |r.publicKeys|
    ensures Firsts(eo.services) == r.keyServers && ProperIndices(eo.services)
    ensures forall i | 0 <= i < |r.keyServers| :: eo.services[i].1 == ShareIndices(|r.keyServers|)[i]
    ensures var shares := SplitBaseKey(r.draw.baseKey, r.threshold, |r.keyServers|, r.draw.coefficients);
            && shares.Ok? && |shares.value.1| == |r.keyServers|
            && IBE.EncryptBatchedDeterministic(p, r.draw.randomness, shares.value.1, r.publicKeys,
                                               CreateFullId(r.packageId, r.id), eo.services) ==
               Ok((eo.encryptedShares.nonce, eo.encryptedShares.encryptedShares))
    ensures eo.encryptedShares.encryptedRandomness ==
            IBE.EncryptRandomness(p, r.draw.randomness,
              DeriveKey(p, EncryptedRandomness, r.draw.baseKey, eo.encryptedShares.encryptedShares, r.threshold,
                        r.keyServers))
    ensures demKey ==
            DeriveKey(p, DemKey, r.draw.baseKey, eo.encryptedShares.encryptedShares, r.threshold, r.keyServers)
    ensures eo.ciphertext == DEM.Encrypt(p, r.input, demKey)
  {
    hide IBE.EncryptRandomness, DeriveKey, DEM.Encrypt, SplitBaseKey, ShareIndices, CreateFullId;
    hide IBE.Kdf, IBE.HashToG1, G1Mul, G2Mul, Pairing, G2Generator, XorUnchecked;
    SplitBaseKeyWorks(r.draw.baseKey, r.threshold, |r.keyServers|, r.draw.coefficients);
    ShareIndexFacts(|r.keyServers|);
    assert Firsts(eo.services) == r.keyServers;
  }

  // ----- Recovering the base key

  // The base key unlocks the randomness of the draw.
  lemma RandomnessUnlocks(p: Primitives, r: Request, eo: EncryptedObject, demKey: Key)
    requires ScalarLawful(p) && |r.keyServers| <= 255 && r.draw.randomness < p.q
    requires Encrypted(p, r) == Ok((eo, demKey))
    ensures Unlocks(p, eo, r.draw.baseKey, r.draw.randomness)
  {
    ObjectShape(p, r, eo, demKey);
    hide Encrypted, DeriveKey, SplitBaseKey, XorUnchecked, IBE.Kdf, IBE.HashToG1, G1Mul, G2Mul, Pairing, G2Generator;
    hide ProperIndices, DEM.Encrypt;
    var randomnessKey :=
      DeriveKey(p, EncryptedRandomness, r.draw.baseKey, eo.encryptedShares.encryptedShares, r.threshold, r.keyServers);
    XorCancels(p.scalarBytes(r.draw.randomness), randomnessKey);
  }

  // The randomness recovers, for every position, the share that the draw gives it.
  lemma AllSharesAreRecovered(p: Primitives, r: Request, eo: EncryptedObject, demKey: Key)
    requires |r.keyServers| <= 255
    requires Encrypted(p, r) == Ok((eo, demKey))
    requires |eo.services| == |eo.encryptedShares.encryptedShares| == |r.publicKeys|
    ensures var all := DeterministicShares(p, eo.encryptedShares, r.draw.randomness, CreateFullId(r.packageId, r.id),
                                           eo.services, r.publicKeys, |eo.services|);
            all.Ok? && LieOn(all.value, SharingPolynomials(r.draw.baseKey, r.draw.coefficients))
  {
    ObjectShape(p, r, eo, demKey);
    hide Encrypted, SplitBaseKey, DeriveKey, ValueAt, ProperIndices, ShareIndices, DEM.Encrypt, DeterministicShares;
    hide IBE.Kdf, IBE.HashToG1, G1Mul, G2Mul, Pairing, G2Generator, XorUnchecked;
    SplitBaseKeyWorks(r.draw.baseKey, r.threshold, |r.keyServers|, r.draw.coefficients);
    var fullId, n := CreateFullId(r.packageId, r.id), |eo.services|;
    var shares := SplitBaseKey(r.draw.baseKey, r.threshold, |r.keyServers|, r.draw.coefficients).value.1;
    DeterministicSharesWork(p, eo.encryptedShares, r.draw.randomness, fullId, eo.services, r.publicKeys, n);
    var all :=
      DeterministicShares(p, eo.encryptedShares, r.draw.randomness, fullId, eo.services, r.publicKeys, n).value;
    forall i | 0 <= i < n
      ensures all[i].1 == shares[i]
    {
      var gid := IBE.HashToG1(p, fullId);
      var mask := IBE.Kdf(p, Pairing(p.q, G1Mul(p.q, gid, r.draw.randomness), r.publicKeys[i]),
                          eo.encryptedShares.nonce, gid, eo.services[i]);
      assert eo.encryptedShares.encryptedShares[i] == Xor(mask, shares[i]);
      XorCancels(shares[i], mask);
    }
  }

  // Enough verified keys recover the base key, with or without the consistency check.
  lemma BaseKeyIsRecovered(p: Primitives, r: Request, eo: EncryptedObject, demKey: Key,
                           userSecretKeys: UserSecretKeys)
    requires ScalarLawful(p) && |r.keyServers| <= 255 && DrawFits(p, r.draw, r.threshold)
    requires Encrypted(p, r) == Ok((eo, demKey))
    requires KeysVerify(p, eo, userSecretKeys, r.publicKeys) && |Covered(eo, userSecretKeys)| >= r.threshold
    ensures |eo.encryptedShares.encryptedShares| == |eo.services|
    ensures RecoverBaseKey(p, eo, DecryptShares(p, eo, userSecretKeys), Some(r.publicKeys)) == Ok(r.draw.baseKey)
    ensures RecoverBaseKey(p, eo, DecryptShares(p, eo, userSecretKeys), None) == Ok(r.draw.baseKey)
  {
    ObjectShape(p, r, eo, demKey);
    hide Encrypted, SplitBaseKey, ProperIndices, DEM.Encrypt, DeterministicShares, ValueAt, LieOn, Unlocks;
    hide IBE.EncryptBatchedDeterministic, IBE.EncryptRandomness, DeriveKey, Covered, KeysVerify, DecryptShares;
    var polynomials := SharingPolynomials(r.draw.baseKey, r.draw.coefficients);
    RandomnessUnlocks(p, r, eo, demKey);
    SharingPolynomialsAtZero(r.draw.baseKey, r.draw.coefficients);
    AllSharesAreRecovered(p, r, eo, demKey);
    hide RecoverBaseKey;
    ConsistentIsAccepted(p, eo, userSecretKeys, r.publicKeys, r.draw.baseKey, r.draw.randomness, polynomials);
    CheckedBaseKeyRefinesUnchecked(p, eo, DecryptShares(p, eo, userSecretKeys), r.publicKeys);
  }

  // ----- End to end

  // Decrypting an encryption, with verified keys for at least `threshold` positions, gives the
  // plaintext, or the DEM key in plain mode, with and without the consistency check. With keys for
  // fewer positions it is refused.
  lemma EndToEnd(p: Primitives, r: Request, userSecretKeys: UserSecretKeys)
    requires Lawful(p) && 1 <= r.threshold <= |r.keyServers| <= 255 && |r.publicKeys| == |r.keyServers|
    requires DrawFits(p, r.draw, r.threshold)
    ensures Encrypted(p, r).Ok?
    ensures var (eo, demKey) := Encrypted(p, r).value;
            KeysVerify(p, eo, userSecretKeys, r.publicKeys) && |Covered(eo, userSecretKeys)| >= r.threshold ==>
              && SealDecrypt(p, eo, userSecretKeys, Some(r.publicKeys)) == Ok(DEMLaws.Expected(r.input, demKey))
              && SealDecrypt(p, eo, userSecretKeys, None) == Ok(DEMLaws.Expected(r.input, demKey))
    ensures var (eo, demKey) := Encrypted(p, r).value;
            |Covered(eo, userSecretKeys)| < r.threshold ==>
              && SealDecrypt(p, eo, userSecretKeys, Some(r.publicKeys)) == Err(InvalidInput)
              && SealDecrypt(p, eo, userSecretKeys, None) == Err(InvalidInput)
  {
    hide Encrypted, KeysVerify, Covered, RecoverBaseKey, DecryptShares, DeriveKey, DEM.Decrypt, DEM.Encrypt;
    hide SplitBaseKey, IBE.EncryptBatchedDeterministic, ProperIndices, ShareIndices, DrawFits, IBE.EncryptRandomness;
    EncryptionSucceeds(p, r);
    var (eo, demKey) := Encrypted(p, r).value;
    ObjectShape(p, r, eo, demKey);
    if KeysVerify(p, eo, userSecretKeys, r.publicKeys) && |Covered(eo, userSecretKeys)| >= r.threshold {
      BaseKeyIsRecovered(p, r, eo, demKey, userSecretKeys);
      DEMLaws.RoundTrip(p, r.input, demKey);
    }
  }
}
