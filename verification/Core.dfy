// The SEAL protocol (src/seal/core.rs): threshold encryption to key servers and decryption with
// the user secret keys they release.
module Core {
  import opened Bytes
  import opened Results
  import opened Groups
  import opened Primitives
  import opened Randomness
  import opened Utils
  import opened TSS
  import opened TSSLaws
  import opened Polynomial
  import opened DEM
  import IBE

  type ObjectID = Key

  // The address of a key server and the index of the share it protects.
  type Service = (ObjectID, bv8)

  datatype IBEEncryptions = IBEEncryptions(nonce: G2, encryptedShares: seq<Key>, encryptedRandomness: Key)

  datatype EncryptedObject = EncryptedObject(
    version: u8,
    packageId: ObjectID,
    id: Bytes,
    services: seq<Service>,
    threshold: u8,
    encryptedShares: IBEEncryptions,
    ciphertext: Ciphertext)

  type PublicKeys = seq<G2>
  type UserSecretKeys = map<ObjectID, G1>

  datatype KeyPurpose = EncryptedRandomness | DemKey

  function CreateFullId(packageId: ObjectID, id: Bytes): Bytes
  {
    packageId + id
  }

  // ----- Key derivation

  function DstDeriveKey(): Bytes
  {
    Ascii("SUI-SEAL-IBE-BLS12381-H3-00")
  }

  function PurposeTag(purpose: KeyPurpose): Bytes
  {
    match purpose
    case EncryptedRandomness => [0]
    case DemKey => [1]
  }

  function Flatten(keys: seq<Key>): (r: Bytes)
    ensures |r| == KEY_SIZE * |keys|
  {
    if keys == [] then [] else Flatten(keys[..|keys| - 1]) + keys[|keys| - 1]
  }

  function Header(purpose: KeyPurpose, baseKey: Key, threshold: u8): Bytes
  {
    DstDeriveKey() + baseKey + PurposeTag(purpose) + [Byte(threshold)]
  }

  function DeriveKeyInput(purpose: KeyPurpose, baseKey: Key, encryptedShares: seq<Key>, threshold: u8,
                          keyServers: seq<ObjectID>): Bytes
  {
    Header(purpose, baseKey, threshold) + Flatten(encryptedShares) + Flatten(keyServers)
  }

  function DeriveKey(p: Primitives, purpose: KeyPurpose, baseKey: Key, encryptedShares: seq<Key>, threshold: u8,
                     keyServers: seq<ObjectID>): Key
  {
    p.sha3(DeriveKeyInput(purpose, baseKey, encryptedShares, threshold, keyServers))
  }

  method AbsorbHeader(hash: Hasher, purpose: KeyPurpose, baseKey: Key, threshold: u8)
    requires hash.absorbed == []
    modifies hash`absorbed
    ensures hash.absorbed == Header(purpose, baseKey, threshold)
  {
    hide Byte, DstDeriveKey, PurposeTag;
    hash.Update(DstDeriveKey());
    hash.Update(baseKey);
    hash.Update(PurposeTag(purpose));
    hash.Update([Byte(threshold)]);
  }

  // The program feeds an incremental hash, one share and one server at a time.
  method ComputeDerivedKey(p: Primitives, purpose: KeyPurpose, baseKey: Key, encryptedShares: seq<Key>,
                           threshold: u8, keyServers: seq<ObjectID>) returns (key: Key)
    ensures key == DeriveKey(p, purpose, baseKey, encryptedShares, threshold, keyServers)
  {
    hide Header;
    var hash := new Hasher(p);
    AbsorbHeader(hash, purpose, baseKey, threshold);
    ghost var header := Header(purpose, baseKey, threshold);
    for i := 0 to |encryptedShares|
      invariant hash.primitives == p
      invariant hash.absorbed == header + Flatten(encryptedShares[..i])
    {
      assert encryptedShares[..i + 1][..i] == encryptedShares[..i];
      hash.Update(encryptedShares[i]);
    }
    assert encryptedShares[..|encryptedShares|] == encryptedShares;
    for i := 0 to |keyServers|
      invariant hash.primitives == p
      invariant hash.absorbed == header + Flatten(encryptedShares) + Flatten(keyServers[..i])
    {
      assert keyServers[..i + 1][..i] == keyServers[..i];
      hash.Update(keyServers[i]);
    }
    assert keyServers[..|keyServers|] == keyServers;
    key := hash.Finalize();
  }

  // ----- Encryption

  // One row of coefficients for each byte of the base key.
  type CoefficientRows = rows: seq<Bytes> | |rows| == KEY_SIZE witness seq(KEY_SIZE, i => [])

  // Everything that encryption draws at random.
  datatype Draw = Draw(baseKey: Key, coefficients: CoefficientRows, randomness: nat)

  // Pairs servers with share indices and stops at the end of the shorter list.
  function ZipServices(keyServers: seq<ObjectID>, indices: seq<bv8>): (r: seq<Service>)
    ensures |r| == if |keyServers| < |indices| then |keyServers| else |indices|
  {
    var n := if |keyServers| < |indices| then |keyServers| else |indices|;
    seq(n, i requires 0 <= i < n => (keyServers[i], indices[i]))
  }

  // The base key, split for the given draw; every share is a key.
  function SplitBaseKey(baseKey: Key, threshold: u8, numberOfShares: u8, coefficients: CoefficientRows)
    : Result<(seq<bv8>, seq<Key>)>
  {
    SharingWorks(baseKey, threshold, numberOfShares, coefficients);
    var sharing :- Sharing(baseKey, threshold, numberOfShares, coefficients);
    Ok((sharing.indices, sharing.shares))
  }

  // The result of encrypting under a given draw. The number of servers is truncated to a byte.
  function SealEncrypted(p: Primitives, packageId: ObjectID, id: Bytes, keyServers: seq<ObjectID>,
                         publicKeys: PublicKeys, threshold: u8, input: EncryptionInput, draw: Draw)
    : Result<(EncryptedObject, Key)>
  {
    var numberOfShares := |keyServers| % 256;
    if threshold > numberOfShares || threshold == 0 then Err(InvalidInput)
    else
      var fullId := CreateFullId(packageId, id);
      var (indices, shares) :- SplitBaseKey(draw.baseKey, threshold, numberOfShares, draw.coefficients);
      var services := ZipServices(keyServers, indices);
      if |publicKeys| != numberOfShares then Err(InvalidInput)
      else
        var (nonce, encrypted) :-
          IBE.EncryptBatchedDeterministic(p, draw.randomness, shares, publicKeys, fullId, services);
        var randomnessKey := DeriveKey(p, EncryptedRandomness, draw.baseKey, encrypted, threshold, keyServers);
        var encryptedShares :=
          IBEEncryptions(nonce, encrypted, IBE.EncryptRandomness(p, draw.randomness, randomnessKey));
        var demKey := DeriveKey(p, DemKey, draw.baseKey, encrypted, threshold, keyServers);
        var ciphertext := DEM.Encrypt(p, input, demKey);
        Ok((EncryptedObject(0, packageId, id, services, threshold, encryptedShares, ciphertext), demKey))
  }

  // What the generator, from its present state, will supply to an encryption.
  function DrawFrom(p: Primitives, rng: Rng, threshold: u8): Draw
    reads rng
  {
    Draw(rng.Upcoming(KEY_SIZE),
         Coefficients(rng.bytes, rng.bytesRead + KEY_SIZE, KEY_SIZE, threshold),
         rng.scalars(rng.scalarsRead) % p.q)
  }

  // The program draws the base key, then the coefficients while splitting, then the scalar.
  method SealEncrypt(p: Primitives, rng: Rng, packageId: ObjectID, id: Bytes, keyServers: seq<ObjectID>,
                     publicKeys: PublicKeys, threshold: u8, input: EncryptionInput)
    returns (r: Result<(EncryptedObject, Key)>)
    modifies rng
    ensures r == SealEncrypted(p, packageId, id, keyServers, publicKeys, threshold, input,
                               old(DrawFrom(p, rng, threshold)))
    ensures rng.bytesRead >= old(rng.bytesRead) && rng.scalarsRead >= old(rng.scalarsRead)
    ensures r.Ok? ==> rng.bytesRead == old(rng.bytesRead) + KEY_SIZE * threshold
    ensures r.Ok? ==> rng.scalarsRead == old(rng.scalarsRead) + 1
  {
    hide IBE.EncryptBatchedDeterministic, IBE.EncryptRandomness, DEM.Encrypt, DeriveKey, Sharing, ZipServices;
    hide Coefficients, CreateFullId;
    var numberOfShares := |keyServers| % 256;
    if threshold > numberOfShares || threshold == 0 {
      return Err(InvalidInput);
    }
    ghost var draw := DrawFrom(p, rng, threshold);
    var fullId := CreateFullId(packageId, id);
    var buffer := new bv8[KEY_SIZE];
    rng.FillBytes(buffer);
    var baseKey: Key := buffer[..];
    var sharing := Split(rng, baseKey, threshold, numberOfShares);
    if sharing.Err? {
      return Err(sharing.error);
    }
    SharingWorks(baseKey, threshold, numberOfShares, draw.coefficients);
    var shares: seq<Key> := sharing.value.shares;
    var services := ZipServices(keyServers, sharing.value.indices);
    if |publicKeys| != numberOfShares {
      return Err(InvalidInput);
    }
    var randomness := rng.NextScalar(p.q);
    var batch := IBE.EncryptBatchedDeterministic(p, randomness, shares, publicKeys, fullId, services);
    if batch.Err? {
      return Err(batch.error);
    }
    var (nonce, encrypted) := batch.value;
    var randomnessKey := ComputeDerivedKey(p, EncryptedRandomness, baseKey, encrypted, threshold, keyServers);
    var encryptedShares := IBEEncryptions(nonce, encrypted, IBE.EncryptRandomness(p, randomness, randomnessKey));
    var demKey := ComputeDerivedKey(p, DemKey, baseKey, encrypted, threshold, keyServers);
    var ciphertext := DEM.Encrypt(p, input, demKey);
    r := Ok((EncryptedObject(0, packageId, id, services, threshold, encryptedShares, ciphertext), demKey));
  }

  // ----- Decryption

  // The positions below n whose server has released a key, in order.
  function CoveredPositions(services: seq<Service>, userSecretKeys: UserSecretKeys, n: nat): (r: seq<nat>)
    requires n <= |services|
    ensures forall k | 0 <= k < |r| :: r[k] < n && services[r[k]].0 in userSecretKeys
  {
    if n == 0 then []
    else
      CoveredPositions(services, userSecretKeys, n - 1) +
      (if services[n - 1].0 in userSecretKeys then [n - 1] else [])
  }

  function Covered(eo: EncryptedObject, userSecretKeys: UserSecretKeys): (r: seq<nat>)
    ensures forall k | 0 <= k < |r| :: r[k] < |eo.services| && eo.services[r[k]].0 in userSecretKeys
  {
    CoveredPositions(eo.services, userSecretKeys, |eo.services|)
  }

  function DecryptShare(p: Primitives, eo: EncryptedObject, userSecretKeys: UserSecretKeys, i: nat): (r: Share)
    requires |eo.encryptedShares.encryptedShares| == |eo.services|
    requires i < |eo.services| && eo.services[i].0 in userSecretKeys
    ensures |r.1| == KEY_SIZE
  {
    var (objectId, index) := eo.services[i];
    (index, IBE.Decrypt(p, eo.encryptedShares.nonce, eo.encryptedShares.encryptedShares[i], userSecretKeys[objectId],
                        CreateFullId(eo.packageId, eo.id), (objectId, index)))
  }

  function DecryptShares(p: Primitives, eo: EncryptedObject, userSecretKeys: UserSecretKeys): (r: seq<Share>)
    requires |eo.encryptedShares.encryptedShares| == |eo.services|
    ensures |r| == |Covered(eo, userSecretKeys)| && HaveLength(r, KEY_SIZE)
  {
    var positions := Covered(eo, userSecretKeys);
    seq(|positions|, k requires 0 <= k < |positions| => DecryptShare(p, eo, userSecretKeys, positions[k]))
  }

  function DecryptRandomness(p: Primitives, enc: IBEEncryptions, baseKey: Key, services: seq<Service>, threshold: u8)
    : Result<nat>
  {
    var randomnessKey :=
      DeriveKey(p, EncryptedRandomness, baseKey, enc.encryptedShares, threshold, Firsts(services));
    IBE.DecryptRandomness(p, enc.encryptedRandomness, randomnessKey)
  }

  function CombineAndVerifyNonce(p: Primitives, enc: IBEEncryptions, shares: seq<Share>, services: seq<Service>,
                                 threshold: u8): Result<Key>
    requires HaveLength(shares, KEY_SIZE)
  {
    var baseKey :- Combine(KEY_SIZE, shares);
    var randomness :- DecryptRandomness(p, enc, baseKey, services, threshold);
    var _ :- IBE.VerifyNonce(p, randomness, enc.nonce);
    Ok(baseKey)
  }

  // The shares of the first n positions, recovered from the randomness.
  function DeterministicShares(p: Primitives, enc: IBEEncryptions, randomness: nat, fullId: Bytes,
                               services: seq<Service>, publicKeys: PublicKeys, n: nat): (r: Result<seq<Share>>)
    requires n <= |enc.encryptedShares| && n <= |services| && n <= |publicKeys|
    ensures r.Ok? ==> |r.value| == n && HaveLength(r.value, KEY_SIZE)
  {
    if n == 0 then Ok([])
    else
      var i := n - 1;
      var before :- DeterministicShares(p, enc, randomness, fullId, services, publicKeys, i);
      match IBE.DecryptDeterministic(p, randomness, enc.encryptedShares[i], publicKeys[i], fullId, services[i])
      case Err(error) => Err(error)
      case Ok(plaintext) => Ok(before + [(services[i].1, plaintext)])
  }

  function DecryptAllSharesAndVerifyNonce(p: Primitives, enc: IBEEncryptions, fullId: Bytes, services: seq<Service>,
                                          publicKeys: PublicKeys, baseKey: Key, threshold: u8): (r: Result<seq<Share>>)
    ensures r.Ok? ==> HaveLength(r.value, KEY_SIZE)
  {
    var randomness :- DecryptRandomness(p, enc, baseKey, services, threshold);
    var _ :- IBE.VerifyNonce(p, randomness, enc.nonce);
    if |publicKeys| != |enc.encryptedShares| then Err(InvalidInput)
    else
      var n := if |publicKeys| < |services| then |publicKeys| else |services|;
      DeterministicShares(p, enc, randomness, fullId, services, publicKeys, n)
  }

  function CombineAndCheckShareConsistency(p: Primitives, enc: IBEEncryptions, shares: seq<Share>, fullId: Bytes,
                                           services: seq<Service>, threshold: u8, publicKeys: PublicKeys): Result<Key>
    requires HaveLength(shares, KEY_SIZE)
  {
    var polynomials :- InterpolateShares(KEY_SIZE, shares);
    var baseKey: Key := ValueAt(polynomials, 0);
    var allShares :- DecryptAllSharesAndVerifyNonce(p, enc, fullId, services, publicKeys, baseKey, threshold);
    if !LieOn(allShares, polynomials) then Err(GeneralError("Inconsistent shares")) else Ok(baseKey)
  }

  function RecoverBaseKey(p: Primitives, eo: EncryptedObject, shares: seq<Share>, publicKeys: Option<PublicKeys>)
    : Result<Key>
    requires HaveLength(shares, KEY_SIZE)
  {
    match publicKeys
    case Some(pks) =>
      CombineAndCheckShareConsistency(p, eo.encryptedShares, shares, CreateFullId(eo.packageId, eo.id), eo.services,
                                      eo.threshold, pks)
    case None => CombineAndVerifyNonce(p, eo.encryptedShares, shares, eo.services, eo.threshold)
  }

  function SealDecrypt(p: Primitives, eo: EncryptedObject, userSecretKeys: UserSecretKeys,
                       publicKeys: Option<PublicKeys>): Result<Bytes>
  {
    if eo.version != 0 then Err(InvalidInput)
    else if |eo.encryptedShares.encryptedShares| != |eo.services| then Err(InvalidInput)
    else if |Covered(eo, userSecretKeys)| < eo.threshold then Err(InvalidInput)
    else
      var baseKey :- RecoverBaseKey(p, eo, DecryptShares(p, eo, userSecretKeys), publicKeys);
      var demKey :=
        DeriveKey(p, DemKey, baseKey, eo.encryptedShares.encryptedShares, eo.threshold, Firsts(eo.services));
      DEM.Decrypt(p, eo.ciphertext, demKey)
  }
}
