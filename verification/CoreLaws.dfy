// What the protocol promises: checked decryption refines unchecked decryption, consistent shares
// bind the base key, users with enough verified keys agree, and decryption undoes encryption.
module CoreLaws {
  import opened Bytes
  import opened Results
  import opened Groups
  import opened Primitives
  import opened Utils
  import opened TSS
  import opened TSSLaws
  import opened Polynomial
  import opened Interpolation
  import opened DEM
  import DEMLaws
  import IBE
  import opened Core

  // ----- The unchecked path

  // The scalar decoded under the key that the base key derives, and its nonce is that of the
  // encryptions.
  predicate Unlocks(p: Primitives, eo: EncryptedObject, baseKey: Key, randomness: nat)
  {
    var enc := eo.encryptedShares;
    var randomnessKey :=
      DeriveKey(p, EncryptedRandomness, baseKey, enc.encryptedShares, eo.threshold, Firsts(eo.services));
    && p.scalarFromBytes(Xor(randomnessKey, enc.encryptedRandomness)) == Ok(randomness)
    && G2Mul(p.q, G2Generator(p.q), randomness) == enc.nonce
  }

  // Without public keys a base key is returned exactly when the decrypted shares combine to it and it
  // unlocks the randomness of the nonce. Each failure is reported as itself.
  lemma UncheckedRecoversExactly(p: Primitives, eo: EncryptedObject, shares: seq<Share>, baseKey: Key)
    requires HaveLength(shares, KEY_SIZE)
    ensures RecoverBaseKey(p, eo, shares, None) == Ok(baseKey) <==>
            Combine(KEY_SIZE, shares) == Ok(baseKey) && exists r :: Unlocks(p, eo, baseKey, r)
    ensures Combine(KEY_SIZE, shares).Err? ==> RecoverBaseKey(p, eo, shares, None) == Err(InvalidInput)
    ensures Combine(KEY_SIZE, shares) == Ok(baseKey) && RecoverBaseKey(p, eo, shares, None).Err? ==>
              var randomness := DecryptRandomness(p, eo.encryptedShares, baseKey, eo.services, eo.threshold);
              RecoverBaseKey(p, eo, shares, None).error ==
              if randomness.Err? then randomness.error else GeneralError("Invalid randomness")
  {
    hide Combine, DeriveKey, G2Mul, G2Generator, XorUnchecked;
    CombineIsValueAtZero(KEY_SIZE, shares);
    var randomness := DecryptRandomness(p, eo.encryptedShares, baseKey, eo.services, eo.threshold);
    if RecoverBaseKey(p, eo, shares, None) == Ok(baseKey) {
      assert Unlocks(p, eo, baseKey, randomness.value);
    }
  }

  // What both decryptions ask before they look at a share.
  predicate Admissible(eo: EncryptedObject, userSecretKeys: UserSecretKeys)
  {
    && eo.version == 0
    && |eo.encryptedShares.encryptedShares| == |eo.services|
    && |Covered(eo, userSecretKeys)| >= eo.threshold
  }

  // The data opens to m under the DEM key that the base key derives.
  predicate OpensTo(p: Primitives, eo: EncryptedObject, baseKey: Key, m: Bytes)
  {
    var demKey :=
      DeriveKey(p, DemKey, baseKey, eo.encryptedShares.encryptedShares, eo.threshold, Firsts(eo.services));
    DEM.Decrypt(p, eo.ciphertext, demKey) == Ok(m)
  }

  // An admissible decryption that fails reports why the base key could not be recovered or, if it was,
  // why the data could not be opened.
  lemma DecryptionFailure(p: Primitives, eo: EncryptedObject, userSecretKeys: UserSecretKeys,
                          publicKeys: Option<PublicKeys>)
    requires Admissible(eo, userSecretKeys) && SealDecrypt(p, eo, userSecretKeys, publicKeys).Err?
    ensures var error := SealDecrypt(p, eo, userSecretKeys, publicKeys).error;
            || RecoverBaseKey(p, eo, DecryptShares(p, eo, userSecretKeys), publicKeys) == Err(error)
            || exists b: Key ::
                 && RecoverBaseKey(p, eo, DecryptShares(p, eo, userSecretKeys), publicKeys) == Ok(b)
                 && FailsToOpen(p, eo, b, error)
  {
    hide RecoverBaseKey, DecryptShares, DeriveKey, DEM.Decrypt, Covered;
    var recovered := RecoverBaseKey(p, eo, DecryptShares(p, eo, userSecretKeys), publicKeys);
    if recovered.Ok? {
      assert FailsToOpen(p, eo, recovered.value, SealDecrypt(p, eo, userSecretKeys, publicKeys).error);
    }
  }

  predicate FailsToOpen(p: Primitives, eo: EncryptedObject, baseKey: Key, error: Error)
  {
    var demKey :=
      DeriveKey(p, DemKey, baseKey, eo.encryptedShares.encryptedShares, eo.threshold, Firsts(eo.services));
    DEM.Decrypt(p, eo.ciphertext, demKey) == Err(error)
  }

  // Decryption without public keys returns m exactly when the object is admissible and the decrypted
  // shares combine to a key that unlocks the randomness and opens the data to m.
  lemma UncheckedDecryptsExactly(p: Primitives, eo: EncryptedObject, userSecretKeys: UserSecretKeys, m: Bytes)
    ensures SealDecrypt(p, eo, userSecretKeys, None) == Ok(m) <==>
            && Admissible(eo, userSecretKeys)
            && exists b: Key, r: nat ::
                 && Combine(KEY_SIZE, DecryptShares(p, eo, userSecretKeys)) == Ok(b)
                 && Unlocks(p, eo, b, r) && OpensTo(p, eo, b, m)
    ensures !Admissible(eo, userSecretKeys) ==> SealDecrypt(p, eo, userSecretKeys, None) == Err(InvalidInput)
  {
    hide RecoverBaseKey, Combine, DecryptShares, DeriveKey, DEM.Decrypt, Unlocks, Covered;
    if Admissible(eo, userSecretKeys) {
      var shares := DecryptShares(p, eo, userSecretKeys);
      var recovered := RecoverBaseKey(p, eo, shares, None);
      if recovered.Ok? {
        UncheckedRecoversExactly(p, eo, shares, recovered.value);
      }
      if b: Key, r: nat :| Combine(KEY_SIZE, shares) == Ok(b) && Unlocks(p, eo, b, r) && OpensTo(p, eo, b, m) {
        UncheckedRecoversExactly(p, eo, shares, b);
      }
    }
  }

  // ----- The checked path

  // When the consistency check accepts, the polynomials through the given shares also pass through
  // every share that the randomness recovers, and the base key is their value at 0.
  lemma CheckAccepts(p: Primitives, enc: IBEEncryptions, shares: seq<Share>, fullId: Bytes, services: seq<Service>,
                     threshold: u8, publicKeys: PublicKeys)
    requires HaveLength(shares, KEY_SIZE)
    requires CombineAndCheckShareConsistency(p, enc, shares, fullId, services, threshold, publicKeys).Ok?
    ensures var baseKey :=
              CombineAndCheckShareConsistency(p, enc, shares, fullId, services, threshold, publicKeys).value;
            && Accepted(shares)
            && InterpolateShares(KEY_SIZE, shares).Ok?
            && Combine(KEY_SIZE, shares) == Ok(baseKey)
            && baseKey == ValueAt(InterpolateShares(KEY_SIZE, shares).value, 0)
            && DecryptAllSharesAndVerifyNonce(p, enc, fullId, services, publicKeys, baseKey, threshold).Ok?
            && LieOn(DecryptAllSharesAndVerifyNonce(p, enc, fullId, services, publicKeys, baseKey, threshold).value,
                     InterpolateShares(KEY_SIZE, shares).value)
  {
    hide ValueAt, DecryptAllSharesAndVerifyNonce, Accepted, LieOn, Combine;
    CombineIsValueAtZero(KEY_SIZE, shares);
  }

  // Whatever the checked path recovers, the unchecked path recovers too.
  lemma CheckedBaseKeyRefinesUnchecked(p: Primitives, eo: EncryptedObject, shares: seq<Share>, publicKeys: PublicKeys)
    requires HaveLength(shares, KEY_SIZE)
    requires RecoverBaseKey(p, eo, shares, Some(publicKeys)).Ok?
    ensures RecoverBaseKey(p, eo, shares, None) == RecoverBaseKey(p, eo, shares, Some(publicKeys))
  {
    hide CombineAndCheckShareConsistency, ValueAt, Accepted, LieOn, Combine, DecryptRandomness, DeterministicShares;
    var fullId := CreateFullId(eo.packageId, eo.id);
    CheckAccepts(p, eo.encryptedShares, shares, fullId, eo.services, eo.threshold, publicKeys);
  }

  // Every share that the randomness recovers lies on the polynomials through the given ones.
  predicate AllConsistent(p: Primitives, eo: EncryptedObject, shares: seq<Share>, publicKeys: PublicKeys,
                          randomness: nat)
    requires HaveLength(shares, KEY_SIZE) && |eo.encryptedShares.encryptedShares| == |eo.services|
  {
    && |publicKeys| == |eo.services|
    && InterpolateShares(KEY_SIZE, shares).Ok?
    && var all := DeterministicShares(p, eo.encryptedShares, randomness, CreateFullId(eo.packageId, eo.id), eo.services,
                                      publicKeys, |eo.services|);
       all.Ok? && LieOn(all.value, InterpolateShares(KEY_SIZE, shares).value)
  }

  // With public keys a base key is returned exactly when it is returned without them, there is a public
  // key for every service, and the shares recovered for all services lie on the polynomials through
  // the decrypted ones.
  lemma CheckedIsUncheckedAndConsistent(p: Primitives, eo: EncryptedObject, shares: seq<Share>,
                                        publicKeys: PublicKeys, baseKey: Key)
    requires HaveLength(shares, KEY_SIZE) && |eo.encryptedShares.encryptedShares| == |eo.services|
    ensures RecoverBaseKey(p, eo, shares, Some(publicKeys)) == Ok(baseKey) <==>
            && RecoverBaseKey(p, eo, shares, None) == Ok(baseKey)
            && forall r | Unlocks(p, eo, baseKey, r) :: AllConsistent(p, eo, shares, publicKeys, r)
  {
    hide ValueAt, LieOn, Combine, InterpolateShares, DecryptAllSharesAndVerifyNonce, DeterministicShares, Unlocks;
    hide CombineAndVerifyNonce, Accepted;
    RecoveredSharesMeaning(p, eo, publicKeys, baseKey);
    UncheckedRecoversExactly(p, eo, shares, baseKey);
    CombineIsValueAtZero(KEY_SIZE, shares);
  }

  // How the checked path fails: like the unchecked one if that fails, else because a public key is
  // missing or superfluous, else because the shares are inconsistent.
  lemma CheckedFailure(p: Primitives, eo: EncryptedObject, shares: seq<Share>, publicKeys: PublicKeys)
    requires HaveLength(shares, KEY_SIZE) && |eo.encryptedShares.encryptedShares| == |eo.services|
    ensures var unchecked := RecoverBaseKey(p, eo, shares, None);
            var checked := RecoverBaseKey(p, eo, shares, Some(publicKeys));
            checked.Err? ==>
              checked.error ==
              if unchecked.Err? then unchecked.error
              else if |publicKeys| != |eo.services| then InvalidInput
              else GeneralError("Inconsistent shares")
  {
    hide ValueAt, LieOn, Combine, InterpolateShares, DeterministicShares, Accepted, DecryptRandomness, IBE.VerifyNonce;
    CombineIsValueAtZero(KEY_SIZE, shares);
    var baseKey := RecoverBaseKey(p, eo, shares, None);
    if baseKey.Ok? && |publicKeys| == |eo.services| {
      var randomness := DecryptRandomness(p, eo.encryptedShares, baseKey.value, eo.services, eo.threshold).value;
      DeterministicSharesWork(p, eo.encryptedShares, randomness, CreateFullId(eo.packageId, eo.id), eo.services,
                              publicKeys, |eo.services|);
    }
  }

  // Decryption with public keys returns m exactly when decryption without them would, for a base key
  // whose randomness recovers shares that are all consistent with the decrypted ones.
  lemma CheckedDecryptsExactly(p: Primitives, eo: EncryptedObject, userSecretKeys: UserSecretKeys,
                               publicKeys: PublicKeys, m: Bytes)
    ensures SealDecrypt(p, eo, userSecretKeys, Some(publicKeys)) == Ok(m) <==>
            && Admissible(eo, userSecretKeys)
            && exists b: Key, r: nat ::
                 && Combine(KEY_SIZE, DecryptShares(p, eo, userSecretKeys)) == Ok(b)
                 && Unlocks(p, eo, b, r) && OpensTo(p, eo, b, m)
                 && AllConsistent(p, eo, DecryptShares(p, eo, userSecretKeys), publicKeys, r)
    ensures !Admissible(eo, userSecretKeys) ==>
              SealDecrypt(p, eo, userSecretKeys, Some(publicKeys)) == Err(InvalidInput)
  {
    hide RecoverBaseKey, Combine, DecryptShares, DeriveKey, DEM.Decrypt, Covered, InterpolateShares;
    hide DeterministicShares, LieOn;
    if Admissible(eo, userSecretKeys) {
      var shares := DecryptShares(p, eo, userSecretKeys);
      var recovered := RecoverBaseKey(p, eo, shares, Some(publicKeys));
      if recovered.Ok? {
        CheckedIsUncheckedAndConsistent(p, eo, shares, publicKeys, recovered.value);
        UncheckedRecoversExactly(p, eo, shares, recovered.value);
      }
      if b: Key, r: nat :| Combine(KEY_SIZE, shares) == Ok(b) && Unlocks(p, eo, b, r) && OpensTo(p, eo, b, m) &&
                           AllConsistent(p, eo, shares, publicKeys, r) {
        CheckedIsUncheckedAndConsistent(p, eo, shares, publicKeys, b);
        UncheckedRecoversExactly(p, eo, shares, b);
      }
    }
  }

  lemma CheckedRefinesUnchecked(p: Primitives, eo: EncryptedObject, userSecretKeys: UserSecretKeys,
                                publicKeys: PublicKeys)
    requires SealDecrypt(p, eo, userSecretKeys, Some(publicKeys)).Ok?
    ensures SealDecrypt(p, eo, userSecretKeys, None) == SealDecrypt(p, eo, userSecretKeys, Some(publicKeys))
  {
    hide RecoverBaseKey, DEM.Decrypt, DeriveKey, DecryptShares;
    CheckedBaseKeyRefinesUnchecked(p, eo, DecryptShares(p, eo, userSecretKeys), publicKeys);
  }

  // ----- Consistent shares bind the base key

  // The entries of a list at the given positions.
  function Selected(shares: seq<Share>, positions: seq<nat>): (r: seq<Share>)
    requires forall k | 0 <= k < |positions| :: positions[k] < |shares|
    ensures |r| == |positions|
  {
    seq(|positions|, k requires 0 <= k < |positions| => shares[positions[k]])
  }

  lemma InterpolatedPolynomialsAreShort(shares: seq<Share>)
    requires HaveLength(shares, KEY_SIZE) && InterpolateShares(KEY_SIZE, shares).Ok?
    ensures var polynomials := InterpolateShares(KEY_SIZE, shares).value;
            forall i | 0 <= i < KEY_SIZE :: |polynomials[i]| <= |shares|
  {
    hide Polynomial.Interpolate, Accepted, InterpolateShares;
    InterpolateSharesWorks(KEY_SIZE, shares);
    var polynomials := InterpolateShares(KEY_SIZE, shares).value;
    forall i | 0 <= i < KEY_SIZE
      ensures |polynomials[i]| <= |shares|
    {
      InterpolateWorks(ByteRow(shares, i));
    }
  }

  // At least as many accepted shares on the polynomials as those interpolated give the same result.
  lemma OtherSharesAgree(shares: seq<Share>, others: seq<Share>)
    requires HaveLength(shares, KEY_SIZE) && HaveLength(others, KEY_SIZE)
    requires InterpolateShares(KEY_SIZE, shares).Ok? && Accepted(others) && |others| >= |shares|
    requires LieOn(others, InterpolateShares(KEY_SIZE, shares).value)
    ensures var polynomials := InterpolateShares(KEY_SIZE, shares).value;
            && Combine(KEY_SIZE, others) == Ok(ValueAt(polynomials, 0))
            && InterpolateShares(KEY_SIZE, others).Ok?
            && forall x :: ValueAt(InterpolateShares(KEY_SIZE, others).value, x) == ValueAt(polynomials, x)
  {
    hide Accepted, LieOn, Combine, InterpolateShares, ValueAt;
    InterpolatedPolynomialsAreShort(shares);
    SharesDeterminePolynomials(KEY_SIZE, others, InterpolateShares(KEY_SIZE, shares).value);
  }

  lemma SelectedAreAccepted(all: seq<Share>, positions: seq<nat>)
    requires forall k | 0 <= k < |positions| :: positions[k] < |all|
    requires AllUnique(Firsts(all)) && 0 !in Firsts(all) && AllUnique(positions) && positions != []
    ensures Accepted(Selected(all, positions))
  {
    var indices, picked := Firsts(all), Firsts(Selected(all, positions));
    forall i, j | 0 <= i < j < |picked|
      ensures picked[i] != picked[j]
    {
      var a, b := positions[i], positions[j];
      assert a != b;
      assert picked[i] == indices[a] && picked[j] == indices[b];
      assert if a < b then indices[a] != indices[b] else indices[b] != indices[a];
    }
    forall i | 0 <= i < |picked|
      ensures picked[i] != 0
    {
      assert picked[i] == indices[positions[i]];
    }
  }

  // If the check accepts k shares with base key b, then any k or more of the shares recovered for
  // all services, with distinct nonzero indices, combine to b.
  lemma ConsistencyGuarantee(p: Primitives, enc: IBEEncryptions, shares: seq<Share>, fullId: Bytes,
                             services: seq<Service>, threshold: u8, publicKeys: PublicKeys, positions: seq<nat>)
    requires HaveLength(shares, KEY_SIZE)
    requires CombineAndCheckShareConsistency(p, enc, shares, fullId, services, threshold, publicKeys).Ok?
    requires var baseKey :=
               CombineAndCheckShareConsistency(p, enc, shares, fullId, services, threshold, publicKeys).value;
             var recovered := DecryptAllSharesAndVerifyNonce(p, enc, fullId, services, publicKeys, baseKey, threshold);
             recovered.Ok? ==>
               && AllUnique(Firsts(recovered.value)) && 0 !in Firsts(recovered.value)
               && (forall k | 0 <= k < |positions| :: positions[k] < |recovered.value|)
    requires AllUnique(positions) && |positions| >= |shares|
    ensures var baseKey :=
              CombineAndCheckShareConsistency(p, enc, shares, fullId, services, threshold, publicKeys).value;
            var recovered := DecryptAllSharesAndVerifyNonce(p, enc, fullId, services, publicKeys, baseKey, threshold);
            && recovered.Ok?
            && HaveLength(Selected(recovered.value, positions), KEY_SIZE)
            && Combine(KEY_SIZE, Selected(recovered.value, positions)) == Ok(baseKey)
  {
    hide CombineAndCheckShareConsistency, DecryptAllSharesAndVerifyNonce, Combine, InterpolateShares, ValueAt;
    CheckAccepts(p, enc, shares, fullId, services, threshold, publicKeys);
    var baseKey := CombineAndCheckShareConsistency(p, enc, shares, fullId, services, threshold, publicKeys).value;
    var recovered := DecryptAllSharesAndVerifyNonce(p, enc, fullId, services, publicKeys, baseKey, threshold).value;
    SelectedAreAccepted(recovered, positions);
    OtherSharesAgree(shares, Selected(recovered, positions));
  }

  // ----- Agreement across users

  // The share indices of the services are distinct and nonzero.
  predicate ProperIndices(services: seq<Service>)
  {
    && (forall i, j | 0 <= i < j < |services| :: services[i].1 != services[j].1)
    && (forall i | 0 <= i < |services| :: services[i].1 != 0)
  }

  // Every key in the map passes verification against the public key of each position it serves.
  predicate KeysVerify(p: Primitives, eo: EncryptedObject, userSecretKeys: UserSecretKeys, publicKeys: PublicKeys)
  {
    forall i | 0 <= i < |eo.services| && i < |publicKeys| && eo.services[i].0 in userSecretKeys ::
      IBE.VerifyUserSecretKey(p, userSecretKeys[eo.services[i].0], CreateFullId(eo.packageId, eo.id), publicKeys[i]).Ok?
  }

  // The covered positions are exactly those whose server has released a key, in increasing order.
  lemma {:induction false} CoveredPositionsWork(services: seq<Service>, userSecretKeys: UserSecretKeys, n: nat)
    requires n <= |services|
    ensures forall i: nat | i < n ::
              services[i].0 in userSecretKeys ==> i in CoveredPositions(services, userSecretKeys, n)
    ensures Increasing(CoveredPositions(services, userSecretKeys, n))
  {
    if n != 0 {
      var before := CoveredPositions(services, userSecretKeys, n - 1);
      var all := CoveredPositions(services, userSecretKeys, n);
      CoveredPositionsWork(services, userSecretKeys, n - 1);
      assert all == before + (if services[n - 1].0 in userSecretKeys then [n - 1] else []);
      hide CoveredPositions;
      forall i: nat | i < n && services[i].0 in userSecretKeys
        ensures i in all
      {
        assert i < n - 1 ==> i in before;
      }
    }
  }

  predicate Increasing(positions: seq<nat>)
  {
    forall k, l | 0 <= k < l < |positions| :: positions[k] < positions[l]
  }

  lemma CoveredWorks(eo: EncryptedObject, userSecretKeys: UserSecretKeys)
    ensures forall i: nat ::
              i in Covered(eo, userSecretKeys) <==> i < |eo.services| && eo.services[i].0 in userSecretKeys
    ensures Increasing(Covered(eo, userSecretKeys))
  {
    CoveredPositionsWork(eo.services, userSecretKeys, |eo.services|);
  }

  lemma DecryptedSharesAreAccepted(p: Primitives, eo: EncryptedObject, userSecretKeys: UserSecretKeys)
    requires |eo.encryptedShares.encryptedShares| == |eo.services| && ProperIndices(eo.services)
    requires Covered(eo, userSecretKeys) != []
    ensures Accepted(DecryptShares(p, eo, userSecretKeys))
  {
    hide IBE.Decrypt;
    CoveredWorks(eo, userSecretKeys);
    var positions := Covered(eo, userSecretKeys);
    var indices := Firsts(DecryptShares(p, eo, userSecretKeys));
    assert forall k | 0 <= k < |positions| :: indices[k] == eo.services[positions[k]].1;
    forall i, j | 0 <= i < j < |indices|
      ensures indices[i] != indices[j]
    {
      var a, b := positions[i], positions[j];
      assert a < b;
      assert eo.services[a].1 != eo.services[b].1;
    }
  }

  lemma {:induction false} DeterministicSharesWork(p: Primitives, enc: IBEEncryptions, randomness: nat, fullId: Bytes,
                                                   services: seq<Service>, publicKeys: PublicKeys, n: nat)
    requires n <= |enc.encryptedShares| && n <= |services| && n <= |publicKeys|
    ensures DeterministicShares(p, enc, randomness, fullId, services, publicKeys, n).Ok?
    ensures var shares := DeterministicShares(p, enc, randomness, fullId, services, publicKeys, n).value;
            forall i | 0 <= i < n ::
              && shares[i].0 == services[i].1
              && IBE.DecryptDeterministic(p, randomness, enc.encryptedShares[i], publicKeys[i], fullId, services[i]) ==
                 Ok(shares[i].1)
  {
    if n != 0 {
      DeterministicSharesWork(p, enc, randomness, fullId, services, publicKeys, n - 1);
    }
  }

  // A verified key decrypts its share to what the randomness recovers for its position.
  lemma DecryptedShareIsRecovered(p: Primitives, eo: EncryptedObject, userSecretKeys: UserSecretKeys,
                                  publicKeys: PublicKeys, baseKey: Key, randomness: nat, i: nat)
    requires |eo.encryptedShares.encryptedShares| == |eo.services| == |publicKeys|
    requires i < |eo.services| && eo.services[i].0 in userSecretKeys
    requires KeysVerify(p, eo, userSecretKeys, publicKeys) && Unlocks(p, eo, baseKey, randomness)
    ensures var recovered := DeterministicShares(p, eo.encryptedShares, randomness, CreateFullId(eo.packageId, eo.id),
                                                 eo.services, publicKeys, |eo.services|);
            recovered.Ok? && recovered.value[i] == DecryptShare(p, eo, userSecretKeys, i)
  {
    hide IBE.DecryptDeterministic, IBE.Decrypt, IBE.VerifyUserSecretKey, DeriveKey, G2Mul, G2Generator;
    var fullId := CreateFullId(eo.packageId, eo.id);
    DeterministicSharesWork(p, eo.encryptedShares, randomness, fullId, eo.services, publicKeys, |eo.services|);
    IBE.VerifiedKeyDecryptsDeterministically(
      p, randomness, eo.encryptedShares.nonce, eo.encryptedShares.encryptedShares[i],
      userSecretKeys[eo.services[i].0], publicKeys[i], fullId, eo.services[i]);
  }

  lemma RecoveredSharesMeaning(p: Primitives, eo: EncryptedObject, publicKeys: PublicKeys, baseKey: Key)
    requires |eo.encryptedShares.encryptedShares| == |eo.services|
    ensures var fullId := CreateFullId(eo.packageId, eo.id);
            var all := DecryptAllSharesAndVerifyNonce(p, eo.encryptedShares, fullId, eo.services, publicKeys, baseKey,
                                                      eo.threshold);
            && (all.Ok? <==> |publicKeys| == |eo.services| && exists r :: Unlocks(p, eo, baseKey, r))
            && forall r | |publicKeys| == |eo.services| && Unlocks(p, eo, baseKey, r) ::
                 all == DeterministicShares(p, eo.encryptedShares, r, fullId, eo.services, publicKeys, |eo.services|)
  {
    hide DeriveKey, G2Mul, G2Generator, XorUnchecked, DeterministicShares;
    var fullId := CreateFullId(eo.packageId, eo.id);
    var randomness := DecryptRandomness(p, eo.encryptedShares, baseKey, eo.services, eo.threshold);
    if randomness.Ok? && IBE.VerifyNonce(p, randomness.value, eo.encryptedShares.nonce).Ok? {
      assert Unlocks(p, eo, baseKey, randomness.value);
      if |publicKeys| == |eo.services| {
        DeterministicSharesWork(p, eo.encryptedShares, randomness.value, fullId, eo.services, publicKeys,
                                |eo.services|);
      }
    }
  }

  // Shares whose polynomials pass through every recovered share pass the consistency check.
  lemma ConsistentSharesRecover(p: Primitives, eo: EncryptedObject, shares: seq<Share>, polynomials: seq<Poly>,
                                publicKeys: PublicKeys, baseKey: Key, randomness: nat)
    requires |eo.encryptedShares.encryptedShares| == |eo.services| == |publicKeys|
    requires HaveLength(shares, KEY_SIZE) && InterpolateShares(KEY_SIZE, shares).Ok?
    requires forall x :: ValueAt(InterpolateShares(KEY_SIZE, shares).value, x) == ValueAt(polynomials, x)
    requires ValueAt(polynomials, 0) == baseKey && Unlocks(p, eo, baseKey, randomness)
    requires var all := DeterministicShares(p, eo.encryptedShares, randomness, CreateFullId(eo.packageId, eo.id),
                                            eo.services, publicKeys, |eo.services|);
             all.Ok? && LieOn(all.value, polynomials)
    ensures RecoverBaseKey(p, eo, shares, Some(publicKeys)) == Ok(baseKey)
    ensures RecoverBaseKey(p, eo, shares, None) == Ok(baseKey)
  {
    hide ValueAt, DeterministicShares, InterpolateShares, Unlocks, CombineAndVerifyNonce;
    RecoveredSharesMeaning(p, eo, publicKeys, baseKey);
    hide DecryptAllSharesAndVerifyNonce;
    CheckedBaseKeyRefinesUnchecked(p, eo, shares, publicKeys);
  }

  // The recovered shares of all services lie on polynomials with at most k coefficients whose value
  // at 0 is the base key, and the base key unlocks the randomness that recovers them.
  predicate Consistent(p: Primitives, eo: EncryptedObject, publicKeys: PublicKeys, baseKey: Key, randomness: nat,
                       polynomials: seq<Poly>, k: nat)
    requires |eo.encryptedShares.encryptedShares| == |eo.services| == |publicKeys|
  {
    var all := DeterministicShares(p, eo.encryptedShares, randomness, CreateFullId(eo.packageId, eo.id), eo.services,
                                   publicKeys, |eo.services|);
    && Unlocks(p, eo, baseKey, randomness)
    && |polynomials| == KEY_SIZE && (forall i | 0 <= i < KEY_SIZE :: |polynomials[i]| <= k)
    && ValueAt(polynomials, 0) == baseKey
    && all.Ok? && LieOn(all.value, polynomials)
  }

  // With verified keys for k positions, the checked path accepts base key b exactly when the shares
  // of all services, decrypted or not, are consistent with b by polynomials of degree below k.
  lemma CheckIsConsistency(p: Primitives, eo: EncryptedObject, userSecretKeys: UserSecretKeys, publicKeys: PublicKeys,
                           baseKey: Key)
    requires |eo.encryptedShares.encryptedShares| == |eo.services| == |publicKeys| && ProperIndices(eo.services)
    requires KeysVerify(p, eo, userSecretKeys, publicKeys) && Covered(eo, userSecretKeys) != []
    ensures RecoverBaseKey(p, eo, DecryptShares(p, eo, userSecretKeys), Some(publicKeys)) == Ok(baseKey) <==>
            exists randomness, polynomials ::
              Consistent(p, eo, publicKeys, baseKey, randomness, polynomials, |Covered(eo, userSecretKeys)|)
  {
    hide RecoverBaseKey, Consistent, DecryptShares, KeysVerify, ProperIndices, Covered;
    var shares := DecryptShares(p, eo, userSecretKeys);
    if RecoverBaseKey(p, eo, shares, Some(publicKeys)) == Ok(baseKey) {
      var randomness, polynomials := AcceptedIsConsistent(p, eo, shares, publicKeys, baseKey);
    }
    if randomness, polynomials :|
      Consistent(p, eo, publicKeys, baseKey, randomness, polynomials, |Covered(eo, userSecretKeys)|) {
      ConsistentIsAccepted(p, eo, userSecretKeys, publicKeys, baseKey, randomness, polynomials);
    }
  }

  lemma AcceptedIsConsistent(p: Primitives, eo: EncryptedObject, shares: seq<Share>, publicKeys: PublicKeys,
                             baseKey: Key) returns (randomness: nat, polynomials: seq<Poly>)
    requires |eo.encryptedShares.encryptedShares| == |eo.services| && HaveLength(shares, KEY_SIZE)
    requires RecoverBaseKey(p, eo, shares, Some(publicKeys)) == Ok(baseKey)
    ensures shares != [] && |publicKeys| == |eo.services|
    ensures Consistent(p, eo, publicKeys, baseKey, randomness, polynomials, |shares|)
  {
    hide Combine, InterpolateShares, ValueAt, DecryptAllSharesAndVerifyNonce, DeterministicShares, Unlocks;
    var fullId := CreateFullId(eo.packageId, eo.id);
    CheckAccepts(p, eo.encryptedShares, shares, fullId, eo.services, eo.threshold, publicKeys);
    RecoveredSharesMeaning(p, eo, publicKeys, baseKey);
    randomness :| Unlocks(p, eo, baseKey, randomness);
    polynomials := InterpolateShares(KEY_SIZE, shares).value;
    InterpolatedPolynomialsAreShort(shares);
  }

  lemma ConsistentIsAccepted(p: Primitives, eo: EncryptedObject, userSecretKeys: UserSecretKeys, publicKeys: PublicKeys,
                             baseKey: Key, randomness: nat, polynomials: seq<Poly>)
    requires |eo.encryptedShares.encryptedShares| == |eo.services| == |publicKeys| && ProperIndices(eo.services)
    requires KeysVerify(p, eo, userSecretKeys, publicKeys) && Covered(eo, userSecretKeys) != []
    requires Consistent(p, eo, publicKeys, baseKey, randomness, polynomials, |Covered(eo, userSecretKeys)|)
    ensures RecoverBaseKey(p, eo, DecryptShares(p, eo, userSecretKeys), Some(publicKeys)) == Ok(baseKey)
  {
    hide Combine, InterpolateShares, ValueAt, DeterministicShares, Unlocks, RecoverBaseKey;
    hide KeysVerify, ProperIndices, DecryptShare, Covered, Accepted;
    var shares := DecryptShares(p, eo, userSecretKeys);
    DecryptedSharesAreAccepted(p, eo, userSecretKeys);
    forall k | 0 <= k < |shares|
      ensures ValueAt(polynomials, shares[k].0) == shares[k].1
    {
      DecryptedShareIsRecovered(p, eo, userSecretKeys, publicKeys, baseKey, randomness, Covered(eo, userSecretKeys)[k]);
    }
    SharesDeterminePolynomials(KEY_SIZE, shares, polynomials);
    ConsistentSharesRecover(p, eo, shares, polynomials, publicKeys, baseKey, randomness);
  }

  // If one user's shares pass the check, the shares of any user with at least as many verified keys
  // pass it too and give the same base key.
  lemma BaseKeysAgree(p: Primitives, eo: EncryptedObject, first: UserSecretKeys, second: UserSecretKeys,
                      publicKeys: PublicKeys)
    requires |eo.encryptedShares.encryptedShares| == |eo.services| && ProperIndices(eo.services)
    requires RecoverBaseKey(p, eo, DecryptShares(p, eo, first), Some(publicKeys)).Ok?
    requires |Covered(eo, second)| >= |Covered(eo, first)| && KeysVerify(p, eo, second, publicKeys)
    ensures RecoverBaseKey(p, eo, DecryptShares(p, eo, second), Some(publicKeys)) ==
            RecoverBaseKey(p, eo, DecryptShares(p, eo, first), Some(publicKeys))
  {
    hide RecoverBaseKey, DecryptShares, KeysVerify, ProperIndices, Covered;
    var shares := DecryptShares(p, eo, first);
    var baseKey := RecoverBaseKey(p, eo, shares, Some(publicKeys)).value;
    var randomness, polynomials := AcceptedIsConsistent(p, eo, shares, publicKeys, baseKey);
    ConsistentIsAccepted(p, eo, second, publicKeys, baseKey, randomness, polynomials);
  }

  // If decryption with the public keys gives m to one user, it gives m to every user whose verified
  // keys cover at least as many positions, with or without the public keys.
  lemma AgreementAcrossUsers(p: Primitives, eo: EncryptedObject, first: UserSecretKeys, second: UserSecretKeys,
                             publicKeys: PublicKeys)
    requires SealDecrypt(p, eo, first, Some(publicKeys)).Ok? && ProperIndices(eo.services)
    requires |Covered(eo, second)| >= |Covered(eo, first)| && KeysVerify(p, eo, second, publicKeys)
    ensures SealDecrypt(p, eo, second, Some(publicKeys)) == SealDecrypt(p, eo, first, Some(publicKeys))
    ensures SealDecrypt(p, eo, second, None) == SealDecrypt(p, eo, first, Some(publicKeys))
  {
    hide RecoverBaseKey, DEM.Decrypt, DeriveKey, DecryptShares, KeysVerify, ProperIndices, Covered;
    BaseKeysAgree(p, eo, first, second, publicKeys);
    CheckedRefinesUnchecked(p, eo, second, publicKeys);
  }
}
