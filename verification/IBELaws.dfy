// What keys, masks and points depend on, and what happens across identities.
module IBELaws {
  import opened Bytes
  import opened Results
  import opened Groups
  import opened ModArithmetic
  import opened Primitives
  import opened Dependence
  import opened Utils
  import opened IBE
  import Core

  // ----- Identities

  // Two identities have the same point under every hash to the group exactly when they are equal.
  lemma PointDependsOnIdentity(p: Primitives, id: Bytes, id': Bytes)
    ensures (forall f: Bytes -> G1 :: HashToG1(p.(hashToGroup := f), id) == HashToG1(p.(hashToGroup := f), id'))
            <==> id == id'
  {
    hide DstId;
    var f := (b: Bytes) => if b == DstId() + id then G1(1) else G1(0);
    if HashToG1(p.(hashToGroup := f), id) == HashToG1(p.(hashToGroup := f), id') {
      SplitsAlike(DstId(), id, DstId(), id');
    }
  }

  // The same for the identities that the protocol uses: package and inner identity both count.
  lemma PointDependsOnPackageAndId(p: Primitives, packageId: Key, id: Bytes, packageId': Key, id': Bytes)
    ensures (forall f: Bytes -> G1 ::
               HashToG1(p.(hashToGroup := f), Core.CreateFullId(packageId, id)) ==
               HashToG1(p.(hashToGroup := f), Core.CreateFullId(packageId', id')))
            <==> packageId == packageId' && id == id'
  {
    hide HashToG1;
    PointDependsOnIdentity(p, Core.CreateFullId(packageId, id), Core.CreateFullId(packageId', id'));
    if Core.CreateFullId(packageId, id) == Core.CreateFullId(packageId', id') {
      SplitsAlike(packageId, id, packageId', id');
    }
  }

  // A key extracted for one identity passes verification for another exactly when the master key
  // times the difference of the two points vanishes.
  lemma KeyForAnotherIdentity(p: Primitives, masterKey: nat, id: Bytes, id': Bytes)
    ensures VerifyUserSecretKey(p, Extract(p, masterKey, id'), id, PublicKeyFromMasterKey(p, masterKey)).Ok? <==>
            (masterKey * (HashToG1(p, id).exponent - HashToG1(p, id').exponent)) % p.q == 0
  {
    hide HashToG1, Pairing, G2Generator, TimesMod, G2Mul;
    var q, h, h' := p.q, HashToG1(p, id).exponent, HashToG1(p, id').exponent;
    VerifiedMeansExtracted(p, Extract(p, masterKey, id'), id, masterKey);
    TimesModIsProduct(h, masterKey, q);
    TimesModIsProduct(h', masterKey, q);
    EqualModMeansDifferenceVanishes(h * masterKey, h' * masterKey, q);
    assert h * masterKey - h' * masterKey == masterKey * (h - h');
  }

  lemma EqualModMeansDifferenceVanishes(x: int, y: int, q: nat)
    requires q > 0
    ensures x % q == y % q <==> (x - y) % q == 0
  {
    if x % q == y % q {
      AddMod(x, -y, q);
      AddMod(y, -y, q);
      assert y + -y == 0;
    }
    if (x - y) % q == 0 {
      AddMod(x - y, y, q);
    }
  }

  // ----- Masks

  // Group elements have serializations of one length per group that determine them, and hashing
  // yields elements of the group.
  ghost predicate SerializationLawful(p: Primitives)
  {
    && (forall a, b | InG1(p.q, a) && InG1(p.q, b) ::
          |p.g1Bytes(a)| == |p.g1Bytes(b)| && (p.g1Bytes(a) == p.g1Bytes(b) ==> a == b))
    && (forall a, b | InG2(p.q, a) && InG2(p.q, b) ::
          |p.g2Bytes(a)| == |p.g2Bytes(b)| && (p.g2Bytes(a) == p.g2Bytes(b) ==> a == b))
    && (forall a, b | InGT(p.q, a) && InGT(p.q, b) ::
          |p.gtBytes(a)| == |p.gtBytes(b)| && (p.gtBytes(a) == p.gtBytes(b) ==> a == b))
    && (forall b: Bytes :: InG1(p.q, p.hashToGroup(b)))
  }

  lemma KdfInputInjective(p: Primitives, input: GT, nonce: G2, gid: G1, info: Info,
                          input': GT, nonce': G2, gid': G1, info': Info)
    requires SerializationLawful(p)
    requires InGT(p.q, input) && InGT(p.q, input') && InG2(p.q, nonce) && InG2(p.q, nonce')
    requires InG1(p.q, gid) && InG1(p.q, gid')
    requires KdfInput(p, input, nonce, gid, info) == KdfInput(p, input', nonce', gid', info')
    ensures input == input' && nonce == nonce' && gid == gid' && info == info'
  {
    hide DstKdf;
    var d, t, t', n, n', g, g' := DstKdf(), p.gtBytes(input), p.gtBytes(input'), p.g2Bytes(nonce), p.g2Bytes(nonce'),
                                  p.g1Bytes(gid), p.g1Bytes(gid');
    SplitsAlike(d + t + n + g + info.0, [info.1], d + t' + n' + g' + info'.0, [info'.1]);
    SplitsAlike(d + t + n + g, info.0, d + t' + n' + g', info'.0);
    SplitsAlike(d + t + n, g, d + t' + n', g');
    SplitsAlike(d + t, n, d + t', n');
    SplitsAlike(d, t, d, t');
    assert [info.1][0] == [info'.1][0];
  }

  // Two masks are the same under every hash exactly when pairing value, nonce, point, object id and
  // index are.
  lemma MaskDependsOnEveryField(p: Primitives, input: GT, nonce: G2, gid: G1, info: Info,
                                input': GT, nonce': G2, gid': G1, info': Info)
    requires SerializationLawful(p)
    requires InGT(p.q, input) && InGT(p.q, input') && InG2(p.q, nonce) && InG2(p.q, nonce')
    requires InG1(p.q, gid) && InG1(p.q, gid')
    ensures (forall f: Bytes -> Key ::
               Kdf(p.(sha3 := f), input, nonce, gid, info) == Kdf(p.(sha3 := f), input', nonce', gid', info'))
            <==> input == input' && nonce == nonce' && gid == gid' && info == info'
  {
    var x := KdfInput(p, input, nonce, gid, info);
    var f := Marking(x);
    MarksDiffer();
    assert KdfInput(p.(sha3 := f), input, nonce, gid, info) == x;
    assert KdfInput(p.(sha3 := f), input', nonce', gid', info') == KdfInput(p, input', nonce', gid', info');
    hide KdfInput, SerializationLawful;
    if Kdf(p.(sha3 := f), input, nonce, gid, info) == Kdf(p.(sha3 := f), input', nonce', gid', info') {
      KdfInputInjective(p, input, nonce, gid, info, input', nonce', gid', info');
    }
  }

  lemma MaskDeterminedByPlaintext(c: Key, mask: Key, mask': Key)
    ensures Xor(c, mask) == Xor(c, mask') <==> mask == mask'
  {
    hide XorUnchecked;
    XorCancels(mask, c);
    XorCancels(mask', c);
  }

  // Two keys decrypt a ciphertext to the same plaintext under every hash exactly when they pair alike
  // with the nonce: any other key gives, for some hash, another plaintext.
  lemma PlaintextDependsOnPairing(p: Primitives, nonce: G2, ciphertext: Key, secretKey: G1, secretKey': G1, id: Bytes,
                                  info: Info)
    requires SerializationLawful(p) && InG2(p.q, nonce)
    ensures (forall f: Bytes -> Key ::
               Decrypt(p.(sha3 := f), nonce, ciphertext, secretKey, id, info) ==
               Decrypt(p.(sha3 := f), nonce, ciphertext, secretKey', id, info))
            <==> Pairing(p.q, secretKey, nonce) == Pairing(p.q, secretKey', nonce)
  {
    var t, t', gid := Pairing(p.q, secretKey, nonce), Pairing(p.q, secretKey', nonce), HashToG1(p, id);
    if t != t' {
      MaskDependsOnEveryField(p, t, nonce, gid, info, t', nonce, gid, info);
      hide Kdf, Pairing, XorUnchecked, SerializationLawful;
      var f: Bytes -> Key :| Kdf(p.(sha3 := f), t, nonce, gid, info) != Kdf(p.(sha3 := f), t', nonce, gid, info);
      MaskDeterminedByPlaintext(ciphertext, Kdf(p.(sha3 := f), t, nonce, gid, info),
                                Kdf(p.(sha3 := f), t', nonce, gid, info));
      assert Decrypt(p.(sha3 := f), nonce, ciphertext, secretKey, id, info) !=
             Decrypt(p.(sha3 := f), nonce, ciphertext, secretKey', id, info);
    }
  }

  // ----- The encrypted randomness

  // A key opens the encrypted randomness like the key it was encrypted under, for every decoding of
  // scalars, exactly when it is that key.
  lemma RandomnessDependsOnKey(p: Primitives, randomness: nat, key: Key, key': Key)
    ensures (forall f: Key -> Result<nat> ::
               var p' := p.(scalarFromBytes := f);
               DecryptRandomness(p', EncryptRandomness(p, randomness, key), key') == f(p.scalarBytes(randomness)))
            <==> key == key'
  {
    hide XorUnchecked;
    var s := p.scalarBytes(randomness);
    var c := EncryptRandomness(p, randomness, key);
    XorCancels(s, key);
    MaskDeterminedByPlaintext(c, key, key');
    XorSwaps(key, c);
    XorSwaps(key', c);
    var f := (b: Key) => if b == s then Ok(1) else Err(InvalidInput);
    if key != key' {
      assert DecryptRandomness(p.(scalarFromBytes := f), c, key') == Err(InvalidInput);
    }
  }

  lemma XorSwaps(a: Key, b: Key)
    ensures Xor(a, b) == Xor(b, a)
  {
    XorAt(a, b);
    XorAt(b, a);
  }
}
