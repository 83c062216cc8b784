// The user secret keys that decryption needs, as the key servers deliver them.
module KeyDelivery {
  import opened Bytes
  import opened Results
  import opened Groups
  import opened Primitives
  import opened Core
  import opened CoreLaws
  import ElGamal
  import IBE

  type Responses = map<ObjectID, ElGamal.Encryption>

  // Every response passes the check on encrypted keys, against each position it serves.
  predicate ResponsesAccepted(p: Primitives, eo: EncryptedObject, responses: Responses, ephemeralVk: G2,
                              publicKeys: PublicKeys)
  {
    forall i | 0 <= i < |eo.services| && i < |publicKeys| && eo.services[i].0 in responses ::
      IBE.VerifyEncryptedSignature(p, responses[eo.services[i].0], ephemeralVk, publicKeys[i],
                                   CreateFullId(eo.packageId, eo.id)).Ok?
  }

  function DecryptedKeys(p: Primitives, responses: Responses, sk: nat): UserSecretKeys
  {
    map server | server in responses :: ElGamal.Decrypt(p.q, sk, responses[server])
  }

  // The keys decrypted from accepted responses are verified keys.
  lemma AcceptedResponsesVerify(p: Primitives, eo: EncryptedObject, responses: Responses, sk: nat,
                                publicKeys: PublicKeys)
    requires ResponsesAccepted(p, eo, responses, ElGamal.GenKey(p.q, sk).vk, publicKeys)
    ensures KeysVerify(p, eo, DecryptedKeys(p, responses, sk), publicKeys)
  {
    hide IBE.VerifyEncryptedSignature, IBE.VerifyUserSecretKey, ElGamal.Decrypt, ElGamal.GenKey;
    var fullId := CreateFullId(eo.packageId, eo.id);
    forall i | 0 <= i < |eo.services| && i < |publicKeys| && eo.services[i].0 in responses
      ensures var key := ElGamal.Decrypt(p.q, sk, responses[eo.services[i].0]);
              IBE.VerifyUserSecretKey(p, key, fullId, publicKeys[i]).Ok?
    {
      IBE.EncryptedSignatureMeansVerifiedKey(p, responses[eo.services[i].0], sk, publicKeys[i], fullId);
    }
  }

  // An honest server's response, a key extracted for the identity and encrypted to the user, is
  // accepted and decrypts to that key, unless a component happens to be the identity element.
  lemma HonestResponse(p: Primitives, masterKey: nat, sk: nat, r: nat, id: Bytes)
    ensures var keys := ElGamal.GenKey(p.q, sk);
            var key := IBE.Extract(p, masterKey, id);
            var response := ElGamal.Encrypt(p.q, r, key, keys.pk);
            var publicKey := IBE.PublicKeyFromMasterKey(p, masterKey);
            && ElGamal.Decrypt(p.q, sk, response) == key
            && IBE.VerifyUserSecretKey(p, key, id, publicKey).Ok?
            && (IBE.VerifyEncryptedSignature(p, response, keys.vk, publicKey, id).Ok? <==>
                response.e0 != G1Zero() && response.e1 != G1Zero() && sk % p.q != 0 && publicKey != G2Zero())
  {
    hide IBE.VerifyUserSecretKey, IBE.VerifyEncryptedSignature, ElGamal.Decrypt, ElGamal.Encrypt, G2Mul, G2Generator;
    hide IBE.HashToG1;
    var keys := ElGamal.GenKey(p.q, sk);
    var key := IBE.Extract(p, masterKey, id);
    ElGamal.DecryptUndoesEncrypt(p.q, sk, r, key);
    IBE.VerifiedMeansExtracted(p, key, id, masterKey);
    IBE.EncryptedSignatureMeansVerifiedKey(p, ElGamal.Encrypt(p.q, r, key, keys.pk), sk,
                                           IBE.PublicKeyFromMasterKey(p, masterKey), id);
  }

  // Keys extracted by the servers for the identity of an object are verified keys.
  lemma ExtractedKeysVerify(p: Primitives, eo: EncryptedObject, userSecretKeys: UserSecretKeys, masterKeys: seq<nat>,
                            publicKeys: PublicKeys)
    requires |masterKeys| == |publicKeys|
    requires forall i | 0 <= i < |publicKeys| :: publicKeys[i] == IBE.PublicKeyFromMasterKey(p, masterKeys[i])
    requires forall i | 0 <= i < |eo.services| && i < |publicKeys| && eo.services[i].0 in userSecretKeys ::
               userSecretKeys[eo.services[i].0] == IBE.Extract(p, masterKeys[i], CreateFullId(eo.packageId, eo.id))
    ensures KeysVerify(p, eo, userSecretKeys, publicKeys)
  {
    hide IBE.VerifyUserSecretKey, IBE.PublicKeyFromMasterKey, IBE.HashToG1;
    var fullId := CreateFullId(eo.packageId, eo.id);
    forall i | 0 <= i < |eo.services| && i < |publicKeys| && eo.services[i].0 in userSecretKeys
      ensures IBE.VerifyUserSecretKey(p, userSecretKeys[eo.services[i].0], fullId, publicKeys[i]).Ok?
    {
      IBE.VerifiedMeansExtracted(p, userSecretKeys[eo.services[i].0], fullId, masterKeys[i]);
    }
  }
}
