// The hash input of key derivation determines its fields, and when the two sides of the protocol
// derive their keys from the same input.
module KeyInputs {
  import opened Bytes
  import opened Results
  import opened Primitives
  import opened TSS
  import opened Utils
  import opened DEM
  import opened DEMLaws
  import opened Core
  import opened Dependence
  import opened RoundTrip
  import IBE

  lemma {:induction false} FlattenInjective(a: seq<Key>, b: seq<Key>)
    requires Flatten(a) == Flatten(b)
    ensures a == b
  {
    if a != [] && b != [] {
      var i, j := |a| - 1, |b| - 1;
      assert |Flatten(a[..i])| == |Flatten(b[..j])|;
      SplitsAlike(Flatten(a[..i]), a[i], Flatten(b[..j]), b[j]);
      FlattenInjective(a[..i], b[..j]);
      assert a == a[..i] + [a[i]] && b == b[..j] + [b[j]];
    }
  }

  // With as many shares as servers on each side, even if the two sides have different numbers, the
  // input determines every field.
  lemma DeriveKeyInputInjective(purpose: KeyPurpose, baseKey: Key, shares: seq<Key>, threshold: u8,
                                servers: seq<ObjectID>,
                                purpose': KeyPurpose, baseKey': Key, shares': seq<Key>, threshold': u8,
                                servers': seq<ObjectID>)
    requires |shares| == |servers| && |shares'| == |servers'|
    requires DeriveKeyInput(purpose, baseKey, shares, threshold, servers) ==
             DeriveKeyInput(purpose', baseKey', shares', threshold', servers')
    ensures purpose == purpose' && baseKey == baseKey' && threshold == threshold'
    ensures shares == shares' && servers == servers'
  {
    hide Header, Flatten;
    var h, h' := Header(purpose, baseKey, threshold), Header(purpose', baseKey', threshold');
    var s, s', k, k' := Flatten(shares), Flatten(shares'), Flatten(servers), Flatten(servers');
    HeaderLength(purpose, baseKey, threshold);
    HeaderLength(purpose', baseKey', threshold');
    assert |s| == |k| && |s'| == |k'|;
    SplitsAlike(h + s, k, h' + s', k');
    SplitsAlike(h, s, h', s');
    HeaderInjective(purpose, baseKey, threshold, purpose', baseKey', threshold');
    FlattenInjective(shares, shares');
    FlattenInjective(servers, servers');
  }

  // Two derived keys are the same under every hash exactly when all their fields are the same: no
  // field is left out of the derivation.
  lemma DerivedKeyDependsOnEveryField(
    p: Primitives, purpose: KeyPurpose, baseKey: Key, shares: seq<Key>, threshold: u8, servers: seq<ObjectID>,
    purpose': KeyPurpose, baseKey': Key, shares': seq<Key>, threshold': u8, servers': seq<ObjectID>)
    requires |shares| == |servers| && |shares'| == |servers'|
    ensures (forall f: Bytes -> Key ::
               DeriveKey(p.(sha3 := f), purpose, baseKey, shares, threshold, servers) ==
               DeriveKey(p.(sha3 := f), purpose', baseKey', shares', threshold', servers'))
            <==>
            && purpose == purpose' && baseKey == baseKey' && threshold == threshold'
            && shares == shares' && servers == servers'
  {
    hide DeriveKeyInput;
    var f := Marking(DeriveKeyInput(purpose, baseKey, shares, threshold, servers));
    MarksDiffer();
    if DeriveKey(p.(sha3 := f), purpose, baseKey, shares, threshold, servers) ==
       DeriveKey(p.(sha3 := f), purpose', baseKey', shares', threshold', servers') {
      DeriveKeyInputInjective(purpose, baseKey, shares, threshold, servers,
                              purpose', baseKey', shares', threshold', servers');
    }
  }

  lemma HeaderLength(purpose: KeyPurpose, baseKey: Key, threshold: u8)
    ensures |Header(purpose, baseKey, threshold)| == |DstDeriveKey()| + KEY_SIZE + 2
  {}

  lemma HeaderInjective(purpose: KeyPurpose, baseKey: Key, threshold: u8, purpose': KeyPurpose, baseKey': Key,
                        threshold': u8)
    requires Header(purpose, baseKey, threshold) == Header(purpose', baseKey', threshold')
    ensures purpose == purpose' && baseKey == baseKey' && threshold == threshold'
  {
    hide DstDeriveKey, PurposeTag, Byte;
    var d, t, t' := DstDeriveKey(), PurposeTag(purpose), PurposeTag(purpose');
    TagsAreSingleBytes();
    SplitsAlike(d + baseKey + t, [Byte(threshold)], d + baseKey' + t', [Byte(threshold')]);
    SplitsAlike(d + baseKey, t, d + baseKey', t');
    SplitsAlike(d, baseKey, d, baseKey');
    assert [Byte(threshold)][0] == [Byte(threshold')][0];
    ByteInjective(threshold, threshold');
  }

  lemma TagsAreSingleBytes()
    ensures |PurposeTag(EncryptedRandomness)| == |PurposeTag(DemKey)| == 1
    ensures PurposeTag(EncryptedRandomness) != PurposeTag(DemKey)
  {
    assert PurposeTag(EncryptedRandomness)[0] != PurposeTag(DemKey)[0];
  }

  // Encryption derives its keys from the list of key servers and decryption from the services that
  // the object lists. The hash inputs are the same exactly when there are at most 255 servers: past
  // that the number of shares wraps around and the object loses servers.
  lemma BothSidesHashTheSame(p: Primitives, r: Request, purpose: KeyPurpose)
    requires Encrypted(p, r).Ok?
    ensures var eo := Encrypted(p, r).value.0;
            var shares := eo.encryptedShares.encryptedShares;
            && |eo.services| == |r.keyServers| % 256
            && (DeriveKeyInput(purpose, r.draw.baseKey, shares, r.threshold, r.keyServers) ==
                DeriveKeyInput(purpose, r.draw.baseKey, shares, r.threshold, Firsts(eo.services))
                <==> |r.keyServers| <= 255)
  {
    hide SplitBaseKey, IBE.EncryptBatchedDeterministic, IBE.EncryptRandomness, DeriveKey, DEM.Encrypt, Header, Flatten;
    hide ShareIndices;
    var listed := Firsts(Encrypted(p, r).value.0.services);
    SplitBaseKeyWorks(r.draw.baseKey, r.threshold, |r.keyServers| % 256, r.draw.coefficients);
    if |r.keyServers| <= 255 {
      assert listed == r.keyServers;
    } else {
      assert |Flatten(listed)| < |Flatten(r.keyServers)|;
    }
  }
}
