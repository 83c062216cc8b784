// Counter mode byte by byte, the round trips of the three modes, and the unambiguity of the
// HMAC inputs.
module DEMLaws {
  import opened Bytes
  import opened Results
  import opened Primitives
  import opened Utils
  import opened DEM
  import opened Dependence

  // ----- Counter mode

  // The key stream: byte at % 32 of block at / 32.
  function KeyStream(p: Primitives, key: Key, at: nat): bv8
  {
    Hmac(p, Encryption, key, ToBytes(at / KEY_SIZE))[at % KEY_SIZE]
  }

  lemma KeyStreamInBlock(p: Primitives, key: Key, i: nat, at: nat)
    requires at < KEY_SIZE
    ensures KeyStream(p, key, KEY_SIZE * i + at) == Hmac(p, Encryption, key, ToBytes(i))[at]
  {
    hide Hmac, ToBytes;
    assert (KEY_SIZE * i + at) / KEY_SIZE == i && (KEY_SIZE * i + at) % KEY_SIZE == at;
  }

  lemma {:induction false} CtrFromByBytes(p: Primitives, key: Key, msg: Bytes, i: nat)
    ensures forall at | 0 <= at < |msg| ::
              CtrFrom(p, key, msg, i)[at] == msg[at] ^ KeyStream(p, key, KEY_SIZE * i + at)
    decreases |msg|
  {
    hide Hmac, ToBytes, KeyStream;
    if msg != [] {
      var n := if |msg| < KEY_SIZE then |msg| else KEY_SIZE;
      var mask := Hmac(p, Encryption, key, ToBytes(i));
      var first, rest := XorUnchecked(msg[..n], mask), CtrFrom(p, key, msg[n..], i + 1);
      XorAt(msg[..n], mask);
      assert CtrFrom(p, key, msg, i) == first + rest;
      CtrFromByBytes(p, key, msg[n..], i + 1);
      hide CtrFrom, XorUnchecked;
      forall at | 0 <= at < |msg|
        ensures (first + rest)[at] == msg[at] ^ KeyStream(p, key, KEY_SIZE * i + at)
      {
        if at < n {
          KeyStreamInBlock(p, key, i, at);
        } else {
          assert KEY_SIZE * i + at == KEY_SIZE * (i + 1) + (at - n);
          assert msg[n..][at - n] == msg[at];
        }
      }
    }
  }

  // The chunked form masks each byte with the byte of the key stream at its position.
  lemma CtrModeByBytes(p: Primitives, key: Key, msg: Bytes)
    ensures forall at | 0 <= at < |msg| :: EncryptInCtrMode(p, key, msg)[at] == msg[at] ^ KeyStream(p, key, at)
  {
    hide CtrFrom, KeyStream;
    CtrFromByBytes(p, key, msg, 0);
  }

  lemma CtrModeIsItsOwnInverse(p: Primitives, key: Key, msg: Bytes)
    ensures EncryptInCtrMode(p, key, EncryptInCtrMode(p, key, msg)) == msg
  {
    hide KeyStream, EncryptInCtrMode;
    var c := EncryptInCtrMode(p, key, msg);
    CtrModeByBytes(p, key, msg);
    CtrModeByBytes(p, key, c);
    forall at | 0 <= at < |msg|
      ensures EncryptInCtrMode(p, key, c)[at] == msg[at]
    {
      XorBytesCancel(msg[at], KeyStream(p, key, at));
    }
  }

  lemma CtrModeMapsPrefixes(p: Primitives, key: Key, msg: Bytes, n: nat)
    requires n <= |msg|
    ensures EncryptInCtrMode(p, key, msg[..n]) == EncryptInCtrMode(p, key, msg)[..n]
  {
    hide KeyStream, EncryptInCtrMode;
    CtrModeByBytes(p, key, msg);
    CtrModeByBytes(p, key, msg[..n]);
    var a, b := EncryptInCtrMode(p, key, msg[..n]), EncryptInCtrMode(p, key, msg)[..n];
    forall at | 0 <= at < n
      ensures a[at] == b[at]
    {
      assert msg[..n][at] == msg[at];
    }
  }

  // ----- Round trips

  // Decryption succeeds exactly under the computed MAC, and then gives the message back.
  lemma HmacCtrRoundTrip(p: Primitives, msg: Bytes, aad: Bytes, key: Key, mac: Key)
    ensures var (ciphertext, computed) := HmacCtrEncrypt(p, msg, aad, key);
            HmacCtrDecrypt(p, ciphertext, mac, aad, key) ==
            if mac == computed then Ok(msg) else Err(GeneralError("Invalid MAC"))
  {
    CtrModeIsItsOwnInverse(p, key, msg);
  }

  // The plaintext, or the key itself in plain mode.
  function Expected(input: EncryptionInput, key: Key): Bytes
  {
    if input.PlainInput? then key else input.data
  }

  lemma RoundTrip(p: Primitives, input: EncryptionInput, key: Key)
    requires AesLawful(p)
    ensures Decrypt(p, Encrypt(p, input, key), key) == Ok(Expected(input, key))
  {
    hide AesIv, HmacCtrEncrypt, HmacCtrDecrypt;
    match input
    case AesInput(data, aad) =>
    case HmacCtrInput(data, aad) =>
      var (_, mac) := HmacCtrEncrypt(p, data, AadBytes(aad), key);
      HmacCtrRoundTrip(p, data, AadBytes(aad), key, mac);
    case PlainInput =>
  }

  // ----- Unambiguous inputs

  function PowerOf256(k: nat): nat
  {
    if k == 0 then 1 else 256 * PowerOf256(k - 1)
  }

  // The number that bytes encode, least significant first.
  function FromLittleEndian(bytes: Bytes): nat
  {
    if bytes == [] then 0 else Value(bytes[0]) + 256 * FromLittleEndian(bytes[1..])
  }

  lemma {:induction false} LittleEndianRoundTrip(n: nat, k: nat)
    requires n < PowerOf256(k)
    ensures FromLittleEndian(LittleEndian(n, k)) == n
    decreases k
  {
    hide Byte, Value;
    if k != 0 {
      var bytes := LittleEndian(n, k);
      assert bytes[0] == Byte(n % 256) && bytes[1..] == LittleEndian(n / 256, k - 1);
      ValueOfByte(n % 256);
      LittleEndianRoundTrip(n / 256, k - 1);
    }
  }

  const U64_BOUND: nat := 0x1_0000_0000_0000_0000

  lemma U64BoundIsPower()
    ensures PowerOf256(8) == U64_BOUND
  {
    assert PowerOf256(4) == 0x1_0000_0000;
    assert PowerOf256(6) == 0x1_0000_0000_0000;
  }

  // The eight bytes of a u64 are its little-endian digits.
  lemma ToBytesRoundTrip(n: nat)
    requires n < U64_BOUND
    ensures FromLittleEndian(ToBytes(n)) == n
  {
    hide LittleEndian, PowerOf256, FromLittleEndian;
    U64BoundIsPower();
    LittleEndianRoundTrip(n, 8);
  }

  lemma ToBytesInjective(n: nat, m: nat)
    requires n < U64_BOUND && m < U64_BOUND && ToBytes(n) == ToBytes(m)
    ensures n == m
  {
    hide ToBytes, FromLittleEndian;
    ToBytesRoundTrip(n);
    ToBytesRoundTrip(m);
  }

  // The length prefix makes the MAC input determine the additional data and the ciphertext.
  lemma MacInputInjective(aad: Bytes, c: Bytes, aad': Bytes, c': Bytes)
    requires |aad| < U64_BOUND && |aad'| < U64_BOUND
    requires MacInput(aad, c) == MacInput(aad', c')
    ensures aad == aad' && c == c'
  {
    hide ToBytes;
    var l, l' := ToBytes(|aad|), ToBytes(|aad'|);
    assert MacInput(aad, c) == l + (aad + c) && MacInput(aad', c') == l' + (aad' + c');
    SplitsAlike(l, aad + c, l', aad' + c');
    ToBytesInjective(|aad|, |aad'|);
    SplitsAlike(aad, c, aad', c');
  }

  lemma TagsDiffer()
    ensures |Tag(Encryption)| == |Tag(MAC)| && Tag(Encryption) != Tag(MAC)
  {
    hide Byte;
    ByteInjectiveContrapositive('E' as nat, 'M' as nat);
    assert Tag(Encryption)[9] == Byte('E' as nat % 256);
    assert Tag(MAC)[9] == Byte('M' as nat % 256);
  }

  lemma ByteInjectiveContrapositive(n: nat, m: nat)
    requires n < 256 && m < 256 && n != m
    ensures Byte(n) != Byte(m)
  {
    hide Byte;
    if Byte(n) == Byte(m) {
      ByteInjective(n, m);
    }
  }

  // An HMAC input determines its purpose and its data, so a key stream block and a MAC are never
  // computed from the same input.
  lemma HmacInputInjective(purpose: Purpose, data: Bytes, purpose': Purpose, data': Bytes)
    requires HmacInput(purpose, data) == HmacInput(purpose', data')
    ensures purpose == purpose' && data == data'
  {
    hide Tag;
    TagsDiffer();
    SplitsAlike(Tag(purpose), data, Tag(purpose'), data');
  }

  // ----- What the keyed values depend on

  // Two HMAC values are the same under every HMAC function exactly when purpose, key and data are.
  lemma HmacDependsOnEveryField(p: Primitives, purpose: Purpose, key: Key, data: Bytes,
                                purpose': Purpose, key': Key, data': Bytes)
    ensures (forall f: (Key, Bytes) -> Key ::
               Hmac(p.(hmacSha3 := f), purpose, key, data) == Hmac(p.(hmacSha3 := f), purpose', key', data'))
            <==> purpose == purpose' && key == key' && data == data'
  {
    hide HmacInput;
    var f := MarkingKeyed(key, HmacInput(purpose, data), OneKey());
    MarksDiffer();
    if Hmac(p.(hmacSha3 := f), purpose, key, data) == Hmac(p.(hmacSha3 := f), purpose', key', data') {
      HmacInputInjective(purpose, data, purpose', data');
    }
  }

  // Every position under every key has its own byte of key stream.
  lemma KeyStreamDependsOnKeyAndPosition(p: Primitives, key: Key, at: nat, key': Key, at': nat)
    requires at / KEY_SIZE < U64_BOUND && at' / KEY_SIZE < U64_BOUND
    ensures (forall f: (Key, Bytes) -> Key ::
               KeyStream(p.(hmacSha3 := f), key, at) == KeyStream(p.(hmacSha3 := f), key', at'))
            <==> key == key' && at == at'
  {
    hide HmacInput, ToBytes;
    var block, offset := ToBytes(at / KEY_SIZE), at % KEY_SIZE;
    var digest: Key := seq(KEY_SIZE, i => if i == offset then 1 else 0);
    var f := MarkingKeyed(key, HmacInput(Encryption, block), digest);
    assert KeyStream(p.(hmacSha3 := f), key, at) == 1;
    if KeyStream(p.(hmacSha3 := f), key', at') == 1 {
      HmacInputInjective(Encryption, block, Encryption, ToBytes(at' / KEY_SIZE));
      ToBytesInjective(at / KEY_SIZE, at' / KEY_SIZE);
    }
  }

  // The MAC depends on the key, on the additional data and on the ciphertext.
  lemma MacDependsOnEveryField(p: Primitives, key: Key, aad: Bytes, c: Bytes, key': Key, aad': Bytes, c': Bytes)
    requires |aad| < U64_BOUND && |aad'| < U64_BOUND
    ensures (forall f: (Key, Bytes) -> Key ::
               ComputeMac(p.(hmacSha3 := f), key, aad, c) == ComputeMac(p.(hmacSha3 := f), key', aad', c'))
            <==> key == key' && aad == aad' && c == c'
  {
    hide HmacInput, MacInput;
    var f := MarkingKeyed(key, HmacInput(MAC, MacInput(aad, c)), OneKey());
    MarksDiffer();
    if ComputeMac(p.(hmacSha3 := f), key, aad, c) == ComputeMac(p.(hmacSha3 := f), key', aad', c') {
      HmacInputInjective(MAC, MacInput(aad, c), MAC, MacInput(aad', c'));
      MacInputInjective(aad, c, aad', c');
    }
  }

  // The MAC of one ciphertext, additional data and key is accepted for another under every HMAC
  // function exactly when nothing was altered; otherwise some HMAC function rejects it.
  lemma AlteredCiphertextRejected(p: Primitives, key: Key, aad: Option<Bytes>, c: Bytes,
                                  key': Key, aad': Option<Bytes>, c': Bytes)
    requires |AadBytes(aad)| < U64_BOUND && |AadBytes(aad')| < U64_BOUND
    ensures (forall f: (Key, Bytes) -> Key ::
               var p' := p.(hmacSha3 := f);
               Decrypt(p', HmacCtrCiphertext(c', aad', ComputeMac(p', key, AadBytes(aad), c)), key') !=
               Err(GeneralError("Invalid MAC")))
            <==> key == key' && AadBytes(aad) == AadBytes(aad') && c == c'
  {
    hide EncryptInCtrMode, AadBytes;
    var a, a' := AadBytes(aad), AadBytes(aad');
    MacDependsOnEveryField(p, key, a, c, key', a', c');
    if !(key == key' && a == a' && c == c') {
      var f: (Key, Bytes) -> Key :|
        ComputeMac(p.(hmacSha3 := f), key, a, c) != ComputeMac(p.(hmacSha3 := f), key', a', c');
      assert Decrypt(p.(hmacSha3 := f), HmacCtrCiphertext(c', aad', ComputeMac(p.(hmacSha3 := f), key, a, c)), key') ==
             Err(GeneralError("Invalid MAC"));
    }
  }

  // Absent additional data counts as empty, and present data as itself.
  lemma AadMeaning(aad: Option<Bytes>, b: Bytes)
    ensures AadBytes(aad) == b <==> aad == Some(b) || (aad == None && b == [])
  {}

  // AES decryption depends on the key, on the additional data and on the ciphertext.
  lemma AesDependsOnEveryField(p: Primitives, key: Key, aad: Option<Bytes>, blob: Bytes,
                               key': Key, aad': Option<Bytes>, blob': Bytes)
    ensures (forall f: (Key, Bytes, Bytes, Bytes) -> Result<Bytes> ::
               Decrypt(p.(aesDecrypt := f), AesCiphertext(blob, aad), key) ==
               Decrypt(p.(aesDecrypt := f), AesCiphertext(blob', aad'), key'))
            <==> key == key' && AadBytes(aad) == AadBytes(aad') && blob == blob'
  {
    hide AadBytes, AesIv;
    var a := AadBytes(aad);
    var f := (k: Key, iv: Bytes, d: Bytes, c: Bytes) =>
      if k == key && d == a && c == blob then Ok([]) else Err(InvalidInput);
    assert Decrypt(p.(aesDecrypt := f), AesCiphertext(blob, aad), key) == Ok([]);
    if !(key == key' && a == AadBytes(aad') && blob == blob') {
      assert Decrypt(p.(aesDecrypt := f), AesCiphertext(blob', aad'), key') == Err(InvalidInput);
    }
  }
}
