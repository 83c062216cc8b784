// Data encapsulation (src/seal/dem.rs): AES-256-GCM, counter mode over HMAC-SHA3-256 with a MAC,
// and the mode that exposes the key itself.
module DEM {
  import opened Bytes
  import opened Results
  import opened Primitives
  import opened Utils

  datatype Option<T> = None | Some(value: T)

  datatype EncryptionInput =
    | AesInput(data: Bytes, aad: Option<Bytes>)
    | HmacCtrInput(data: Bytes, aad: Option<Bytes>)
    | PlainInput

  datatype Ciphertext =
    | AesCiphertext(blob: Bytes, aad: Option<Bytes>)
    | HmacCtrCiphertext(blob: Bytes, aad: Option<Bytes>, mac: Key)
    | PlainCiphertext

  datatype Purpose = Encryption | MAC

  function AadBytes(aad: Option<Bytes>): Bytes
  {
    if aad.Some? then aad.value else []
  }

  // The fixed initialization vector; every key encrypts once.
  function AesIv(): Bytes
  {
    [138, 55, 153, 253, 198, 46, 121, 219, 160, 128, 89, 7, 214, 156, 148, 220]
  }

  function Tag(purpose: Purpose): Bytes
  {
    match purpose
    case Encryption => Ascii("HMAC-CTR-ENC")
    case MAC => Ascii("HMAC-CTR-MAC")
  }

  function HmacInput(purpose: Purpose, data: Bytes): Bytes
  {
    Tag(purpose) + data
  }

  function Hmac(p: Primitives, purpose: Purpose, key: Key, data: Bytes): Key
  {
    p.hmacSha3(key, HmacInput(purpose, data))
  }

  // The low k bytes of n, least significant first.
  function LittleEndian(n: nat, k: nat): (r: Bytes)
    ensures |r| == k
    decreases k
  {
    if k == 0 then [] else [Byte(n % 256)] + LittleEndian(n / 256, k - 1)
  }

  // A u64 in the BCS encoding; the eight low bytes of n are those of n as u64.
  function ToBytes(n: nat): (r: Bytes)
    ensures |r| == 8
  {
    LittleEndian(n, 8)
  }

  // Masks chunks of 32 bytes, numbered from i; the last one may be shorter than its mask.
  function CtrFrom(p: Primitives, key: Key, msg: Bytes, i: nat): (r: Bytes)
    ensures |r| == |msg|
    decreases |msg|
  {
    if msg == [] then []
    else
      var n := if |msg| < KEY_SIZE then |msg| else KEY_SIZE;
      var mask := Hmac(p, Encryption, key, ToBytes(i));
      XorAt(msg[..n], mask);
      XorUnchecked(msg[..n], mask) + CtrFrom(p, key, msg[n..], i + 1)
  }

  function EncryptInCtrMode(p: Primitives, key: Key, msg: Bytes): (r: Bytes)
    ensures |r| == |msg|
  {
    CtrFrom(p, key, msg, 0)
  }

  function MacInput(aad: Bytes, ciphertext: Bytes): Bytes
  {
    ToBytes(|aad|) + aad + ciphertext
  }

  function ComputeMac(p: Primitives, key: Key, aad: Bytes, ciphertext: Bytes): Key
  {
    Hmac(p, MAC, key, MacInput(aad, ciphertext))
  }

  function HmacCtrEncrypt(p: Primitives, msg: Bytes, aad: Bytes, key: Key): (Bytes, Key)
  {
    var ciphertext := EncryptInCtrMode(p, key, msg);
    (ciphertext, ComputeMac(p, key, aad, ciphertext))
  }

  function HmacCtrDecrypt(p: Primitives, ciphertext: Bytes, mac: Key, aad: Bytes, key: Key): Result<Bytes>
  {
    if mac != ComputeMac(p, key, aad, ciphertext) then Err(GeneralError("Invalid MAC"))
    else Ok(EncryptInCtrMode(p, key, ciphertext))
  }

  function Encrypt(p: Primitives, input: EncryptionInput, key: Key): Ciphertext
  {
    match input
    case AesInput(data, aad) => AesCiphertext(p.aesEncrypt(key, AesIv(), AadBytes(aad), data), aad)
    case HmacCtrInput(data, aad) =>
      var (blob, mac) := HmacCtrEncrypt(p, data, AadBytes(aad), key);
      HmacCtrCiphertext(blob, aad, mac)
    case PlainInput => PlainCiphertext
  }

  function Decrypt(p: Primitives, ciphertext: Ciphertext, key: Key): Result<Bytes>
  {
    match ciphertext
    case AesCiphertext(blob, aad) => p.aesDecrypt(key, AesIv(), AadBytes(aad), blob)
    case HmacCtrCiphertext(blob, aad, mac) => HmacCtrDecrypt(p, blob, mac, AadBytes(aad), key)
    case PlainCiphertext => Ok(key)
  }
}
