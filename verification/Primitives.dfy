// The cryptographic primitives that the program takes from its libraries. Each is an arbitrary
// total function; only two laws are ever asked of them.
module Primitives {
  import opened Bytes
  import opened Results
  import opened Groups

  const KEY_SIZE: nat := 32

  // A 32-byte array: keys, digests, object identifiers and masked scalars.
  type Key = b: Bytes | |b| == KEY_SIZE witness seq(KEY_SIZE, i => 0)

  datatype Primitives = Primitives(
    q: Order,
    hashToGroup: Bytes -> G1,
    sha3: Bytes -> Key,
    // key, data
    hmacSha3: (Key, Bytes) -> Key,
    // key, iv, additional data, message or ciphertext
    aesEncrypt: (Key, Bytes, Bytes, Bytes) -> Bytes,
    aesDecrypt: (Key, Bytes, Bytes, Bytes) -> Result<Bytes>,
    scalarBytes: nat -> Key,
    scalarFromBytes: Key -> Result<nat>,
    g1Bytes: G1 -> Bytes,
    g2Bytes: G2 -> Bytes,
    gtBytes: GT -> Bytes)

  // Authenticated decryption undoes encryption, and scalars survive serialization.
  ghost predicate Lawful(p: Primitives)
  {
    && AesLawful(p)
    && ScalarLawful(p)
  }

  ghost predicate AesLawful(p: Primitives)
  {
    forall key, iv, aad, msg :: p.aesDecrypt(key, iv, aad, p.aesEncrypt(key, iv, aad, msg)) == Ok(msg)
  }

  ghost predicate ScalarLawful(p: Primitives)
  {
    forall s: nat | s < p.q :: p.scalarFromBytes(p.scalarBytes(s)) == Ok(s)
  }

  // The bytes of an ASCII literal.
  function Ascii(s: string): (r: Bytes)
    ensures |r| == |s|
  {
    seq(|s|, i requires 0 <= i < |s| => Byte(s[i] as nat % 256))
  }

  // An incremental hash: updates are absorbed in order.
  class Hasher {
    const primitives: Primitives
    var absorbed: Bytes

    constructor (primitives: Primitives)
      ensures this.primitives == primitives && absorbed == []
    {
      this.primitives := primitives;
      absorbed := [];
    }

    method Update(data: Bytes)
      modifies this`absorbed
      ensures absorbed == old(absorbed) + data
    {
      absorbed := absorbed + data;
    }

    method Finalize() returns (digest: Key)
      ensures digest == primitives.sha3(absorbed)
    {
      digest := primitives.sha3(absorbed);
    }
  }
}
