// Functions that tell one input from all others. A keyed or hashed value depends on a field exactly
// when some choice of the primitive makes it change with that field.
module Dependence {
  import opened Bytes
  import opened Primitives

  function ZeroKey(): Key
  {
    seq(KEY_SIZE, i => 0)
  }

  function OneKey(): Key
  {
    seq(KEY_SIZE, i => 1)
  }

  // A hash that gives x alone a digest of ones.
  function Marking(x: Bytes): Bytes -> Key
  {
    y => if y == x then OneKey() else ZeroKey()
  }

  // A keyed hash that gives key and data alone the given digest.
  function MarkingKeyed(key: Key, data: Bytes, digest: Key): (Key, Bytes) -> Key
  {
    (k: Key, d: Bytes) => MarkedDigest(key, data, digest, k, d)
  }

  function MarkedDigest(key: Key, data: Bytes, digest: Key, k: Key, d: Bytes): Key
  {
    if k == key && d == data then digest else ZeroKey()
  }

  lemma MarksDiffer()
    ensures OneKey() != ZeroKey()
  {
    assert OneKey()[0] != ZeroKey()[0];
  }
}
