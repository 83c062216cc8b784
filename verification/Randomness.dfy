// A random number generator as a tape of draws. What is read is explicit, so every statement
// about it holds for every draw.
module Randomness {
  import opened Bytes

  class Rng {
    const bytes: nat -> bv8
    const scalars: nat -> nat
    var bytesRead: nat
    var scalarsRead: nat

    constructor (bytes: nat -> bv8, scalars: nat -> nat)
      ensures this.bytes == bytes && this.scalars == scalars
      ensures bytesRead == 0 && scalarsRead == 0
    {
      this.bytes := bytes;
      this.scalars := scalars;
      bytesRead := 0;
      scalarsRead := 0;
    }

    // The next n bytes on the tape.
    function Upcoming(n: nat): Bytes
      reads this`bytesRead
    {
      TapeSlice(bytes, bytesRead, n)
    }

    method NextByte() returns (b: bv8)
      modifies this`bytesRead
      ensures b == bytes(old(bytesRead)) && bytesRead == old(bytesRead) + 1
    {
      b := bytes(bytesRead);
      bytesRead := bytesRead + 1;
    }

    // A uniform element of the integers modulo q.
    method NextScalar(q: nat) returns (s: nat)
      requires q > 0
      modifies this`scalarsRead
      ensures s == scalars(old(scalarsRead)) % q && scalarsRead == old(scalarsRead) + 1
    {
      s := scalars(scalarsRead) % q;
      scalarsRead := scalarsRead + 1;
    }

    method FillBytes(buffer: array<bv8>)
      modifies this`bytesRead, buffer
      ensures buffer[..] == old(Upcoming(buffer.Length))
      ensures bytesRead == old(bytesRead) + buffer.Length
    {
      for i := 0 to buffer.Length
        invariant bytesRead == old(bytesRead) + i
        invariant forall k | 0 <= k < i :: buffer[k] == bytes(old(bytesRead) + k)
      {
        buffer[i] := NextByte();
      }
    }
  }

  function TapeSlice(bytes: nat -> bv8, from: nat, n: nat): (r: Bytes)
    ensures |r| == n
  {
    seq(n, i requires 0 <= i => bytes(from + i))
  }

  // `rows` consecutive slices of n bytes each.
  function TapeRows(bytes: nat -> bv8, from: nat, rows: nat, n: nat): (r: seq<Bytes>)
    ensures |r| == rows
    ensures forall i | 0 <= i < rows :: |r[i]| == n
    decreases rows
  {
    if rows == 0 then []
    else [TapeSlice(bytes, from, n)] + TapeRows(bytes, from + n, rows - 1, n)
  }

  // The position of entry k of row i in consecutive rows of n entries.
  function RowEntry(i: nat, n: nat, k: nat): nat
  {
    i * n + k
  }

  // Row after row, the entries are the bytes of the tape from `from` on.
  predicate ReadConsecutively(bytes: nat -> bv8, from: nat, rows: seq<Bytes>, n: nat)
  {
    forall i, k | 0 <= i < |rows| && 0 <= k < n :: |rows[i]| == n && rows[i][k] == bytes(from + RowEntry(i, n, k))
  }

  lemma {:induction false} TapeRowsAreConsecutive(bytes: nat -> bv8, from: nat, rows: nat, n: nat)
    ensures ReadConsecutively(bytes, from, TapeRows(bytes, from, rows, n), n)
    decreases rows
  {
    if rows != 0 {
      var r, rest := TapeRows(bytes, from, rows, n), TapeRows(bytes, from + n, rows - 1, n);
      TapeRowsAreConsecutive(bytes, from + n, rows - 1, n);
      forall i, k | 0 <= i < rows && 0 <= k < n
        ensures r[i][k] == bytes(from + RowEntry(i, n, k))
      {
        if i > 0 {
          assert r[i] == rest[i - 1];
          assert n + RowEntry(i - 1, n, k) == RowEntry(i, n, k);
        }
      }
    }
  }
}
