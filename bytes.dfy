/** Raw bytes as the socket calls see them, and the concatenation of chunks. */
module Bytes {

  /** One `char` of the transfer buffer, read as an unsigned value. */
  newtype byte = x: int | 0 <= x < 256

  /** What one read delivers or one write accepts. */
  type Chunk = seq<byte>

  /** The chunks laid end to end, in order. */
  function Concat(pieces: seq<Chunk>): Chunk
  {
    if pieces == [] then [] else pieces[0] + Concat(pieces[1..])
  }

  lemma {:induction false} ConcatAppend(a: seq<Chunk>, b: seq<Chunk>)
    ensures Concat(a + b) == Concat(a) + Concat(b)
  {
    if a == [] {
      assert a + b == b;
    } else {
      assert (a + b)[1..] == a[1..] + b;
      ConcatAppend(a[1..], b);
    }
  }

  lemma ConcatSingle(c: Chunk)
    ensures Concat([c]) == c
  {
    assert [c][1..] == [];
  }

  /** `n` NUL bytes: what `memset(buffer, '\0', n)` leaves behind. */
  function Zeros(n: nat): (z: Chunk)
    ensures |z| == n
    ensures forall i :: 0 <= i < n ==> z[i] == 0
  {
    seq(n, _ => 0)
  }
}
