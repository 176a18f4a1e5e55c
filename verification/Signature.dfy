/** The data of the v2 signature pipeline: blocks, the segments read from them, and hashed segments. */
module Signature {
  import Words

  datatype Block = Block(id: nat, offset: nat, size: nat, chunkSize: nat) {
    predicate Valid() { size > 0 && chunkSize > 0 }

    function ChunksCount(): nat
      requires chunkSize > 0
    {
      size / chunkSize
    }

    function TailSize(): nat
      requires chunkSize > 0
    {
      size % chunkSize
    }
  }

  datatype Segment = Segment(blockId: nat, chunkSize: nat, chunkCount: nat, tailSize: nat, firstChunkId: nat,
                             memory: seq<bv8>)

  datatype HashedSegment = HashedSegment(blockId: nat, firstChunkId: nat, chunkCount: nat, memory: seq<bv8>)

  lemma MulDiv(k: nat, c: nat)
    requires c > 0
    ensures (k * c) / c == k && (k * c) % c == 0
  {
    Words.DivUnique(k * c, c, k, 0);
  }

  lemma AddDiv(k: nat, c: nat, n: nat)
    requires c > 0
    ensures (k * c + n) / c == k + n / c && (k * c + n) % c == n % c
  {
    var q, r := n / c, n % c;
    Words.Distribute(k, q, c);
    Words.DivUnique(k * c + n, c, k + q, r);
  }

  lemma PositiveQuotient(n: nat, c: nat)
    requires c > 0
    ensures n / c >= 1 <==> n >= c
  {
    if n < c { Words.DivUnique(n, c, 0, n); } else { AddDiv(1, c, n - c); }
  }
}
