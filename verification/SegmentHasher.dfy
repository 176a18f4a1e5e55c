/** Hashing a segment: four bytes for every chunk, and four more for the tail. */
module SegmentHasher {
  import opened Signature
  import Words

  /** compute_crc32 is left uninterpreted. */
  type Crc = seq<bv8> -> bv32

  /** The bytes of a word in memory, least significant first. */
  function Bytes(crc: bv32): (b: seq<bv8>)
    ensures |b| == 4
  {
    [(crc & 0xFF) as bv8, ((crc >> 8) & 0xFF) as bv8, ((crc >> 16) & 0xFF) as bv8, (crc >> 24) as bv8]
  }

  /** The word that four bytes make on a machine that keeps the least significant one first. */
  function WordAt(h: seq<bv8>, i: nat): bv32
    requires i + 4 <= |h|
  {
    ((h[i + 3] as bv32) << 24) | ((h[i + 2] as bv32) << 16) | ((h[i + 1] as bv32) << 8) | (h[i] as bv32)
  }

  /** Four bytes make one word, and each byte has its weight. */
  lemma BytesOfWord(crc: bv32)
    ensures WordAt(Bytes(crc), 0) == crc
    ensures var b := Bytes(crc);
            b[0] as bv32 == crc & 0xFF && b[1] as bv32 == (crc >> 8) & 0xFF
            && b[2] as bv32 == (crc >> 16) & 0xFF && b[3] as bv32 == crc >> 24
  {
  }

  function Hashes(crc: Crc, memory: seq<bv8>, c: nat): (h: seq<bv8>)
    requires c > 0
  {
    if memory == [] then []
    else if |memory| <= c then Bytes(crc(memory))
    else Bytes(crc(memory[..c])) + Hashes(crc, memory[c..], c)
  }

  lemma {:induction false} HashesLength(crc: Crc, memory: seq<bv8>, c: nat)
    requires c > 0
    ensures |Hashes(crc, memory, c)| == 4 * (|memory| / c + (if |memory| % c > 0 then 1 else 0))
  {
    hide Bytes;
    var n := |memory|;
    if n > c {
      HashesLength(crc, memory[c..], c);
      AddDiv(1, c, n - c);
    } else if n == c {
      Words.DivUnique(n, c, 1, 0);
    } else {
      Words.DivUnique(n, c, 0, n);
    }
  }

  /** A full chunk in front adds its crc in front. */
  lemma HashesStep(crc: Crc, memory: seq<bv8>, c: nat)
    requires 0 < c <= |memory|
    ensures Hashes(crc, memory, c) == Bytes(crc(memory[..c])) + Hashes(crc, memory[c..], c)
  {
    hide Bytes;
    if |memory| == c { assert memory[..c] == memory; }
  }

  /** Whole chunks hash on their own. */
  lemma {:induction false} HashesAppend(crc: Crc, a: seq<bv8>, b: seq<bv8>, c: nat, k: nat)
    requires c > 0 && |a| == k * c
    ensures Hashes(crc, a + b, c) == Hashes(crc, a, c) + Hashes(crc, b, c)
    decreases k
  {
    hide Bytes;
    if k == 0 {
      assert a + b == b;
    } else {
      Words.Distribute(k, -1, c);
      Words.MulMono(1, k, c);
      HashesAppend(crc, a[c..], b, c, k - 1);
      hide Hashes;
      assert (a + b)[..c] == a[..c] && (a + b)[c..] == a[c..] + b;
      HashesStep(crc, a + b, c);
      HashesStep(crc, a, c);
      assert Bytes(crc(a[..c])) + (Hashes(crc, a[c..], c) + Hashes(crc, b, c))
          == (Bytes(crc(a[..c])) + Hashes(crc, a[c..], c)) + Hashes(crc, b, c);
    }
  }

  /** The first word of the hashes is the crc of the first chunk, or of the tail when that is all there is. */
  lemma {:induction false} FirstHash(crc: Crc, rest: seq<bv8>, c: nat)
    requires c > 0 && rest != []
    ensures |Hashes(crc, rest, c)| >= 4
    ensures Hashes(crc, rest, c)[..4] == Bytes(crc(if |rest| <= c then rest else rest[..c]))
  {
    hide Bytes;
  }

  lemma {:induction false} HashesOfWhole(crc: Crc, front: seq<bv8>, c: nat, i: nat)
    requires c > 0 && |front| == i * c
    ensures |Hashes(crc, front, c)| == 4 * i
  {
    hide Hashes;
    HashesLength(crc, front, c);
    MulDiv(i, c);
  }

  /** Word i of the hash buffer is the crc of chunk i, and the word after the last whole chunk that of the tail. */
  lemma {:induction false} HashOfChunk(crc: Crc, memory: seq<bv8>, c: nat, i: nat)
    requires c > 0 && i * c < |memory|
    ensures var h, rest := Hashes(crc, memory, c), memory[i * c..];
            |h| >= 4 * i + 4 && WordAt(h, 4 * i) == crc(if |rest| <= c then rest else rest[..c])
  {
    hide Bytes, Hashes, WordAt;
    var at := i * c;
    var front, rest := memory[..at], memory[at..];
    assert memory == front + rest;
    HashesAppend(crc, front, rest, c, i);
    HashesOfWhole(crc, front, c, i);
    FirstHash(crc, rest, c);
    SecondPart(Hashes(crc, front, c), Hashes(crc, rest, c), 4 * i);
    WordOf(Hashes(crc, memory, c), 4 * i, crc(if |rest| <= c then rest else rest[..c]));
  }

  lemma WordOf(h: seq<bv8>, i: nat, word: bv32)
    requires i + 4 <= |h| && h[i..i + 4] == Bytes(word)
    ensures WordAt(h, i) == word
  {
    hide Bytes;
    BytesOfWord(word);
    var b := h[i..i + 4];
    assert b[0] == h[i] && b[1] == h[i + 1] && b[2] == h[i + 2] && b[3] == h[i + 3];
  }

  lemma {:induction false} SecondPart(h: seq<bv8>, t: seq<bv8>, n: nat)
    requires |h| == n && |t| >= 4
    ensures (h + t)[n..n + 4] == t[..4]
  {
  }

  method CopyWord(hash: array<bv8>, at: nat, crc: bv32)
    requires at + 4 <= hash.Length
    modifies hash
    ensures hash[..at + 4] == old(hash[..at]) + Bytes(crc)
  {
    hide Bytes;
    var b := Bytes(crc);
    hash[at], hash[at + 1], hash[at + 2], hash[at + 3] := b[0], b[1], b[2], b[3];
    assert hash[..at + 4] == hash[..at] + b;
    assert hash[..at] == old(hash[..at]);
  }

  /** n bytes are left: so many whole chunks, and the tail. */
  predicate Left(n: nat, chunks: nat, c: nat, tail: nat) { n == chunks * c + tail }

  lemma NextChunk(crc: Crc, rest: seq<bv8>, chunks: nat, c: nat, tail: nat)
    requires c > 0 && chunks > 0 && Left(|rest|, chunks, c, tail)
    ensures c <= |rest| && Left(|rest[c..]|, chunks - 1, c, tail)
    ensures Hashes(crc, rest, c) == Bytes(crc(rest[..c])) + Hashes(crc, rest[c..], c)
  {
    Words.Distribute(chunks, -1, c);
    Words.MulMono(1, chunks, c);
    HashesStep(crc, rest, c);
  }

  lemma NoChunkLeft(crc: Crc, rest: seq<bv8>, c: nat, tail: nat)
    requires c > tail && Left(|rest|, 0, c, tail)
    ensures |rest| == tail && Hashes(crc, rest, c) == if tail == 0 then [] else Bytes(crc(rest))
  {
  }

  method HashSegment(crc: Crc, segment: Segment) returns (h: HashedSegment)
    requires segment.tailSize < segment.chunkSize
    requires Left(|segment.memory|, segment.chunkCount, segment.chunkSize, segment.tailSize)
    ensures h == Hashed(crc, segment)
  {
    hide Bytes, Hashes, Left;
    var memory, c, count, tailSize := segment.memory, segment.chunkSize, segment.chunkCount, segment.tailSize;
    var hashSize := (count + if tailSize != 0 then 1 else 0) * 4;
    var hash := new bv8[hashSize](_ => 0);
    var currentChunk, index: nat := 0, 0;
    ghost var all, rest := Hashes(crc, memory, c), memory;
    while index < count
      invariant index <= count && currentChunk <= |memory| && rest == memory[currentChunk..]
      invariant Left(|rest|, count - index, c, tailSize)
      invariant hash[..4 * index] + Hashes(crc, rest, c) == all
    {
      NextChunk(crc, rest, count - index, c, tailSize);
      var word := crc(memory[currentChunk..currentChunk + c]);
      assert memory[currentChunk..currentChunk + c] == rest[..c];
      ghost var done := hash[..4 * index];
      CopyWord(hash, 4 * index, word);
      assert done + (Bytes(word) + Hashes(crc, rest[c..], c)) == (done + Bytes(word)) + Hashes(crc, rest[c..], c);
      currentChunk := currentChunk + c;
      index := index + 1;
      rest := rest[c..];
    }
    NoChunkLeft(crc, rest, c, tailSize);
    if tailSize != 0 {
      var word := crc(memory[currentChunk..currentChunk + tailSize]);
      assert memory[currentChunk..currentChunk + tailSize] == rest;
      CopyWord(hash, 4 * count, word);
    }
    assert hash[..hashSize] == hash[..];
    h := HashedSegment(segment.blockId, segment.firstChunkId, count, hash[..]);
  }

  function Hashed(crc: Crc, s: Segment): HashedSegment
    requires s.chunkSize > 0
  {
    HashedSegment(s.blockId, s.firstChunkId, s.chunkCount, Hashes(crc, s.memory, s.chunkSize))
  }
}
