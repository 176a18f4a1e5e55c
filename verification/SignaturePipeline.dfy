/** From a block table to the signature file: blocks are read, hashed and written in any order of arrival. */
module SignaturePipeline {
  import opened Signature
  import opened BlockReader
  import opened SegmentHasher
  import opened Writer
  import Words

  ghost predicate Positive(ss: seq<Segment>) { forall s :: s in ss ==> s.chunkSize > 0 }

  function HashAll(crc: Crc, ss: seq<Segment>): (hs: seq<HashedSegment>)
    requires Positive(ss)
    ensures |hs| == |ss|
  {
    if ss == [] then [] else [Hashed(crc, ss[0])] + HashAll(crc, ss[1..])
  }

  lemma {:induction false} TilingPositive(ss: seq<Segment>, b: Block, k: nat)
    requires b.chunkSize > 0 && Tiling(ss, b, k)
    ensures Positive(ss)
    decreases |ss|
  {
    if |ss| > 1 {
      TilingPositive(ss[1..], b, k + ss[0].chunkCount);
      assert ss == [ss[0]] + ss[1..];
    }
  }

  /** Hashing the segments of a block one by one gives the hashes of the block's bytes taken together. */
  lemma {:induction false} HashAllContents(crc: Crc, ss: seq<Segment>, b: Block, k: nat)
    requires b.chunkSize > 0 && Tiling(ss, b, k) && Positive(ss)
    ensures Contents(HashAll(crc, ss)) == Hashes(crc, Memories(ss), b.chunkSize)
    ensures Chunks(HashAll(crc, ss)) == ChunkSum(ss)
    decreases |ss|
  {
    hide Hashes;
    var hs := HashAll(crc, ss);
    if |ss| == 1 {
      assert ss[1..] == [] && hs[1..] == [];
      assert Memories(ss) == ss[0].memory;
      assert Contents(hs) == hs[0].memory + [];
    } else {
      HashAllContents(crc, ss[1..], b, k + ss[0].chunkCount);
      HashesAppend(crc, ss[0].memory, Memories(ss[1..]), b.chunkSize, ss[0].chunkCount);
      assert hs[1..] == HashAll(crc, ss[1..]);
    }
  }

  ghost predicate InBlock(hs: seq<HashedSegment>, id: nat, k: nat) {
    forall h :: h in hs ==> h.blockId == id && h.firstChunkId >= k
  }

  /** Within a block the segments come in key order. */
  lemma {:induction false} HashAllSorted(crc: Crc, ss: seq<Segment>, b: Block, k: nat)
    requires b.chunkSize > 0 && Tiling(ss, b, k) && Positive(ss)
    ensures Sorted(HashAll(crc, ss)) && InBlock(HashAll(crc, ss), b.id, k)
    decreases |ss|
  {
    hide Hashes;
    var hs := HashAll(crc, ss);
    if |ss| > 1 {
      var next := k + ss[0].chunkCount;
      HashAllSorted(crc, ss[1..], b, next);
      var rest := HashAll(crc, ss[1..]);
      forall h | h in multiset(rest) ensures Less(hs[0], h) { assert h in rest; }
      SortedCons(hs[0], rest);
    }
  }

  /** The hashed segments of one block. */
  function OfBlock(crc: Crc, file: seq<bv8>, b: Block): (hs: seq<HashedSegment>)
    requires b.Valid()
  {
    SegmentsTile(file, b);
    TilingPositive(Segments(file, b), b, 0);
    HashAll(crc, Segments(file, b))
  }

  lemma BlockSigned(crc: Crc, file: seq<bv8>, b: Block)
    requires b.Valid()
    ensures var hs := OfBlock(crc, file, b);
            && Contents(hs) == Hashes(crc, ReadAt(file, 0, b.size), b.chunkSize)
            && Chunks(hs) == b.ChunksCount()
            && Sorted(hs) && InBlock(hs, b.id, 0) && hs != []
  {
    hide Segments, Hashes, ReadAt;
    SegmentsTile(file, b);
    TilingPositive(Segments(file, b), b, 0);
    HashAllContents(crc, Segments(file, b), b, 0);
    HashAllSorted(crc, Segments(file, b), b, 0);
  }

  ghost predicate Table(blocks: seq<Block>) {
    (forall b :: b in blocks ==> b.Valid()) && forall i, j :: 0 <= i < j < |blocks| ==> blocks[i].id < blocks[j].id
  }

  /** All the hashed segments, in block and then chunk order. */
  ghost function Expected(crc: Crc, file: seq<bv8>, blocks: seq<Block>): seq<HashedSegment>
    requires Table(blocks)
  {
    if blocks == [] then [] else OfBlock(crc, file, blocks[0]) + Expected(crc, file, blocks[1..])
  }

  /** The signature file: for each block, the hashes of the bytes its reader sees. */
  function SignatureOf(crc: Crc, file: seq<bv8>, blocks: seq<Block>): seq<bv8>
    requires forall b :: b in blocks ==> b.Valid()
  {
    if blocks == [] then []
    else
      var b := blocks[0];
      assert b.Valid();
      Hashes(crc, ReadAt(file, 0, b.size), b.chunkSize) + SignatureOf(crc, file, blocks[1..])
  }

  lemma {:induction false} ExpectedSigned(crc: Crc, file: seq<bv8>, blocks: seq<Block>)
    requires Table(blocks)
    ensures Contents(Expected(crc, file, blocks)) == SignatureOf(crc, file, blocks)
    ensures Chunks(Expected(crc, file, blocks)) == TotalChunks(blocks)
  {
    hide OfBlock, Hashes, ReadAt;
    assert forall b :: b in blocks ==> b.Valid() && b.chunkSize > 0;
    if blocks != [] {
      BlockSigned(crc, file, blocks[0]);
      ExpectedSigned(crc, file, blocks[1..]);
      ContentsConcat(OfBlock(crc, file, blocks[0]), Expected(crc, file, blocks[1..]));
      ChunksConcat(OfBlock(crc, file, blocks[0]), Expected(crc, file, blocks[1..]));
    }
  }

  lemma {:induction false} ExpectedSorted(crc: Crc, file: seq<bv8>, blocks: seq<Block>)
    requires Table(blocks)
    ensures Sorted(Expected(crc, file, blocks))
    ensures forall h: HashedSegment :: h in Expected(crc, file, blocks) ==>
              exists b: Block :: b in blocks && b.id == h.blockId
  {
    hide OfBlock, Hashes, ReadAt;
    if blocks != [] {
      BlockSigned(crc, file, blocks[0]);
      ExpectedSorted(crc, file, blocks[1..]);
      var first, rest := OfBlock(crc, file, blocks[0]), Expected(crc, file, blocks[1..]);
      forall x, y | x in first && y in rest ensures Less(x, y) {
        var b: Block :| b in blocks[1..] && b.id == y.blockId;
      }
      SortedConcat(first, rest);
      forall h: HashedSegment | h in first + rest ensures exists b: Block :: b in blocks && b.id == h.blockId {
        if h in first { assert blocks[0] in blocks; }
      }
    }
  }

  lemma {:induction false} SortedConcat(a: seq<HashedSegment>, b: seq<HashedSegment>)
    requires Sorted(a) && Sorted(b) && forall x, y :: x in a && y in b ==> Less(x, y)
    ensures Sorted(a + b)
  {
    hide Less;
  }

  /**
   One run over a block table: whatever the order of arrival, the signature is written once, on the
   last arrival, exactly when that segment holds a whole chunk or is the only one.
   */
  lemma SignedOnLastIff(crc: Crc, file: seq<bv8>, blocks: seq<Block>, arrivals: seq<HashedSegment>)
    requires Table(blocks) && multiset(arrivals) == multiset(Expected(crc, file, blocks)) && arrivals != []
    ensures WrittenOnLast(TotalChunks(blocks), arrivals, SignatureOf(crc, file, blocks))
      <==> |arrivals| == 1 || arrivals[|arrivals| - 1].chunkCount >= 1
  {
    hide Expected, Sorted, Contents, Chunks, WrittenOnLast, SignatureOf, TotalChunks;
    ExpectedSigned(crc, file, blocks);
    ExpectedSorted(crc, file, blocks);
    WrittenOnLastIff(Expected(crc, file, blocks), arrivals);
  }

  /**
   A run over a block table whose chunks are complete before the last arrival: the file keeps what had
   arrived by then, each later segment is reported as a failure, and its hashes are missing.
   */
  lemma LateSegments(crc: Crc, file: seq<bv8>, blocks: seq<Block>, arrivals: seq<HashedSegment>, n: nat,
                     firsts: seq<HashedSegment>)
    requires Table(blocks) && multiset(arrivals) == multiset(Expected(crc, file, blocks))
    requires Reaches(TotalChunks(blocks), arrivals, n)
    requires Sorted(firsts) && multiset(firsts) == multiset(arrivals[..n])
    ensures var s := Run(Init(TotalChunks(blocks)), arrivals);
            && s.outcomes == Reports(|arrivals| - n) && s.file == Contents(firsts)
            && |s.file| + |Contents(arrivals[n..])| == |SignatureOf(crc, file, blocks)|
  {
    hide Expected, Sorted, Contents, Chunks, SignatureOf, TotalChunks, Reports, Run;
    var expected, total := Expected(crc, file, blocks), TotalChunks(blocks);
    ExpectedSigned(crc, file, blocks);
    ExpectedSorted(crc, file, blocks);
    PermutationDistinct(expected, arrivals);
    FinalState(expected, arrivals);
    LateArrivals(total, arrivals, n, firsts);
    LateMissing(expected, arrivals, n, firsts);
  }

  /** Only the last segment of a block may be shorter than a chunk. */
  lemma {:induction false} ShortIsLast(crc: Crc, ss: seq<Segment>, b: Block, k: nat)
    requires b.chunkSize > 0 && Tiling(ss, b, k) && Positive(ss) && !EveryWhole(ss)
    ensures var hs, n := HashAll(crc, ss), |ss| - 1;
            && hs[n].chunkCount == 0 && |hs[n].memory| == 4
            && forall i :: 0 <= i < n ==> hs[i].chunkCount >= 1
    decreases |ss|
  {
    hide Hashes;
    if |ss| > 1 {
      assert ss == [ss[0]] + ss[1..];
      ShortIsLast(crc, ss[1..], b, k + ss[0].chunkCount);
    } else {
      var m := |ss[0].memory|;
      HashesLength(crc, ss[0].memory, b.chunkSize);
      Words.DivUnique(m, b.chunkSize, 0, m);
    }
  }

  /**
   One block that ends in less than a chunk after full segments, arriving in order: success is reported
   before the tail arrives, then a failure, and exactly the tail's four bytes are missing in the file.
   */
  lemma TailTooLate(crc: Crc, file: seq<bv8>, b: Block)
    requires b.Valid() && !OneSegment(b) && !WholeSegments(b)
    ensures var s, signature := Run(Init(b.ChunksCount()), OfBlock(crc, file, b)), SignatureOf(crc, file, [b]);
            && s.outcomes == [Success, Failure]
            && |signature| >= 4 && s.file == signature[..|signature| - 4]
  {
    hide Segments, Hashes, ReadAt, WholeSegments, OneSegment, Sorted, Run, Less, SignatureOf;
    hide HashAll, Tiling, EveryWhole, Chunks, Contents, InBlock;
    SegmentCount(file, b);
    SegmentsTile(file, b);
    TilingPositive(Segments(file, b), b, 0);
    WholeChunkIff(file, b);
    ShortIsLast(crc, Segments(file, b), b, 0);
    BlockSigned(crc, file, b);
    var hs, n := OfBlock(crc, file, b), |Segments(file, b)| - 1;
    LateTail(hs, n);
    OneBlock(crc, file, b);
  }

  lemma OneBlock(crc: Crc, file: seq<bv8>, b: Block)
    requires b.Valid()
    ensures SignatureOf(crc, file, [b]) == Contents(OfBlock(crc, file, b))
  {
    hide Hashes, ReadAt, OfBlock, Contents, Chunks, Sorted, InBlock;
    BlockSigned(crc, file, b);
    assert [b][1..] == [];
  }

  lemma LateTail(hs: seq<HashedSegment>, n: nat)
    requires Sorted(hs) && 0 < n && |hs| == n + 1 && hs[n].chunkCount == 0 && hs[n - 1].chunkCount >= 1
    ensures var s := Run(Init(Chunks(hs)), hs);
            s.outcomes == [Success, Failure] && Contents(hs) == s.file + hs[n].memory
  {
    hide Run, Sorted, Chunks, Contents, Reaches, Distinct;
    PermutationDistinct(hs, hs);
    ReachesBeforeTail(hs, n);
    SortedFront(hs, n);
    LateArrivals(Chunks(hs), hs, n, hs[..n]);
    assert Reports(1) == [Success, Failure];
    assert hs == hs[..n] + [hs[n]];
    ContentsConcat(hs[..n], [hs[n]]);
    OneContents(hs[n]);
  }

  lemma ReachesBeforeTail(hs: seq<HashedSegment>, n: nat)
    requires 0 < n && |hs| == n + 1 && hs[n].chunkCount == 0 && hs[n - 1].chunkCount >= 1
    ensures Reaches(Chunks(hs), hs, n)
  {
    hide Chunks;
    assert hs == hs[..n] + [hs[n]] && hs[..n] == hs[..n - 1] + [hs[n - 1]];
    ChunksConcat(hs[..n], [hs[n]]);
    ChunksConcat(hs[..n - 1], [hs[n - 1]]);
    OneChunks(hs[n]);
    OneChunks(hs[n - 1]);
  }

  lemma OneChunks(x: HashedSegment)
    ensures Chunks([x]) == x.chunkCount
  {
    assert [x][1..] == [];
  }

  lemma SortedFront(hs: seq<HashedSegment>, n: nat)
    requires Sorted(hs) && n <= |hs|
    ensures Sorted(hs[..n])
  {
  }

  predicate OneSegment(b: Block)
    requires b.Valid()
  {
    b.size <= SEGMENT_SIZE_HINT || b.size <= SegmentSize(b.chunkSize)
  }

  ghost predicate EveryHashWhole(hs: seq<HashedSegment>) { forall h :: h in hs ==> h.chunkCount >= 1 }

  lemma {:induction false} EveryHashWholeConcat(a: seq<HashedSegment>, b: seq<HashedSegment>)
    ensures EveryHashWhole(a + b) <==> EveryHashWhole(a) && EveryHashWhole(b)
  {
    assert forall h :: h in a + b <==> h in a || h in b;
  }

  lemma {:induction false} HashAllWhole(crc: Crc, ss: seq<Segment>)
    requires Positive(ss)
    ensures EveryWhole(ss) <==> EveryHashWhole(HashAll(crc, ss))
  {
    hide Hashes;
    if ss != [] {
      HashAllWhole(crc, ss[1..]);
      EveryHashWholeConcat([Hashed(crc, ss[0])], HashAll(crc, ss[1..]));
      assert ss == [ss[0]] + ss[1..];
      assert forall s :: s in ss <==> s == ss[0] || s in ss[1..];
    }
  }

  lemma {:induction false} ExpectedWhole(crc: Crc, file: seq<bv8>, blocks: seq<Block>)
    requires Table(blocks)
    ensures EveryHashWhole(Expected(crc, file, blocks)) <==> forall b :: b in blocks ==> WholeSegments(b)
  {
    hide WholeSegments, Segments, SegmentSize, Hashes;
    if blocks != [] {
      var b := blocks[0];
      ExpectedWhole(crc, file, blocks[1..]);
      SegmentsTile(file, b);
      TilingPositive(Segments(file, b), b, 0);
      HashAllWhole(crc, Segments(file, b));
      WholeChunkIff(file, b);
      hide HashAll, Tiling, EveryWhole, EveryHashWhole;
      EveryHashWholeConcat(OfBlock(crc, file, b), Expected(crc, file, blocks[1..]));
      assert blocks == [b] + blocks[1..];
      assert forall x :: x in blocks <==> x == b || x in blocks[1..];
    }
  }

  lemma OneSegmentIff(crc: Crc, file: seq<bv8>, blocks: seq<Block>)
    requires Table(blocks) && blocks != []
    ensures |Expected(crc, file, blocks)| == 1 <==> |blocks| == 1 && OneSegment(blocks[0])
    ensures Expected(crc, file, blocks) != []
  {
    hide SegmentSize, Hashes, ReadAt;
    var b := blocks[0];
    BlockSigned(crc, file, b);
    SegmentCount(file, b);
    if |blocks| > 1 {
      BlockSigned(crc, file, blocks[1]);
      assert blocks[1..][0] == blocks[1];
    } else {
      assert blocks[1..] == [];
    }
  }

  lemma SegmentCount(file: seq<bv8>, b: Block)
    requires b.Valid()
    ensures |Segments(file, b)| == 1 <==> OneSegment(b)
  {
    hide SegmentSize, ReadAt;
    if b.size > SEGMENT_SIZE_HINT && b.size > SegmentSize(b.chunkSize) {
      assert |SegmentsFrom(file, b, SegmentSize(b.chunkSize))| >= 1;
    }
  }

  /** Every order of arrival signs the file exactly when one segment arrives, or no block ends in less than a chunk. */
  lemma SignedInEveryOrderIff(crc: Crc, file: seq<bv8>, blocks: seq<Block>)
    requires Table(blocks) && blocks != []
    ensures (forall arrivals :: multiset(arrivals) == multiset(Expected(crc, file, blocks))
               ==> WrittenOnLast(TotalChunks(blocks), arrivals, SignatureOf(crc, file, blocks)))
      <==> (|blocks| == 1 && OneSegment(blocks[0])) || forall b :: b in blocks ==> WholeSegments(b)
  {
    hide Expected, Sorted, Contents, Chunks, WrittenOnLast, SignatureOf, TotalChunks, WholeSegments, OneSegment;
    ExpectedSigned(crc, file, blocks);
    ExpectedSorted(crc, file, blocks);
    OneSegmentIff(crc, file, blocks);
    ExpectedWhole(crc, file, blocks);
    EveryOrderIff(Expected(crc, file, blocks));
  }
}
