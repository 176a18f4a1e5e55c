/** Reading a block in chunk-aligned segments. */
module BlockReader {
  import opened Signature
  import Words

  const SEGMENT_SIZE_HINT: nat := 128 * 1024 * 1024

  /** The largest multiple of the chunk size not above the hint, or one chunk if that is larger. */
  function SegmentSize(chunkSize: nat): (s: nat)
    requires chunkSize > 0
    ensures s > 0 && s % chunkSize == 0 && s / chunkSize >= 1
    ensures if chunkSize <= SEGMENT_SIZE_HINT then s <= SEGMENT_SIZE_HINT < s + chunkSize else s == chunkSize
  {
    if chunkSize > SEGMENT_SIZE_HINT then
      MulDiv(1, chunkSize);
      chunkSize
    else
      var k := SEGMENT_SIZE_HINT / chunkSize;
      PositiveQuotient(SEGMENT_SIZE_HINT, chunkSize);
      MulDiv(k, chunkSize);
      Words.MulMono(1, k, chunkSize);
      k * chunkSize
  }

  /** len bytes of the file from position on, in a zero-filled buffer. */
  function ReadAt(file: seq<bv8>, position: nat, len: nat): (m: seq<bv8>)
    ensures |m| == len
  {
    seq(len, i requires 0 <= i < len => if position + i < |file| then file[position + i] else 0)
  }

  /** The segment at an offset of the block; len and the position both follow from the offset. */
  function SegmentAt(file: seq<bv8>, b: Block, offset: nat, len: nat): Segment
    requires b.Valid()
  {
    Segment(b.id, b.chunkSize, len / b.chunkSize, len % b.chunkSize, offset / b.chunkSize, ReadAt(file, offset, len))
  }

  /** Full segments while more than one is left, then the tail. */
  function SegmentsFrom(file: seq<bv8>, b: Block, offset: nat): seq<Segment>
    requires b.Valid() && offset <= b.size
    decreases b.size - offset
  {
    var rest, s := b.size - offset, SegmentSize(b.chunkSize);
    if rest > s then [SegmentAt(file, b, offset, s)] + SegmentsFrom(file, b, offset + s)
    else [SegmentAt(file, b, offset, rest)]
  }

  function Segments(file: seq<bv8>, b: Block): seq<Segment>
    requires b.Valid()
  {
    if b.size <= SEGMENT_SIZE_HINT then [SegmentAt(file, b, 0, b.size)] else SegmentsFrom(file, b, 0)
  }

  function Memories(ss: seq<Segment>): seq<bv8> {
    if ss == [] then [] else ss[0].memory + Memories(ss[1..])
  }

  function ChunkSum(ss: seq<Segment>): nat {
    if ss == [] then 0 else ss[0].chunkCount + ChunkSum(ss[1..])
  }

  /** Segments of one block from a chunk on: consecutive, whole chunks only except in the last. */
  ghost predicate Tiling(ss: seq<Segment>, b: Block, firstChunk: nat)
    requires b.chunkSize > 0
    decreases |ss|
  {
    && ss != [] && ss[0].blockId == b.id && ss[0].chunkSize == b.chunkSize && ss[0].firstChunkId == firstChunk
    && |ss[0].memory| == ss[0].chunkCount * b.chunkSize + ss[0].tailSize
    && if |ss| == 1 then ss[0].tailSize == b.size % b.chunkSize && ss[0].memory != []
       else ss[0].tailSize == 0 && ss[0].chunkCount >= 1 && Tiling(ss[1..], b, firstChunk + ss[0].chunkCount)
  }

  lemma ReadAppend(file: seq<bv8>, p: nat, m: nat, n: nat)
    ensures ReadAt(file, p, m) + ReadAt(file, p + m, n) == ReadAt(file, p, m + n)
  {
  }

  /** A segment size later the offset is again at a chunk boundary. */
  lemma NextBoundary(k: nat, c: nat)
    requires c > 0
    ensures (k + SegmentSize(c) / c) * c == k * c + SegmentSize(c)
  {
    hide SegmentSize;
    Words.Distribute(k, SegmentSize(c) / c, c);
  }

  lemma {:induction false} MemoriesFrom(file: seq<bv8>, b: Block, offset: nat)
    requires b.chunkSize > 0 && offset < b.size
    ensures Memories(SegmentsFrom(file, b, offset)) == ReadAt(file, offset, b.size - offset)
    decreases b.size - offset
  {
    hide SegmentSize, ReadAt;
    var s, rest, ss := SegmentSize(b.chunkSize), b.size - offset, SegmentsFrom(file, b, offset);
    if rest > s {
      MemoriesFrom(file, b, offset + s);
      ReadAppend(file, offset, s, rest - s);
      assert ss[1..] == SegmentsFrom(file, b, offset + s);
    } else {
      assert ss[1..] == [];
      assert Memories(ss) == ss[0].memory + [];
    }
  }

  lemma {:induction false} ChunksFrom(file: seq<bv8>, b: Block, offset: nat, k: nat)
    requires b.chunkSize > 0 && b.size > offset == k * b.chunkSize
    ensures k + ChunkSum(SegmentsFrom(file, b, offset)) == b.size / b.chunkSize
    decreases b.size - offset
  {
    hide SegmentSize, ReadAt;
    var c, s, rest, ss := b.chunkSize, SegmentSize(b.chunkSize), b.size - offset, SegmentsFrom(file, b, offset);
    if rest > s {
      NextBoundary(k, c);
      ChunksFrom(file, b, offset + s, k + s / c);
      assert ss[1..] == SegmentsFrom(file, b, offset + s);
    } else {
      AddDiv(k, c, rest);
      assert ss[1..] == [];
    }
  }

  /** One segment is within its bounds, at its chunk. */
  lemma SegmentPlaced(file: seq<bv8>, b: Block, offset: nat, k: nat, len: nat)
    requires b.Valid() && offset == k * b.chunkSize && offset + len <= b.size
    ensures var x := SegmentAt(file, b, offset, len);
            && x.blockId == b.id && x.chunkSize == b.chunkSize && x.firstChunkId == k && |x.memory| == len
            && len == x.chunkCount * b.chunkSize + x.tailSize
            && x.chunkCount == len / b.chunkSize && x.tailSize == len % b.chunkSize
  {
    hide ReadAt;
    MulDiv(k, b.chunkSize);
  }

  /** From a chunk boundary on, the segments tile the rest of the block exactly once. */
  lemma {:induction false} SegmentsFromTile(file: seq<bv8>, b: Block, offset: nat, k: nat)
    requires b.chunkSize > 0 && b.size > offset == k * b.chunkSize
    ensures Tiling(SegmentsFrom(file, b, offset), b, k)
    decreases b.size - offset
  {
    hide SegmentSize, SegmentAt;
    var c, s, rest, ss := b.chunkSize, SegmentSize(b.chunkSize), b.size - offset, SegmentsFrom(file, b, offset);
    if rest > s {
      NextBoundary(k, c);
      SegmentPlaced(file, b, offset, k, s);
      SegmentsFromTile(file, b, offset + s, k + s / c);
      assert ss[1..] == SegmentsFrom(file, b, offset + s);
    } else {
      AddDiv(k, c, rest);
      SegmentPlaced(file, b, offset, k, rest);
    }
  }

  /** The segments of a block tile it: all its bytes once, all its chunks, the tail in the last segment only. */
  lemma SegmentsTile(file: seq<bv8>, b: Block)
    requires b.Valid()
    ensures var ss := Segments(file, b);
            && Memories(ss) == ReadAt(file, 0, b.size)
            && ChunkSum(ss) == b.ChunksCount()
            && Tiling(ss, b, 0)
  {
    var ss := Segments(file, b);
    if b.size <= SEGMENT_SIZE_HINT {
      MulDiv(0, b.chunkSize);
      assert ss[1..] == [];
      assert Memories(ss) == ss[0].memory + [];
    } else {
      MemoriesFrom(file, b, 0);
      ChunksFrom(file, b, 0, 0);
      SegmentsFromTile(file, b, 0, 0);
    }
  }

  /** The bytes of the segments of a block are the first ones of the file, and zeros where the file is shorter. */
  lemma BytesRead(file: seq<bv8>, b: Block)
    requires b.Valid()
    ensures b.size <= |file| ==> Memories(Segments(file, b)) == file[..b.size]
    ensures b.size > |file| ==> Memories(Segments(file, b)) == file + seq(b.size - |file|, _ => 0)
  {
    hide Segments, Memories;
    SegmentsTile(file, b);
  }

  /** A block's reader delivers the block's own bytes, for every file, exactly when the block starts the file. */
  lemma OwnBytesIff(b: Block)
    requires b.Valid()
    ensures (forall file :: Memories(Segments(file, b)) == ReadAt(file, b.offset, b.size)) <==> b.offset == 0
  {
    hide Segments, Memories;
    if b.offset == 0 {
      forall file ensures Memories(Segments(file, b)) == ReadAt(file, b.offset, b.size) {
        SegmentsTile(file, b);
      }
    } else {
      var file: seq<bv8> := seq(b.offset, _ => 0) + [1];
      SegmentsTile(file, b);
      assert ReadAt(file, 0, b.size)[0] == 0 && ReadAt(file, b.offset, b.size)[0] == 1;
    }
  }

  ghost predicate EveryWhole(ss: seq<Segment>) { forall s :: s in ss ==> s.chunkCount >= 1 }

  /** No segment of the block is shorter than a chunk. */
  predicate WholeSegments(b: Block)
    requires b.Valid()
  {
    b.size >= b.chunkSize && (b.size <= SEGMENT_SIZE_HINT || b.size % SegmentSize(b.chunkSize) == 0
                              || b.size % SegmentSize(b.chunkSize) >= b.chunkSize)
  }

  /** Exactly when every segment of a block holds a whole chunk. */
  lemma WholeChunkIff(file: seq<bv8>, b: Block)
    requires b.Valid()
    ensures EveryWhole(Segments(file, b)) <==> WholeSegments(b)
  {
    hide SegmentSize;
    var ss, c, s := Segments(file, b), b.chunkSize, SegmentSize(b.chunkSize);
    PositiveQuotient(b.size, c);
    if b.size <= SEGMENT_SIZE_HINT {
      assert ss[0].chunkCount == b.size / c;
    } else {
      WholeChunkFrom(file, b, 0);
      PositiveQuotient(s, c);
      if s > b.size { Words.DivUnique(b.size, s, 0, b.size); }
    }
  }

  lemma LastWhole(rest: nat, s: nat, c: nat)
    requires c > 0 && 0 < rest <= s && s / c >= 1
    ensures rest / c >= 1 <==> rest % s == 0 || rest % s >= c
  {
    PositiveQuotient(rest, c);
    PositiveQuotient(s, c);
    if rest == s { Words.DivUnique(rest, s, 1, 0); } else { Words.DivUnique(rest, s, 0, rest); }
  }

  lemma {:induction false} WholeChunkFrom(file: seq<bv8>, b: Block, offset: nat)
    requires b.chunkSize > 0 && offset < b.size
    ensures var rest, s := b.size - offset, SegmentSize(b.chunkSize);
            EveryWhole(SegmentsFrom(file, b, offset)) <==> rest % s == 0 || rest % s >= b.chunkSize
    decreases b.size - offset
  {
    hide SegmentSize, ReadAt, SegmentAt;
    var rest, s, c := b.size - offset, SegmentSize(b.chunkSize), b.chunkSize;
    var head := SegmentAt(file, b, offset, if rest > s then s else rest);
    ChunkCountAt(file, b, offset, if rest > s then s else rest);
    if rest > s {
      WholeChunkFrom(file, b, offset + s);
      AddDiv(1, s, rest - s);
      var tail := SegmentsFrom(file, b, offset + s);
      assert SegmentsFrom(file, b, offset) == [head] + tail;
      assert forall x :: x in [head] + tail <==> x == head || x in tail;
    } else {
      LastWhole(rest, s, c);
      assert SegmentsFrom(file, b, offset) == [head];
    }
  }

  lemma ChunkCountAt(file: seq<bv8>, b: Block, offset: nat, len: nat)
    requires b.Valid()
    ensures SegmentAt(file, b, offset, len).chunkCount == len / b.chunkSize
  {
  }

  /**
   One reader per block, with its own file descriptor. The descriptor is opened at the start of the
   file and is never moved to the block's offset.
   */
  class Reader {
    const file: seq<bv8>
    const block: Block
    const segmentSize: nat
    var position: nat
    var offset: nat

    ghost predicate Valid()
      reads this
    {
      block.Valid() && segmentSize == SegmentSize(block.chunkSize) && position == offset < block.size
      && (block.size <= SEGMENT_SIZE_HINT ==> offset == 0)
    }

    /** The segments still to be delivered. */
    ghost function Remaining(): seq<Segment>
      requires Valid()
      reads this
    {
      if block.size <= SEGMENT_SIZE_HINT then Segments(file, block) else SegmentsFrom(file, block, offset)
    }

    constructor (file: seq<bv8>, block: Block)
      requires block.Valid()
      ensures Valid() && this.file == file && this.block == block && Remaining() == Segments(file, block)
    {
      this.file, this.block := file, block;
      segmentSize := SegmentSize(block.chunkSize);
      position, offset := 0, 0;
    }

    /** read(2) on the descriptor. */
    method Read(len: nat) returns (m: seq<bv8>)
      modifies this`position
      ensures m == ReadAt(file, old(position), len) && position == old(position) + len
    {
      m := ReadAt(file, position, len);
      position := position + len;
    }

    method ReadEntireBlock() returns (segment: Segment)
      requires block.Valid()
      modifies this`position
      ensures position == old(position) + block.size
      ensures segment.memory == ReadAt(file, old(position), block.size)
      ensures segment == SegmentAt(file, block, 0, block.size).(memory := segment.memory)
    {
      var buffer := Read(block.size);
      MulDiv(0, block.chunkSize);
      segment := Segment(block.id, block.chunkSize, block.ChunksCount(), block.TailSize(), 0, buffer);
    }

    method ReadSegment() returns (segment: Segment)
      requires block.Valid() && segmentSize == SegmentSize(block.chunkSize)
      modifies this`position, this`offset
      ensures offset == old(offset) + segmentSize && position == old(position) + segmentSize
      ensures segment.memory == ReadAt(file, old(position), segmentSize)
      ensures segment == SegmentAt(file, block, old(offset), segmentSize).(memory := segment.memory)
    {
      hide SegmentSize;
      var currentOffset := offset;
      offset := offset + segmentSize;
      var buffer := Read(segmentSize);
      segment := Segment(block.id, block.chunkSize, segmentSize / block.chunkSize, 0, currentOffset / block.chunkSize,
                         buffer);
    }

    method ReadTail(rest: nat) returns (segment: Segment)
      requires block.Valid()
      modifies this`position
      ensures position == old(position) + rest
      ensures segment.memory == ReadAt(file, old(position), rest)
      ensures segment == SegmentAt(file, block, offset, rest).(memory := segment.memory)
    {
      var buffer := Read(rest);
      segment := Segment(block.id, block.chunkSize, rest / block.chunkSize, rest % block.chunkSize,
                         offset / block.chunkSize, buffer);
    }

    /** do_read and the handler it posts: the whole block, a full segment, or the tail. */
    method DoRead() returns (segment: Segment, more: bool)
      requires Valid()
      modifies this
      ensures segment == old(Remaining()[0])
      ensures more ==> Valid() && Remaining() == old(Remaining()[1..]) && offset > old(offset)
      ensures !more ==> |old(Remaining())| == 1
    {
      hide SegmentSize, ReadAt;
      more := false;
      if block.size <= SEGMENT_SIZE_HINT {
        segment := ReadEntireBlock();
        return;
      }
      var rest := block.size - offset;
      if rest > segmentSize {
        segment := ReadSegment();
        more := true;
        return;
      }
      segment := ReadTail(rest);
    }

    /** The reads posted one after another until the tail has been delivered. */
    method ReadAll() returns (delivered: seq<Segment>)
      requires Valid()
      modifies this
      ensures delivered == old(Remaining())
    {
      hide SegmentSize, SegmentAt, ReadAt;
      delivered := [];
      ghost var all, rest := Remaining(), Remaining();
      var more := true;
      while more
        invariant more ==> Valid() && Remaining() == rest
        invariant !more ==> rest == []
        invariant delivered + rest == all
        decreases more, block.size - offset
      {
        var segment;
        segment, more := DoRead();
        assert rest == [segment] + rest[1..];
        assert (delivered + [segment]) + rest[1..] == delivered + ([segment] + rest[1..]);
        delivered := delivered + [segment];
        rest := rest[1..];
      }
    }
  }
}
