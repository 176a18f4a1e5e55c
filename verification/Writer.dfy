/** The writer: hashed segments arrive in any order, and are written when the chunks are all there. */
module Writer {
  import opened Signature

  /** key_t::operator<, on the keys of two segments. */
  predicate Less(x: HashedSegment, y: HashedSegment) {
    if x.blockId < y.blockId then true
    else if y.blockId < x.blockId then false
    else x.firstChunkId < y.firstChunkId
  }

  ghost predicate Sorted(ss: seq<HashedSegment>) { forall i, j :: 0 <= i < j < |ss| ==> Less(ss[i], ss[j]) }

  ghost predicate Distinct(ss: seq<HashedSegment>) {
    forall i, j :: 0 <= i < j < |ss| ==> Less(ss[i], ss[j]) || Less(ss[j], ss[i])
  }

  function Chunks(ss: seq<HashedSegment>): nat {
    if ss == [] then 0 else ss[0].chunkCount + Chunks(ss[1..])
  }

  function Contents(ss: seq<HashedSegment>): seq<bv8> {
    if ss == [] then [] else ss[0].memory + Contents(ss[1..])
  }

  /** emplace in the ordered map: a key already there stays as it is. */
  function Insert(ss: seq<HashedSegment>, x: HashedSegment): seq<HashedSegment> {
    if ss == [] || Less(x, ss[0]) then [x] + ss
    else if Less(ss[0], x) then [ss[0]] + Insert(ss[1..], x)
    else ss
  }

  /** The entry emplace returns. */
  function Entry(ss: seq<HashedSegment>, x: HashedSegment): HashedSegment {
    if ss == [] || Less(x, ss[0]) then x
    else if Less(ss[0], x) then Entry(ss[1..], x)
    else ss[0]
  }

  datatype Outcome = Success | Failure

  datatype State = State(total: nat, count: nat, segments: seq<HashedSegment>, open: bool, file: seq<bv8>,
                         outcomes: seq<Outcome>)

  function Init(total: nat): State { State(total, 0, [], true, [], []) }

  /** One posted handler. Writing to or closing a closed stream throws. */
  function Step(s: State, x: HashedSegment): State {
    var t := s.(segments := Insert(s.segments, x), count := s.count + Entry(s.segments, x).chunkCount);
    if t.count != t.total then t
    else if !t.open then t.(outcomes := t.outcomes + [Failure])
    else t.(open := false, file := t.file + Contents(t.segments), outcomes := t.outcomes + [Success])
  }

  function Run(s: State, arrivals: seq<HashedSegment>): State
    decreases |arrivals|
  {
    if arrivals == [] then s
    else Step(Run(s, arrivals[..|arrivals| - 1]), arrivals[|arrivals| - 1])
  }

  class SignatureWriter {
    const total: nat
    var count: nat
    var segments: seq<HashedSegment>
    var open: bool
    var file: seq<bv8>
    var outcomes: seq<Outcome>

    ghost function View(): State
      reads this
    {
      State(total, count, segments, open, file, outcomes)
    }

    constructor (blocks: seq<Block>)
      requires forall b :: b in blocks ==> b.chunkSize > 0
      ensures View() == Init(TotalChunks(blocks))
    {
      var t, i := 0, 0;
      while i < |blocks|
        invariant 0 <= i <= |blocks|
        invariant t + TotalChunks(blocks[i..]) == TotalChunks(blocks)
      {
        t := t + blocks[i].ChunksCount();
        assert blocks[i..][1..] == blocks[i + 1..];
        i := i + 1;
      }
      total, count, segments, open, file, outcomes := t, 0, [], true, [], [];
    }

    method Receive(x: HashedSegment)
      modifies this
      ensures View() == Step(old(View()), x)
    {
      var entry := Entry(segments, x);
      segments := Insert(segments, x);
      count := count + entry.chunkCount;
      if count != total { return; }
      if !open {
        outcomes := outcomes + [Failure];
        return;
      }
      WriteSegments();
      open := false;
      outcomes := outcomes + [Success];
    }

    /** Every segment's hashes, in key order. */
    method WriteSegments()
      modifies this`file
      ensures file == old(file) + Contents(segments)
    {
      var i := 0;
      while i < |segments|
        invariant 0 <= i <= |segments|
        invariant file + Contents(segments[i..]) == old(file) + Contents(segments)
      {
        assert segments[i..][1..] == segments[i + 1..];
        assert file + (segments[i].memory + Contents(segments[i + 1..]))
            == (file + segments[i].memory) + Contents(segments[i + 1..]);
        file := file + segments[i].memory;
        i := i + 1;
      }
    }

    method ReceiveAll(arrivals: seq<HashedSegment>)
      modifies this
      ensures View() == Run(old(View()), arrivals)
    {
      for i := 0 to |arrivals|
        invariant View() == Run(old(View()), arrivals[..i])
      {
        assert arrivals[..i + 1][..i] == arrivals[..i];
        Receive(arrivals[i]);
      }
      assert arrivals[..|arrivals|] == arrivals;
    }
  }

  function TotalChunks(blocks: seq<Block>): nat
    requires forall b :: b in blocks ==> b.chunkSize > 0
  {
    if blocks == [] then 0 else blocks[0].ChunksCount() + TotalChunks(blocks[1..])
  }

  ghost predicate New(ss: seq<HashedSegment>, x: HashedSegment) { forall y :: y in ss ==> Less(x, y) || Less(y, x) }

  lemma {:induction false} SortedCons(x: HashedSegment, ss: seq<HashedSegment>)
    requires Sorted(ss) && forall y :: y in multiset(ss) ==> Less(x, y)
    ensures Sorted([x] + ss)
  {
    assert forall i :: 0 <= i < |ss| ==> ss[i] in multiset(ss);
  }

  lemma {:induction false} LessTransitive(x: HashedSegment, y: HashedSegment, z: HashedSegment)
    requires Less(x, y) && Less(y, z)
    ensures Less(x, z)
  {
  }

  lemma {:induction false} InsertFront(ss: seq<HashedSegment>, x: HashedSegment)
    requires Sorted(ss) && ss != [] && Less(x, ss[0])
    ensures Sorted([x] + ss)
  {
    forall y | y in multiset(ss) ensures Less(x, y) {
      HeadIsLeast(ss, y);
      if y != ss[0] { LessTransitive(x, ss[0], y); }
    }
    hide Less, Sorted;
    SortedCons(x, ss);
  }

  lemma {:induction false} InsertLater(head: HashedSegment, tail: seq<HashedSegment>, x: HashedSegment,
                                       rest: seq<HashedSegment>)
    requires Sorted([head] + tail) && Less(head, x) && Sorted(rest)
    requires multiset(rest) == multiset(tail) + multiset{x}
    ensures Sorted([head] + rest)
  {
    var ss := [head] + tail;
    forall y | y in multiset(rest) ensures Less(head, y) {
      if y != x {
        var i :| 0 <= i < |tail| && tail[i] == y;
        assert ss[0] == head && ss[i + 1] == y;
      }
    }
    hide Less, Sorted;
    SortedCons(head, rest);
  }

  lemma {:induction false} InsertNew(ss: seq<HashedSegment>, x: HashedSegment)
    requires Sorted(ss) && New(ss, x)
    ensures Entry(ss, x) == x && Sorted(Insert(ss, x))
    ensures multiset(Insert(ss, x)) == multiset(ss) + multiset{x}
  {
    hide Less, Sorted, New;
    if ss == [] {
      SortedCons(x, ss);
    } else if Less(x, ss[0]) {
      InsertFront(ss, x);
    } else {
      NewParts(ss, x);
      SortedTail(ss);
      InsertNew(ss[1..], x);
      assert ss == [ss[0]] + ss[1..];
      InsertLater(ss[0], ss[1..], x, Insert(ss[1..], x));
    }
  }

  predicate SameKey(x: HashedSegment, y: HashedSegment) {
    x.blockId == y.blockId && x.firstChunkId == y.firstChunkId
  }

  /** A key that is there already: nothing changes, and the entry returned is the one that is there. */
  lemma {:induction false} InsertKnown(ss: seq<HashedSegment>, x: HashedSegment, y: HashedSegment)
    requires Sorted(ss) && y in ss && SameKey(x, y)
    ensures Insert(ss, x) == ss && Entry(ss, x) == y
  {
    HeadIsLeast(ss, y);
    if y != ss[0] {
      SortedTail(ss);
      assert ss == [ss[0]] + ss[1..];
      InsertKnown(ss[1..], x, y);
    }
  }

  lemma NewParts(ss: seq<HashedSegment>, x: HashedSegment)
    requires New(ss, x) && ss != []
    ensures New(ss[1..], x) && (Less(x, ss[0]) || Less(ss[0], x))
  {
    hide Less;
    assert ss[0] in ss && forall y :: y in ss[1..] ==> y in ss;
  }

  lemma {:induction false} HeadIsLeast(ss: seq<HashedSegment>, x: HashedSegment)
    requires Sorted(ss) && x in multiset(ss)
    ensures x == ss[0] || Less(ss[0], x)
  {
    var i :| 0 <= i < |ss| && ss[i] == x;
  }

  lemma {:induction false} SortedTail(ss: seq<HashedSegment>)
    requires Sorted(ss) && ss != []
    ensures Sorted(ss[1..]) && multiset(ss[1..]) == multiset(ss) - multiset{ss[0]}
  {
    assert ss == [ss[0]] + ss[1..];
  }

  /** Sorted order is a function of what is there, not of how it came. */
  lemma {:induction false} SortedUnique(a: seq<HashedSegment>, b: seq<HashedSegment>)
    requires Sorted(a) && Sorted(b) && multiset(a) == multiset(b)
    ensures a == b
  {
    hide Sorted;
    assert |multiset(a)| == |a| && |multiset(b)| == |b|;
    if a != [] {
      HeadIsLeast(b, a[0]);
      HeadIsLeast(a, b[0]);
      SortedTail(a);
      SortedTail(b);
      SortedUnique(a[1..], b[1..]);
      assert a == [a[0]] + a[1..] && b == [b[0]] + b[1..];
    }
  }

  lemma {:induction false} ChunksConcat(a: seq<HashedSegment>, b: seq<HashedSegment>)
    ensures Chunks(a + b) == Chunks(a) + Chunks(b)
  {
    if a == [] {
      assert a + b == b;
    } else {
      assert (a + b)[1..] == a[1..] + b;
      ChunksConcat(a[1..], b);
    }
  }

  lemma {:induction false} ContentsConcat(a: seq<HashedSegment>, b: seq<HashedSegment>)
    ensures Contents(a + b) == Contents(a) + Contents(b)
  {
    if a == [] {
      assert a + b == b;
    } else {
      assert (a + b)[1..] == a[1..] + b;
      ContentsConcat(a[1..], b);
    }
  }

  lemma {:induction false} InsertChunks(ss: seq<HashedSegment>, x: HashedSegment)
    requires New(ss, x)
    ensures Chunks(Insert(ss, x)) == Chunks(ss) + x.chunkCount
  {
    if ss == [] || Less(x, ss[0]) { assert ([x] + ss)[1..] == ss; } else { InsertChunks(ss[1..], x); }
  }

  /** What has arrived is held in key order, and counted. */
  lemma {:induction false} RunHolds(total: nat, arrivals: seq<HashedSegment>)
    requires Distinct(arrivals)
    ensures var s := Run(Init(total), arrivals);
            && s.total == total && s.count == Chunks(arrivals) == Chunks(s.segments)
            && Sorted(s.segments) && multiset(s.segments) == multiset(arrivals)
    decreases |arrivals|
  {
    hide Less, Insert, Entry;
    if arrivals != [] {
      hide Sorted;
      var n := |arrivals| - 1;
      var front, x := arrivals[..n], arrivals[n];
      RunHolds(total, front);
      var s := Run(Init(total), front);
      LastIsNew(arrivals, s.segments);
      hide New, Distinct;
      InsertNew(s.segments, x);
      InsertChunks(s.segments, x);
      assert arrivals == front + [x];
      ChunksConcat(front, [x]);
    }
  }

  lemma {:induction false} LastIsNew(arrivals: seq<HashedSegment>, held: seq<HashedSegment>)
    requires arrivals != [] && Distinct(arrivals) && multiset(held) == multiset(arrivals[..|arrivals| - 1])
    ensures New(held, arrivals[|arrivals| - 1])
  {
    var n := |arrivals| - 1;
    forall y | y in held ensures Less(arrivals[n], y) || Less(y, arrivals[n]) {
      assert y in multiset(held);
      var i :| 0 <= i < n && arrivals[i] == y;
    }
  }

  ghost predicate Silent(s: State) { s.outcomes == [] && s.file == [] && s.open }

  lemma {:induction false} SilentUntil(total: nat, arrivals: seq<HashedSegment>)
    requires Distinct(arrivals) && Chunks(arrivals) < total
    ensures Silent(Run(Init(total), arrivals))
    decreases |arrivals|
  {
    hide Insert, Entry, Less, Sorted, Contents;
    if arrivals != [] {
      var n := |arrivals| - 1;
      FrontDistinct(arrivals);
      RunHolds(total, arrivals);
      hide Distinct;
      assert arrivals == arrivals[..n] + [arrivals[n]];
      ChunksConcat(arrivals[..n], [arrivals[n]]);
      SilentUntil(total, arrivals[..n]);
    }
  }

  /** Nothing is written before the last arrival, and the last one writes all the bytes and reports success. */
  ghost predicate WrittenOnLast(total: nat, arrivals: seq<HashedSegment>, bytes: seq<bv8>) {
    && (forall n :: 0 <= n < |arrivals| ==> Silent(Run(Init(total), arrivals[..n])))
    && var s := Run(Init(total), arrivals);
       s.outcomes == [Success] && !s.open && s.file == bytes
  }

  /** One run: it writes once, at the end, exactly when its last segment adds a chunk or is the only one. */
  lemma {:induction false} WrittenOnLastIff(expected: seq<HashedSegment>, arrivals: seq<HashedSegment>)
    requires Sorted(expected) && multiset(arrivals) == multiset(expected) && arrivals != []
    ensures WrittenOnLast(Chunks(expected), arrivals, Contents(expected))
      <==> |arrivals| == 1 || arrivals[|arrivals| - 1].chunkCount >= 1
  {
    PermutationDistinct(expected, arrivals);
    hide Run, Insert, Entry, Contents, Less, Sorted, Distinct;
    var total, n := Chunks(expected), |arrivals| - 1;
    FinalState(expected, arrivals);
    assert arrivals == arrivals[..n] + [arrivals[n]];
    ChunksConcat(arrivals[..n], [arrivals[n]]);
    assert Chunks([arrivals[n]]) == arrivals[n].chunkCount;
    if n == 0 || arrivals[n].chunkCount >= 1 {
      PrefixesSilent(total, arrivals);
      LastWrites(total, arrivals);
    } else {
      FrontDistinct(arrivals);
      LastStepFires(total, arrivals[..n]);
      assert !WrittenOnLast(total, arrivals, Contents(expected));
    }
  }

  lemma {:induction false} FrontDistinct(arrivals: seq<HashedSegment>)
    requires Distinct(arrivals) && arrivals != []
    ensures Distinct(arrivals[..|arrivals| - 1])
  {
  }

  lemma {:induction false} LastWrites(total: nat, arrivals: seq<HashedSegment>)
    requires Distinct(arrivals) && arrivals != [] && Chunks(arrivals) == total
    requires Silent(Run(Init(total), arrivals[..|arrivals| - 1]))
    ensures var s := Run(Init(total), arrivals);
            s.outcomes == [Success] && !s.open && s.file == Contents(s.segments)
  {
    hide Insert, Entry, Contents, Less, Sorted;
    RunHolds(total, arrivals);
  }

  lemma {:induction false} FinalState(expected: seq<HashedSegment>, arrivals: seq<HashedSegment>)
    requires Sorted(expected) && multiset(arrivals) == multiset(expected) && Distinct(arrivals)
    ensures var s := Run(Init(Chunks(expected)), arrivals);
            s.segments == expected && s.count == s.total == Chunks(expected) == Chunks(arrivals)
  {
    hide Run, Insert, Contents, Less, Sorted, Distinct;
    RunHolds(Chunks(expected), arrivals);
    SortedUnique(Run(Init(Chunks(expected)), arrivals).segments, expected);
  }

  lemma {:induction false} PrefixesSilent(total: nat, arrivals: seq<HashedSegment>)
    requires Distinct(arrivals) && arrivals != [] && Chunks(arrivals) == total
    requires |arrivals| == 1 || arrivals[|arrivals| - 1].chunkCount >= 1
    ensures forall m :: 0 <= m < |arrivals| ==> Silent(Run(Init(total), arrivals[..m]))
  {
    forall m | 0 <= m < |arrivals| ensures Silent(Run(Init(total), arrivals[..m])) {
      hide Run, Less;
      if m == 0 {
        RunNothing(Init(total));
      } else {
        var n := |arrivals| - 1;
        assert arrivals == arrivals[..m] + (arrivals[m..n] + [arrivals[n]]);
        ChunksConcat(arrivals[..m], arrivals[m..n] + [arrivals[n]]);
        ChunksConcat(arrivals[m..n], [arrivals[n]]);
        SilentUntil(total, arrivals[..m]);
      }
    }
  }

  lemma {:induction false} RunNothing(s: State)
    ensures Run(s, []) == s
  {
  }

  lemma {:induction false} LastStepFires(total: nat, arrivals: seq<HashedSegment>)
    requires Distinct(arrivals) && arrivals != [] && Chunks(arrivals) == total
    ensures Run(Init(total), arrivals).outcomes != []
  {
    hide Insert, Contents;
    RunHolds(total, arrivals);
  }

  /** The outcomes of a run that goes on after the file is written and closed. */
  function Reports(late: nat): seq<Outcome> {
    [Success] + seq(late, _ => Failure)
  }

  /** n is the first arrival with which the chunks reach the total. */
  ghost predicate Reaches(total: nat, arrivals: seq<HashedSegment>, n: nat) {
    1 <= n <= |arrivals| && Chunks(arrivals[..n]) == total && (n > 1 ==> Chunks(arrivals[..n - 1]) < total)
  }

  /**
   The first arrival that reaches the total writes what is there by then in key order and reports
   success; each later one finds the file closed and reports a failure, and the file stays as it is.
   */
  lemma {:induction false} LateArrivals(total: nat, arrivals: seq<HashedSegment>, n: nat, firsts: seq<HashedSegment>)
    requires Distinct(arrivals) && Chunks(arrivals) == total && Reaches(total, arrivals, n)
    requires Sorted(firsts) && multiset(firsts) == multiset(arrivals[..n])
    ensures var s := Run(Init(total), arrivals);
            s.outcomes == Reports(|arrivals| - n) && !s.open && s.file == Contents(firsts)
    decreases |arrivals|
  {
    hide Insert, Entry, Contents, Less, Sorted, Distinct;
    var front := arrivals[..|arrivals| - 1];
    FrontDistinct(arrivals);
    RunHolds(total, arrivals);
    if n == |arrivals| {
      assert arrivals[..n] == arrivals;
      if n == 1 { RunNothing(Init(total)); } else { SilentUntil(total, front); }
      LastWrites(total, arrivals);
      SortedUnique(Run(Init(total), arrivals).segments, firsts);
      assert Reports(0) == [Success];
    } else {
      assert front[..n] == arrivals[..n] && front[..n - 1] == arrivals[..n - 1];
      ChunksBetween(arrivals, n);
      LateArrivals(total, front, n, firsts);
      assert Reports(|arrivals| - n) == Reports(|front| - n) + [Failure];
    }
  }

  lemma {:induction false} InsertLength(ss: seq<HashedSegment>, x: HashedSegment)
    requires New(ss, x)
    ensures |Contents(Insert(ss, x))| == |Contents(ss)| + |x.memory|
  {
    if ss == [] || Less(x, ss[0]) { assert ([x] + ss)[1..] == ss; } else { InsertLength(ss[1..], x); }
  }

  /** Ordering what arrived keeps the number of bytes. */
  lemma {:induction false} RunLength(total: nat, arrivals: seq<HashedSegment>)
    requires Distinct(arrivals)
    ensures |Contents(Run(Init(total), arrivals).segments)| == |Contents(arrivals)|
    decreases |arrivals|
  {
    hide Less, Insert, Entry;
    if arrivals != [] {
      hide Sorted, Distinct, New, Chunks;
      var n := |arrivals| - 1;
      var front, x := arrivals[..n], arrivals[n];
      FrontDistinct(arrivals);
      RunHolds(total, front);
      RunLength(total, front);
      var s := Run(Init(total), front);
      LastIsNew(arrivals, s.segments);
      InsertLength(s.segments, x);
      assert arrivals == front + [x];
      ContentsConcat(front, [x]);
      OneContents(x);
    }
  }

  lemma OneContents(x: HashedSegment)
    ensures Contents([x]) == x.memory
  {
    assert [x][1..] == [];
  }

  /** What a run that was late leaves out: the bytes of the late arrivals. */
  lemma {:induction false} LateMissing(expected: seq<HashedSegment>, arrivals: seq<HashedSegment>, n: nat,
                                       firsts: seq<HashedSegment>)
    requires Sorted(expected) && multiset(arrivals) == multiset(expected) && n <= |arrivals|
    requires Sorted(firsts) && multiset(firsts) == multiset(arrivals[..n])
    ensures |Contents(firsts)| + |Contents(arrivals[n..])| == |Contents(expected)|
  {
    hide Run, Contents, Less, Sorted, Distinct, Chunks;
    var total := Chunks(expected);
    PermutationDistinct(expected, arrivals);
    PermutationDistinct(firsts, arrivals[..n]);
    FinalState(expected, arrivals);
    RunLength(total, arrivals);
    RunHolds(total, arrivals[..n]);
    RunLength(total, arrivals[..n]);
    SortedUnique(Run(Init(total), arrivals[..n]).segments, firsts);
    assert arrivals == arrivals[..n] + arrivals[n..];
    ContentsConcat(arrivals[..n], arrivals[n..]);
  }

  /** Some arrival is the first to reach the total. */
  lemma {:induction false} SomeReaches(total: nat, arrivals: seq<HashedSegment>) returns (n: nat)
    requires arrivals != [] && Chunks(arrivals) == total
    ensures Reaches(total, arrivals, n)
    decreases |arrivals|
  {
    n := |arrivals|;
    var front := arrivals[..n - 1];
    assert arrivals[..n] == arrivals;
    ChunksBetween(arrivals, n - 1);
    if n > 1 && Chunks(front) == total {
      var m := SomeReaches(total, front);
      assert front[..m] == arrivals[..m] && front[..m - 1] == arrivals[..m - 1];
      n := m;
    }
  }

  /** Chunks only grow along a run. */
  lemma {:induction false} ChunksBetween(arrivals: seq<HashedSegment>, n: nat)
    requires n < |arrivals|
    ensures Chunks(arrivals[..n]) <= Chunks(arrivals[..|arrivals| - 1]) <= Chunks(arrivals)
  {
    var m := |arrivals| - 1;
    assert arrivals == arrivals[..m] + [arrivals[m]] && arrivals[..m] == arrivals[..n] + arrivals[n..m];
    ChunksConcat(arrivals[..m], [arrivals[m]]);
    ChunksConcat(arrivals[..n], arrivals[n..m]);
  }

  lemma {:induction false} PermutationDistinct(expected: seq<HashedSegment>, arrivals: seq<HashedSegment>)
    requires Sorted(expected) && multiset(arrivals) == multiset(expected)
    ensures Distinct(arrivals)
  {
    forall i, j | 0 <= i < j < |arrivals| ensures Less(arrivals[i], arrivals[j]) || Less(arrivals[j], arrivals[i]) {
      var x, y := arrivals[i], arrivals[j];
      assert x in multiset(expected) && y in multiset(expected);
      if x == y {
        assert arrivals == arrivals[..i] + [x] + arrivals[i + 1..j] + [x] + arrivals[j + 1..];
        assert multiset(arrivals)[x] >= 2;
        AtMostOnce(expected, x);
      }
    }
  }

  lemma {:induction false} AtMostOnce(ss: seq<HashedSegment>, x: HashedSegment)
    requires Sorted(ss)
    ensures multiset(ss)[x] <= 1
  {
    if ss != [] {
      AtMostOnce(ss[1..], x);
      assert ss == [ss[0]] + ss[1..];
      if ss[0] == x { assert x !in ss[1..]; }
    }
  }

  /** Every order of arrival is fine exactly when there is one segment, or each holds a whole chunk. */
  lemma {:induction false} EveryOrderIff(expected: seq<HashedSegment>)
    requires Sorted(expected) && expected != []
    ensures (forall arrivals :: multiset(arrivals) == multiset(expected)
               ==> WrittenOnLast(Chunks(expected), arrivals, Contents(expected)))
      <==> |expected| == 1 || forall x :: x in expected ==> x.chunkCount >= 1
  {
    hide WrittenOnLast, Chunks, Contents, Sorted;
    if |expected| == 1 || forall x :: x in expected ==> x.chunkCount >= 1 {
      forall arrivals | multiset(arrivals) == multiset(expected)
        ensures WrittenOnLast(Chunks(expected), arrivals, Contents(expected))
      {
        assert |multiset(arrivals)| == |arrivals| && |multiset(expected)| == |expected|;
        assert arrivals[|arrivals| - 1] in multiset(expected);
        WrittenOnLastIff(expected, arrivals);
      }
    } else {
      var i :| 0 <= i < |expected| && expected[i].chunkCount == 0;
      var arrivals := EmptyLast(expected, i);
      WrittenOnLastIff(expected, arrivals);
    }
  }

  lemma {:induction false} EmptyLast(ss: seq<HashedSegment>, i: nat) returns (arrivals: seq<HashedSegment>)
    requires i < |ss|
    ensures multiset(arrivals) == multiset(ss) && |arrivals| == |ss| && arrivals[|arrivals| - 1] == ss[i]
  {
    var a, b := ss[..i], ss[i + 1..];
    arrivals := a + b + [ss[i]];
    assert ss == a + [ss[i]] + b;
  }
}
