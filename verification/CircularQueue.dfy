/** spdlog's `circular_q`: a ring over a vector, one slot of which marks the full state. */
module CircularQueue {
  /** The queue after a push: the oldest item gives way when the capacity is exceeded. */
  function Pushed<T>(q: seq<T>, capacity: nat, x: T): (r: seq<T>)
    requires |q| <= capacity
    ensures |r| <= capacity
  {
    if |q| < capacity then q + [x] else (q + [x])[1..]
  }

  function PushedAll<T>(q: seq<T>, capacity: nat, xs: seq<T>): (r: seq<T>)
    requires |q| <= capacity
    ensures |r| <= capacity
    decreases |xs|
  {
    if xs == [] then q else PushedAll(Pushed(q, capacity, xs[0]), capacity, xs[1..])
  }

  function Last<T>(xs: seq<T>, n: nat): seq<T> {
    if |xs| <= n then xs else xs[|xs| - n..]
  }

  /** Whatever is pushed, a queue of capacity n holds the last n of its items, in order. */
  lemma {:induction false} KeepsTheLast<T>(q: seq<T>, capacity: nat, xs: seq<T>)
    requires |q| <= capacity
    ensures PushedAll(q, capacity, xs) == Last(q + xs, capacity)
    decreases |xs|
  {
    hide Last, Pushed;
    if xs == [] {
      AllLast(q, capacity);
      assert q + xs == q;
    } else {
      KeepsTheLast(Pushed(q, capacity, xs[0]), capacity, xs[1..]);
      PushedLast(q, capacity, xs[0], xs[1..]);
      assert xs == [xs[0]] + xs[1..];
    }
  }

  lemma AllLast<T>(q: seq<T>, capacity: nat)
    requires |q| <= capacity
    ensures Last(q, capacity) == q
  {
  }

  /** What a push drops is not among the last items of anything that follows. */
  lemma PushedLast<T>(q: seq<T>, capacity: nat, x: T, rest: seq<T>)
    requires |q| <= capacity
    ensures Last(Pushed(q, capacity, x) + rest, capacity) == Last(q + ([x] + rest), capacity)
  {
    var all := q + ([x] + rest);
    if |q| < capacity {
      assert (q + [x]) + rest == all;
    } else {
      assert (q + [x])[1..] + rest == all[1..];
    }
  }

  /** i % n for an index at most one round ahead. */
  function Wrap(i: nat, n: nat): (r: nat)
    requires i < 2 * n
    ensures r == if i < n then i else i - n
  {
    i % n
  }

  /** The items between head and tail, around the end of the vector if need be. */
  function Ring<T>(v: seq<T>, head: nat, tail: nat): (r: seq<T>)
    requires head <= |v| && tail <= |v|
    ensures |r| == if head <= tail then tail - head else |v| - head + tail
  {
    if head <= tail then v[head..tail] else v[head..] + v[..tail]
  }

  lemma RingPushRoom<T>(v: seq<T>, head: nat, tail: nat, x: T)
    requires head < |v| && tail < |v| && Wrap(tail + 1, |v|) != head
    ensures Ring(v[tail := x], head, Wrap(tail + 1, |v|)) == Ring(v, head, tail) + [x]
    ensures |Ring(v, head, tail)| < |v| - 1
  {
    hide Wrap;
    var w, all := v[tail := x], Ring(v, head, tail) + [x];
    if head <= tail {
      assert w[head..tail + 1] == all;
    } else {
      assert w[head..] == v[head..] && w[..tail + 1] == v[..tail] + [x];
    }
  }

  /** Into a full ring: the oldest item is lost. */
  lemma RingPushFull<T>(v: seq<T>, head: nat, tail: nat, x: T)
    requires head < |v| && tail < |v| && Wrap(tail + 1, |v|) == head
    ensures Ring(v[tail := x], Wrap(head + 1, |v|), head) == (Ring(v, head, tail) + [x])[1..]
    ensures |Ring(v, head, tail)| == |v| - 1
  {
    hide Wrap;
    var w, all := v[tail := x], Ring(v, head, tail) + [x];
    if head == 0 {
      assert w[1..] == all[1..];
      if |v| == 1 { assert Ring(w, 0, 0) == []; } else { assert w[1..] + w[..0] == w[1..]; }
    } else {
      var h := Wrap(head + 1, |v|);
      assert all == v[head..] + (v[..tail] + [x]) && w[..tail + 1] == v[..tail] + [x];
      assert all[1..] == w[head + 1..] + w[..tail + 1];
      if h == 0 { assert w[head + 1..] == [] && Ring(w, 0, head) == w[..head]; }
    }
  }

  /** A push on the ring: an item more, and the oldest gone if the ring was full. */
  lemma RingPush<T>(v: seq<T>, head: nat, tail: nat, x: T)
    requires head < |v| && tail < |v|
    ensures |Ring(v, head, tail)| <= |v| - 1
    ensures var t := Wrap(tail + 1, |v|);
            Ring(v[tail := x], if t == head then Wrap(head + 1, |v|) else head, t)
            == Pushed(Ring(v, head, tail), |v| - 1, x)
    ensures Wrap(tail + 1, |v|) == head <==> |Ring(v, head, tail)| == |v| - 1
  {
    hide Ring, Wrap;
    if Wrap(tail + 1, |v|) == head { RingPushFull(v, head, tail, x); } else { RingPushRoom(v, head, tail, x); }
  }

  lemma RingPop<T>(v: seq<T>, head: nat, tail: nat)
    requires head < |v| && tail < |v| && head != tail
    ensures var all := Ring(v, head, tail);
            all != [] && all[0] == v[head] && Ring(v, Wrap(head + 1, |v|), tail) == all[1..]
  {
    hide Wrap;
  }

  lemma RingAt<T>(v: seq<T>, head: nat, tail: nat, i: nat)
    requires head < |v| && tail < |v| && i < |Ring(v, head, tail)|
    ensures head + i < 2 * |v| && Ring(v, head, tail)[i] == v[Wrap(head + i, |v|)]
  {
    hide Wrap;
  }

  lemma EmptyRing<T>(v: seq<T>)
    ensures Ring(v, 0, 0) == []
  {
  }

  /** Everything pushed, everything that left, and which of that was overrun and which popped. */
  datatype History<T> = History(pushed: seq<T>, gone: seq<T>, overrun: seq<T>, popped: seq<T>)

  /** Items leave in the order they came, popped or overrun, and the overrun ones are counted. */
  ghost predicate Accounted<T>(h: History<T>, contents: seq<T>, overruns: nat) {
    && h.gone + contents == h.pushed
    && multiset(h.gone) == multiset(h.overrun) + multiset(h.popped) && |h.overrun| == overruns
  }

  function Grown<T>(h: History<T>, x: T): (r: History<T>)
    ensures r.pushed == h.pushed + [x] && r.popped == h.popped
  {
    h.(pushed := h.pushed + [x])
  }

  function Overrun<T>(h: History<T>, x: T): (r: History<T>)
    ensures r.pushed == h.pushed && r.popped == h.popped
  {
    h.(gone := h.gone + [x], overrun := h.overrun + [x])
  }

  function Popped<T>(h: History<T>, x: T): History<T> { h.(gone := h.gone + [x], popped := h.popped + [x]) }

  lemma NothingAccounted<T>(h: History<T>)
    requires h == History([], [], [], [])
    ensures Accounted(h, [], 0)
  {
  }

  lemma OneComes<T>(h: History<T>, contents: seq<T>, overruns: nat, x: T)
    requires Accounted(h, contents, overruns)
    ensures Accounted(Grown(h, x), contents + [x], overruns)
  {
    assert h.gone + (contents + [x]) == (h.gone + contents) + [x];
  }

  lemma OneLeaves<T>(h: History<T>, contents: seq<T>, overruns: nat)
    requires Accounted(h, contents, overruns) && contents != []
    ensures Accounted(Overrun(h, contents[0]), contents[1..], overruns + 1)
    ensures Accounted(Popped(h, contents[0]), contents[1..], overruns)
  {
    assert (h.gone + [contents[0]]) + contents[1..] == h.gone + contents;
  }

  /** The history after a push. */
  function Logged<T>(h: History<T>, contents: seq<T>, capacity: nat, x: T): (r: History<T>)
    requires |contents| <= capacity
    ensures r.pushed == h.pushed + [x] && r.popped == h.popped
  {
    if |contents| < capacity then Grown(h, x) else Overrun(Grown(h, x), (contents + [x])[0])
  }

  lemma PushAccounted<T>(h: History<T>, contents: seq<T>, capacity: nat, overruns: nat, x: T)
    requires |contents| <= capacity && Accounted(h, contents, overruns)
    ensures Accounted(Logged(h, contents, capacity, x), Pushed(contents, capacity, x),
                      if |contents| == capacity then overruns + 1 else overruns)
  {
    hide Accounted, Grown, Overrun;
    OneComes(h, contents, overruns, x);
    OneLeaves(Grown(h, x), contents + [x], overruns);
  }

  class CircularQ<T(0)> {
    var maxItems: nat
    var head: nat
    var tail: nat
    var overrunCounter: nat
    var v: array<T>

    ghost var history: History<T>

    ghost predicate Valid()
      reads this, v
    {
      && v.Length == maxItems
      && (if maxItems == 0 then head == tail == 0 else head < maxItems && tail < maxItems)
      && Accounted(history, Contents(), overrunCounter)
    }

    ghost function Contents(): seq<T>
      reads this, v
    {
      if head <= v.Length && tail <= v.Length then Ring(v[..], head, tail) else []
    }

    ghost function Capacity(): nat
      reads this
    {
      if maxItems == 0 then 0 else maxItems - 1
    }

    /** A disabled queue. */
    constructor Disabled()
      ensures Valid() && fresh(v) && maxItems == 0 && Contents() == [] && history == History([], [], [], [])
    {
      maxItems, head, tail, overrunCounter := 0, 0, 0, 0;
      v := new T[0];
      history := History([], [], [], []);
    }

    constructor (n: nat)
      ensures Valid() && fresh(v) && maxItems == n + 1 && Contents() == [] && history == History([], [], [], [])
      ensures overrunCounter == 0
    {
      maxItems, head, tail, overrunCounter := n + 1, 0, 0, 0;
      v := new T[n + 1];
      history := History([], [], [], []);
    }

    method PushBack(item: T)
      requires Valid()
      modifies this, v
      ensures Valid() && v == old(v) && maxItems == old(maxItems)
      ensures maxItems == 0 ==>
                Contents() == old(Contents()) && overrunCounter == old(overrunCounter) && history == old(history)
      ensures maxItems > 0 ==>
                && |old(Contents())| <= Capacity()
                && Contents() == Pushed(old(Contents()), Capacity(), item)
                && history.pushed == old(history).pushed + [item]
                && overrunCounter == old(overrunCounter) + (if |old(Contents())| == Capacity() then 1 else 0)
                && history.popped == old(history).popped
    {
      hide Ring, Wrap, Accounted, Logged, Pushed;
      if maxItems > 0 {
        RingPush(v[..], head, tail, item);
        PushAccounted(history, Contents(), Capacity(), overrunCounter, item);
        history := Logged(history, Contents(), Capacity(), item);
        v[tail] := item;
        tail := Wrap(tail + 1, maxItems);
        if tail == head {
          head := Wrap(head + 1, maxItems);
          overrunCounter := overrunCounter + 1;
        }
      }
    }

    method Front() returns (x: T)
      requires Valid() && Contents() != []
      ensures x == Contents()[0]
    {
      x := v[head];
    }

    method Size() returns (n: nat)
      requires Valid()
      ensures n == |Contents()|
    {
      if tail >= head { n := tail - head; } else { n := maxItems - (head - tail); }
    }

    method At(i: nat) returns (x: T)
      requires Valid() && i < |Contents()|
      ensures x == Contents()[i]
    {
      RingAt(v[..], head, tail, i);
      x := v[Wrap(head + i, maxItems)];
    }

    method PopFront()
      requires Valid() && Contents() != []
      modifies this`head, this`history
      ensures Valid()
      ensures Contents() == old(Contents())[1..]
      ensures history == Popped(old(history), old(Contents())[0])
    {
      hide Ring, Wrap, Accounted, Popped;
      ghost var c := Contents();
      RingPop(v[..], head, tail);
      OneLeaves(history, c, overrunCounter);
      head := Wrap(head + 1, maxItems);
      history := Popped(history, c[0]);
    }

    method Empty() returns (b: bool)
      requires Valid()
      ensures b <==> Contents() == []
    {
      b := tail == head;
    }

    /** A disabled queue is never full. */
    method Full() returns (b: bool)
      requires Valid()
      ensures b <==> maxItems > 0 && |Contents()| == Capacity()
    {
      if maxItems > 0 { b := Wrap(tail + 1, maxItems) == head; } else { b := false; }
    }

    /** Takes over other's items and history and leaves it disabled. */
    method MoveFrom(other: CircularQ<T>)
      requires other.Valid()
      modifies this, other
      ensures Valid() && other.Valid()
      ensures other != this ==>
                && maxItems == old(other.maxItems) && v == old(other.v) && Contents() == old(other.Contents())
                && overrunCounter == old(other.overrunCounter) && history == old(other.history)
      ensures other.maxItems == 0 && other.Contents() == [] && other.overrunCounter == 0
      ensures other.history == History([], [], [], [])
      ensures fresh(other.v)
    {
      hide Ring, Accounted;
      maxItems, head, tail, overrunCounter, v := other.maxItems, other.head, other.tail, other.overrunCounter, other.v;
      history := other.history;
      other.maxItems, other.head, other.tail, other.overrunCounter := 0, 0, 0, 0;
      other.v := new T[0];
      other.history := History([], [], [], []);
      EmptyRing(other.v[..]);
      NothingAccounted(other.history);
      assert other != this ==> v[..] == old(other.v[..]);
    }
  }
}
