/** The two readers of a ring of log messages. */
module Backtrace {
  import opened CircularQueue

  lemma Shift<M>(handed: seq<M>, front: M, rest: seq<M>)
    requires rest != [] && rest[0] == front
    ensures (handed + [front]) + rest[1..] == handed + rest
  {
  }

  class Backtracer<M(0)> {
    const messages: CircularQ<M>
    var enabled: bool

    ghost predicate Valid()
      reads this, messages, messages.v
    {
      messages.Valid()
    }

    constructor ()
      ensures Valid() && fresh(messages) && fresh(messages.v) && messages.Contents() == [] && messages.maxItems == 0
    {
      messages := new CircularQ.Disabled();
      enabled := false;
    }

    /** Replaces the ring by an empty one for size messages. */
    method Enable(size: nat)
      requires Valid()
      modifies this, messages
      ensures Valid() && enabled && messages.Contents() == [] && messages.maxItems == size + 1
      ensures fresh(messages.v)
    {
      enabled := true;
      var q := new CircularQ<M>(size);
      messages.MoveFrom(q);
    }

    method PushBack(msg: M)
      requires Valid()
      modifies messages, messages.v
      ensures Valid() && messages.v == old(messages.v) && messages.maxItems == old(messages.maxItems)
      ensures messages.maxItems > 0 ==>
                |old(messages.Contents())| <= messages.Capacity()
                && messages.Contents() == Pushed(old(messages.Contents()), messages.Capacity(), msg)
    {
      messages.PushBack(msg);
    }

    /** foreach_pop: hands over every message, oldest first, and leaves the ring empty. */
    method ForeachPop() returns (handed: seq<M>)
      requires Valid()
      modifies messages`head, messages`history
      ensures Valid() && messages.Contents() == []
      ensures handed == old(messages.Contents())
    {
      hide Ring, Accounted, Popped, CircularQ<M>.Contents;
      handed := [];
      ghost var all := messages.Contents();
      ghost var rest := all;
      var empty := messages.Empty();
      while !empty
        invariant Valid()
        invariant messages.Contents() == rest && handed + rest == all
        invariant empty <==> rest == []
        decreases |rest|
      {
        var front := messages.Front();
        messages.PopFront();
        Shift(handed, front, rest);
        handed := handed + [front];
        rest := rest[1..];
        empty := messages.Empty();
      }
    }

    /** Enabling, logging any messages and dumping yields exactly the last ones, in order. */
    method Dump(size: nat, log: seq<M>) returns (handed: seq<M>)
      requires Valid()
      modifies this, messages
      ensures handed == Last(log, size)
    {
      hide Ring, Last, Pushed;
      Enable(size);
      var i := 0;
      NothingYet(size);
      assert log[..0] == [];
      while i < |log|
        invariant 0 <= i <= |log| && Valid() && messages.maxItems == size + 1 && fresh(messages.v)
        invariant messages.Contents() == Last(log[..i], size)
      {
        PushBack(log[i]);
        assert log[..i + 1] == log[..i] + [log[i]];
        LastSnoc(log[..i], size, log[i]);
        i := i + 1;
      }
      assert log[..i] == log;
      handed := ForeachPop();
    }

    static lemma NothingYet(n: nat)
      ensures Last<M>([], n) == []
    {
    }

    static lemma LastSnoc(xs: seq<M>, n: nat, x: M)
      ensures |Last(xs, n)| <= n && Pushed(Last(xs, n), n, x) == Last(xs + [x], n)
    {
    }
  }

  class RingbufferSink<M(0)> {
    const q: CircularQ<M>

    ghost predicate Valid()
      reads this, q, q.v
    {
      q.Valid()
    }

    constructor (nItems: nat)
      ensures Valid() && fresh(q) && fresh(q.v) && q.maxItems == nItems + 1 && q.Contents() == []
    {
      q := new CircularQ(nItems);
    }

    method SinkIt(msg: M)
      requires Valid() && q.maxItems > 0
      modifies q, q.v
      ensures Valid() && q.v == old(q.v) && q.maxItems == old(q.maxItems)
      ensures |old(q.Contents())| <= q.Capacity() && q.Contents() == Pushed(old(q.Contents()), q.Capacity(), msg)
    {
      q.PushBack(msg);
    }

    /** last_raw: the lim most recent messages, or all of them when lim is zero. */
    method LastRaw(lim: nat) returns (ret: seq<M>)
      requires Valid()
      ensures ret == if lim > 0 then Last(q.Contents(), lim) else q.Contents()
    {
      hide Ring, Accounted, CircularQ<M>.Contents;
      ghost var c := q.Contents();
      var itemsAvailable := q.Size();
      var nItems := if lim > 0 then (if itemsAvailable < lim then itemsAvailable else lim) else itemsAvailable;
      ret := [];
      var i := itemsAvailable - nItems;
      while i < itemsAvailable
        invariant itemsAvailable - nItems <= i <= itemsAvailable
        invariant ret == c[itemsAvailable - nItems..i]
      {
        var x := q.At(i);
        ret := ret + [x];
        i := i + 1;
      }
    }
  }
}
