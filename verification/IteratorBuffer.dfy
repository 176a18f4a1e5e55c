/** Fixed-size output buffers that flush: to an output iterator, to one that is cut off, or to a counter. */
module IteratorBuffer {
  import Words

  const BUFFER_SIZE: nat := 256

  /** iterator_buffer with buffer_traits, with fixed_buffer_traits, and counting_buffer. */
  datatype Target = Unlimited | Fixed(limit: nat) | Counting

  /** What has reached the target once the text has been flushed. */
  function Delivered(target: Target, text: seq<char>): seq<char> {
    match target
    case Unlimited => text
    case Fixed(limit) => text[..Words.Min(limit, |text|)]
    case Counting => []
  }

  lemma DeliveredMore(target: Target, text: seq<char>, more: seq<char>)
    ensures Delivered(target, text + more)
         == Delivered(target, text)
            + (match target
               case Unlimited => more
               case Fixed(limit) => more[..Words.Min(if limit > |text| then limit - |text| else 0, |more|)]
               case Counting => [])
  {
    if target.Fixed? && target.limit > |text| {
      var n := Words.Min(target.limit - |text|, |more|);
      assert (text + more)[..|text| + n] == text + more[..n];
    } else if target.Fixed? {
      assert (text + more)[..target.limit] == text[..target.limit];
    }
  }

  class Buffer {
    const target: Target
    const data: array<char>
    var size: nat
    var count: nat
    var output: seq<char>
    /** Everything ever written. */
    ghost var written: seq<char>

    ghost predicate Valid()
      reads this, data
    {
      && data.Length == BUFFER_SIZE && size <= BUFFER_SIZE && size <= |written|
      && written[|written| - size..] == data[..size]
      && output == Delivered(target, written[..|written| - size])
      && count == if target.Unlimited? then 0 else |written| - size
    }

    constructor (target: Target)
      ensures Valid() && fresh(data) && this.target == target && written == []
    {
      this.target := target;
      data := new char[BUFFER_SIZE](_ => '\0');
      size, count, output, written := 0, 0, [], [];
    }

    /** Traits::limit: how much of the next size characters goes out. */
    method Limit(n: nat) returns (take: nat)
      requires !target.Counting?
      modifies this`count
      ensures target.Fixed? ==> take == Words.Min(if target.limit > old(count) then target.limit - old(count) else 0, n)
      ensures !target.Fixed? ==> take == n
      ensures count == if target.Fixed? then old(count) + n else old(count)
    {
      if target.Unlimited? { return n; }
      var rest := if target.limit > count then target.limit - count else 0;
      count := count + n;
      take := if n < rest then n else rest;
    }

    method Flush()
      requires Valid() && !target.Counting?
      modifies this`size, this`count, this`output
      ensures Valid() && size == 0
    {
      ghost var before, rest := written[..|written| - size], data[..size];
      assert written == before + rest;
      DeliveredMore(target, before, rest);
      var take := Limit(size);
      output := output + data[..take];
      assert rest[..take] == data[..take];
      size := 0;
      assert written[..|written| - size] == written;
    }

    /** The virtual grow: capacity never changes, but a full buffer is emptied. */
    method Grow(capacity: nat)
      requires Valid()
      modifies this`size, this`count, this`output
      ensures Valid() && size == if old(size) == BUFFER_SIZE then 0 else old(size)
    {
      if size != BUFFER_SIZE { return; }
      if target.Counting? {
        count := count + size;
        size := 0;
        assert written[..|written| - size] == written;
      } else {
        Flush();
      }
    }

    /** There is room for one more, at least, whenever more than the whole buffer is asked for. */
    method TryReserve(newCapacity: nat)
      requires Valid()
      modifies this`size, this`count, this`output
      ensures Valid()
      ensures size == if newCapacity > BUFFER_SIZE && old(size) == BUFFER_SIZE then 0 else old(size)
      ensures size <= BUFFER_SIZE && (newCapacity > BUFFER_SIZE ==> size < BUFFER_SIZE)
    {
      if newCapacity > BUFFER_SIZE { Grow(newCapacity); }
    }

    method PushBack(c: char)
      requires Valid()
      modifies this, data
      ensures Valid() && written == old(written) + [c]
    {
      hide Delivered;
      TryReserve(size + 1);
      data[size] := c;
      written := written + [c];
      size := size + 1;
      Extended(old(written), [c]);
    }

    /** The data and the text written both grew by the same piece. */
    lemma Extended(before: seq<char>, piece: seq<char>)
      requires size >= |piece| && written == before + piece && |before| >= size - |piece|
      requires data.Length == BUFFER_SIZE && size <= BUFFER_SIZE
      requires before[|before| - (size - |piece|)..] == data[..size - |piece|] && data[size - |piece|..size] == piece
      ensures written[|written| - size..] == data[..size]
      ensures written[..|written| - size] == before[..|before| - (size - |piece|)]
    {
      assert data[..size] == data[..size - |piece|] + piece;
    }

    /** uninitialized_copy_n to the free part. */
    method CopyIn(piece: seq<char>)
      requires Valid() && size + |piece| <= BUFFER_SIZE
      modifies this`size, this`written, data
      ensures Valid() && written == old(written) + piece && size == old(size) + |piece|
    {
      hide Delivered;
      ghost var kept := data[..size];
      for i := 0 to |piece|
        modifies data
        invariant data[..size] == kept && data[size..size + i] == piece[..i]
      {
        data[size + i] := piece[i];
        assert data[size..size + i + 1] == data[size..size + i] + [piece[i]];
      }
      assert piece[..|piece|] == piece;
      written := written + piece;
      size := size + |piece|;
      Extended(old(written), piece);
    }

    /** Copies what fits of the text, after a flush if nothing does. */
    method AppendSome(text: seq<char>) returns (n: nat)
      requires Valid()
      modifies this`size, this`count, this`output, this`written, data
      ensures Valid() && n <= |text| && (text != [] ==> n > 0)
      ensures written == old(written) + text[..n]
    {
      hide Delivered;
      n := |text|;
      TryReserve(size + n);
      var freeCap := BUFFER_SIZE - size;
      if freeCap < n { n := freeCap; }
      CopyIn(text[..n]);
    }

    /** A loop that copies what fits, and flushes whenever nothing does. */
    method Append(text: seq<char>)
      requires Valid()
      modifies this`size, this`count, this`output, this`written, data
      ensures Valid() && written == old(written) + text
    {
      hide Buffer.Valid;
      var begin, started := 0, false;
      while !started || begin != |text|
        invariant Valid() && 0 <= begin <= |text|
        invariant written == old(written) + text[..begin]
        decreases |text| - begin, !started
      {
        started := true;
        var n := AppendSome(text[begin..]);
        Regroup(old(written), text, begin, n);
        begin := begin + n;
      }
      assert text[..begin] == text;
    }

    static lemma Regroup(a: seq<char>, text: seq<char>, i: nat, n: nat)
      requires i + n <= |text|
      ensures (a + text[..i]) + text[i..][..n] == a + text[..i + n]
    {
      assert text[..i] + text[i..][..n] == text[..i + n];
    }

    /** to_pointer, and the caller's writes through the pointer when there is one. */
    method WriteDirect(text: seq<char>) returns (ok: bool)
      requires Valid()
      modifies this, data
      ensures Valid() && ok == (old(size) + |text| <= BUFFER_SIZE)
      ensures written == if ok then old(written) + text else old(written)
    {
      if BUFFER_SIZE < size + |text| { return false; }
      CopyIn(text);
      return true;
    }

    /** out(): after the flush the target has all of the text, or its first characters. */
    method Out() returns (o: seq<char>)
      requires Valid() && !target.Counting?
      modifies this`size, this`count, this`output
      ensures Valid() && size == 0 && o == Delivered(target, written)
    {
      Flush();
      assert written[..|written|] == written;
      return output;
    }

    /** count(): with a limit and when counting, the total; without, only what is still buffered. */
    method Count() returns (n: nat)
      requires Valid()
      ensures n == if target.Unlimited? then size else |written|
    {
      return count + size;
    }
  }

  /** What a formatter does to its buffer. */
  datatype Action = Push(c: char) | Add(text: seq<char>) | Reserve(n: nat) | Direct(text: seq<char>)

  function TextOf(action: Action): seq<char> {
    match action
    case Push(c) => [c]
    case Add(text) => text
    case Reserve(_) => []
    case Direct(text) => text
  }

  function Text(actions: seq<Action>): seq<char> {
    if actions == [] then [] else TextOf(actions[0]) + Text(actions[1..])
  }

  /** A direct write that does not fit is appended. */
  method Perform(b: Buffer, action: Action)
    requires b.Valid()
    modifies b, b.data
    ensures b.Valid() && b.written == old(b.written) + TextOf(action)
  {
    match action {
      case Push(c) => b.PushBack(c);
      case Add(text) => b.Append(text);
      case Reserve(n) => b.TryReserve(b.size + n);
      case Direct(text) =>
        var ok := b.WriteDirect(text);
        if !ok { b.Append(text); }
    }
  }

  /** Any actions in any order: what is written is their text. */
  method Format(b: Buffer, actions: seq<Action>)
    requires b.Valid()
    modifies b, b.data
    ensures b.Valid() && b.written == old(b.written) + Text(actions)
  {
    hide TextOf;
    var i := 0;
    while i < |actions|
      invariant 0 <= i <= |actions| && b.Valid()
      invariant b.written + Text(actions[i..]) == old(b.written) + Text(actions)
    {
      ghost var before, piece, rest := b.written, TextOf(actions[i]), Text(actions[i + 1..]);
      assert actions[i..][1..] == actions[i + 1..];
      Perform(b, actions[i]);
      assert before + (piece + rest) == (before + piece) + rest;
      i := i + 1;
    }
  }

  /** vformat_to_n: the first n characters of the text, and the length of all of it. */
  method FormatToN(n: nat, actions: seq<Action>) returns (out: seq<char>, total: nat)
    ensures out == Text(actions)[..Words.Min(n, |Text(actions)|)]
    ensures total == |Text(actions)|
  {
    hide Text;
    var b := new Buffer(Fixed(n));
    Format(b, actions);
    assert b.written == Text(actions);
    out := b.Out();
    total := b.Count();
  }

  /** vformat_to with any output iterator: all of the text, once. */
  method FormatTo(actions: seq<Action>) returns (out: seq<char>)
    ensures out == Text(actions)
  {
    var b := new Buffer(Unlimited);
    Format(b, actions);
    out := b.Out();
  }

  /** formatted_size: the length of the text, whatever the actions. */
  method FormattedSize(actions: seq<Action>) returns (total: nat)
    ensures total == |Text(actions)|
  {
    var b := new Buffer(Counting);
    Format(b, actions);
    total := b.Count();
  }
}
