/** rotating_file_sink over an abstract file system: a map from file names to contents. */
module RotatingSink {
  import opened FileNames

  type Files = map<string, string>

  function Slot(base: string, i: nat): string { CalcFilename(base, i) }

  ghost predicate IsSlot(base: string, max: nat, name: string) { exists i: nat :: i <= max && name == Slot(base, i) }

  ghost predicate SameFile(before: Files, x: string, after: Files, y: string) {
    (x in before <==> y in after) && (x in before ==> before[x] == after[y])
  }

  /**
   One rotation: the active file is empty, every file moves up one, and the last is replaced if there
   is one to replace it.
   */
  ghost predicate IsRotation(before: Files, after: Files, base: string, max: nat) {
    && base in after && after[base] == ""
    && (forall i :: 1 <= i < max ==> SameFile(before, Slot(base, i - 1), after, Slot(base, i)))
    && (max > 0 ==> SameFile(before, Slot(base, if Slot(base, max - 1) in before then max - 1 else max),
                             after, Slot(base, max)))
    && forall name :: !IsSlot(base, max, name) ==> SameFile(before, name, after, name)
  }

  lemma {:induction false} RotationUnique(before: Files, a: Files, b: Files, base: string, max: nat)
    requires IsRotation(before, a, base, max) && IsRotation(before, b, base, max)
    ensures a == b
  {
    ActiveSlot(base);
    hide Slot;
    forall name ensures (name in a <==> name in b) && (name in a ==> a[name] == b[name]) {
      if IsSlot(base, max, name) {
        var i: nat :| i <= max && name == Slot(base, i);
        if 0 < i < max {
          assert SameFile(before, Slot(base, i - 1), a, Slot(base, i));
          assert SameFile(before, Slot(base, i - 1), b, Slot(base, i));
        }
      } else {
        assert SameFile(before, name, a, name) && SameFile(before, name, b, name);
      }
    }
  }

  lemma {:induction false} ActiveSlot(base: string)
    ensures Slot(base, 0) == base
  {
  }

  lemma {:induction false} SlotsDiffer(base: string, i: nat, j: nat)
    requires i != j
    ensures Slot(base, i) != Slot(base, j)
  {
    if Slot(base, i) == Slot(base, j) { CalcFilenameInjective(base, i, j); }
  }

  lemma {:induction false} SlotsAllDiffer(base: string)
    ensures forall i: nat, j: nat {:trigger Slot(base, i), Slot(base, j)} :: i != j ==> Slot(base, i) != Slot(base, j)
  {
    hide Slot;
    forall i: nat, j: nat | i != j ensures Slot(base, i) != Slot(base, j) { SlotsDiffer(base, i, j); }
  }

  /** The rename loop with index i to do next: the files above i have moved up, and i itself has been emptied. */
  ghost predicate Shifted(before: Files, f: Files, base: string, max: nat, i: nat) {
    && (forall j :: 0 <= j < i ==> SameFile(before, Slot(base, j), f, Slot(base, j)))
    && (i < max ==> Slot(base, i) !in f)
    && (forall j :: i < j < max ==> SameFile(before, Slot(base, j - 1), f, Slot(base, j)))
    && SameFile(before, Slot(base, if i < max && Slot(base, max - 1) in before then max - 1 else max),
                f, Slot(base, max))
    && forall name :: !IsSlot(base, max, name) ==> SameFile(before, name, f, name)
  }

  lemma {:induction false} ShiftOne(before: Files, f: Files, g: Files, base: string, max: nat, i: nat)
    requires 0 < i <= max && Shifted(before, f, base, max, i)
    requires g == if Slot(base, i - 1) in f then (f - {Slot(base, i - 1)})[Slot(base, i) := f[Slot(base, i - 1)]] else f
    ensures Shifted(before, g, base, max, i - 1)
  {
    hide Slot;
    SlotsAllDiffer(base);
    assert SameFile(before, Slot(base, i - 1), f, Slot(base, i - 1));
    assert IsSlot(base, max, Slot(base, i - 1)) && IsSlot(base, max, Slot(base, i));
  }

  lemma {:induction false} ShiftedAll(before: Files, f: Files, base: string, max: nat)
    requires Shifted(before, f, base, max, 0)
    ensures IsRotation(before, f[base := ""], base, max)
  {
    ActiveSlot(base);
    hide Slot;
    SlotsAllDiffer(base);
    assert IsSlot(base, max, Slot(base, 0));
  }

  datatype Sink = Sink(files: Files, currentSize: nat)

  ghost predicate Opened(files: Files, base: string, max: nat, rotateOnOpen: bool, s: Sink) {
    var f := if base in files then files else files[base := ""];
    s.currentSize == |f[base]|
    && if rotateOnOpen && f[base] != "" then IsRotation(f, s.files, base, max) else s.files == f
  }

  /** One message: appended, or after a rotation the first of the new active file. */
  ghost predicate Sunk(s: Sink, m: string, t: Sink, base: string, maxSize: nat, max: nat) {
    base in s.files && base in t.files
    && if s.currentSize + |m| > maxSize then
         IsRotation(s.files, t.files[base := ""], base, max) && t.files[base] == m && t.currentSize == |m|
       else
         t == Sink(s.files[base := s.files[base] + m], s.currentSize + |m|)
  }

  /** A run: consecutive states, one message between each two. */
  ghost predicate Run(states: seq<Sink>, messages: seq<string>, base: string, maxSize: nat, max: nat) {
    |states| == |messages| + 1
    && forall i :: 0 <= i < |messages| ==> Sunk(states[i], messages[i], states[i + 1], base, maxSize, max)
  }

  class RotatingFileSink {
    const base: string
    const maxSize: nat
    const maxFiles: nat
    var files: Files
    var currentSize: nat

    ghost function View(): Sink
      reads this
    {
      Sink(files, currentSize)
    }

    /** The file is opened for appending, and rotated away at once if that is asked for and it is not empty. */
    constructor (files: Files, base: string, maxSize: nat, maxFiles: nat, rotateOnOpen: bool)
      ensures this.base == base && this.maxSize == maxSize && this.maxFiles == maxFiles
      ensures Opened(files, base, maxFiles, rotateOnOpen, View()) && base in this.files
    {
      this.base, this.maxSize, this.maxFiles := base, maxSize, maxFiles;
      this.files := if base in files then files else files[base := ""];
      this.currentSize := |if base in files then files[base] else ""|;
      new;
      if rotateOnOpen && currentSize > 0 {
        Rotate();
      }
    }

    /** remove, then rename, which fails when there is no source any more. */
    method RenameFile(src: string, target: string) returns (ok: bool)
      modifies this`files
      ensures ok <==> src in old(files) && src != target
      ensures files == if ok then (old(files) - {src})[target := old(files)[src]] else old(files) - {target}
    {
      files := files - {target};
      if src !in files { return false; }
      files := (files - {src})[target := files[src]];
      return true;
    }

    method Rotate()
      modifies this`files
      ensures IsRotation(old(files), files, base, maxFiles)
    {
      hide CalcFilename, IsSlot;
      ghost var before := files;
      ActiveSlot(base);
      var i := maxFiles;
      while i > 0
        modifies this`files
        invariant 0 <= i <= maxFiles
        invariant Shifted(before, files, base, maxFiles, i)
      {
        var src, target := Slot(base, i - 1), Slot(base, i);
        SlotsDiffer(base, i - 1, i);
        ghost var f := files;
        if src in files {
          var ok := RenameFile(src, target);
          assert ok;
        }
        ShiftOne(before, f, files, base, maxFiles, i);
        i := i - 1;
      }
      ShiftedAll(before, files, base, maxFiles);
      files := files[base := ""];
    }

    method SinkIt(formatted: string)
      requires base in files
      modifies this`files, this`currentSize
      ensures base in files && Sunk(old(View()), formatted, View(), base, maxSize, maxFiles)
    {
      hide IsSlot, SameFile, Slot;
      currentSize := currentSize + |formatted|;
      if currentSize > maxSize {
        Rotate();
        currentSize := |formatted|;
        ghost var rotated := files;
        files := files[base := files[base] + formatted];
        assert files[base := ""] == rotated;
        return;
      }
      files := files[base := files[base] + formatted];
    }

    /** Any messages one after another make a run. */
    method SinkAll(messages: seq<string>) returns (ghost states: seq<Sink>)
      requires base in files
      modifies this`files, this`currentSize
      ensures base in files && Run(states, messages, base, maxSize, maxFiles)
      ensures states[0] == old(View()) && states[|messages|] == View()
    {
      hide Sunk;
      states := [View()];
      for i := 0 to |messages|
        invariant base in files && |states| == i + 1 && states[0] == old(View()) && states[i] == View()
        invariant forall k :: 0 <= k < i ==> Sunk(states[k], messages[k], states[k + 1], base, maxSize, maxFiles)
      {
        SinkIt(messages[i]);
        states := states + [View()];
      }
    }
  }

  function Concat(ss: seq<string>): string {
    if ss == [] then "" else ss[0] + Concat(ss[1..])
  }

  lemma {:induction false} ConcatSnoc(ss: seq<string>, m: string)
    ensures Concat(ss + [m]) == Concat(ss) + m
  {
    if ss == [] {
      assert Concat([m]) == m + "";
    } else {
      assert (ss + [m])[1..] == ss[1..] + [m];
      ConcatSnoc(ss[1..], m);
    }
  }

  /** parts[i] lists what the file of index i holds, piece by piece; a missing file holds nothing. */
  ghost predicate Holds(files: Files, base: string, parts: seq<seq<string>>) {
    forall i :: 0 <= i < |parts| ==>
      if Slot(base, i) in files then files[Slot(base, i)] == Concat(parts[i]) else parts[i] == []
  }

  /** All the pieces, oldest file first. */
  function Flat(parts: seq<seq<string>>): seq<string> {
    if parts == [] then [] else Flat(parts[1..]) + parts[0]
  }

  lemma {:induction false} FlatConcat(a: seq<seq<string>>, b: seq<seq<string>>)
    ensures Flat(a + b) == Flat(b) + Flat(a)
  {
    if a == [] {
      assert a + b == b;
    } else {
      assert (a + b)[1..] == a[1..] + b;
      FlatConcat(a[1..], b);
    }
  }

  ghost predicate IsSuffix(a: seq<string>, b: seq<string>) { |a| <= |b| && b[|b| - |a|..] == a }

  /** What a rotation does to the pieces. */
  function RotateParts(parts: seq<seq<string>>, moved: bool): (r: seq<seq<string>>)
    requires parts != []
    ensures |r| == |parts| && r[0] == []
  {
    var max := |parts| - 1;
    if max == 0 then [[]]
    else [[]] + parts[..max - 1] + [if moved then parts[max - 1] else parts[max]]
  }

  lemma {:induction false} RotateFlat(parts: seq<seq<string>>, moved: bool)
    requires parts != [] && (|parts| > 1 && !moved ==> parts[|parts| - 2] == [])
    ensures IsSuffix(Flat(RotateParts(parts, moved)), Flat(parts))
    ensures parts[|parts| - 1] == [] ==> Flat(RotateParts(parts, moved)) == Flat(parts)
  {
    var max := |parts| - 1;
    var q, r := parts[max], RotateParts(parts, moved);
    if max == 0 {
      assert parts[1..] == [] && r[1..] == [];
    } else {
      var front, p := parts[..max - 1], parts[max - 1];
      var last := if moved then p else q;
      assert parts == front + [p, q];
      assert r[1..] == front + [last];
      FlatConcat(front, [p, q]);
      FlatConcat(front, [last]);
      FlatPair(p, q);
      FlatOne(last);
      hide Flat, RotateParts;
      assert (q + p) + Flat(front) == q + (p + Flat(front));
      if !moved { assert q + p == q; }
    }
  }

  lemma {:induction false} FlatOne(p: seq<string>)
    ensures Flat([p]) == p
  {
    assert [p][1..] == [];
  }

  lemma {:induction false} FlatPair(p: seq<string>, q: seq<string>)
    ensures Flat([p, q]) == q + p
  {
    assert [p, q][1..] == [q];
    FlatOne(q);
  }

  lemma {:induction false} RotateHolds(before: Files, after: Files, base: string, parts: seq<seq<string>>)
    requires parts != [] && Holds(before, base, parts) && IsRotation(before, after, base, |parts| - 1)
    ensures Holds(after, base, RotateParts(parts, |parts| > 1 && Slot(base, |parts| - 2) in before))
  {
    ActiveSlot(base);
    hide Slot, IsSlot;
    var max := |parts| - 1;
    var r := RotateParts(parts, max > 0 && Slot(base, max - 1) in before);
    forall i | 0 <= i < |r|
      ensures if Slot(base, i) in after then after[Slot(base, i)] == Concat(r[i]) else r[i] == []
    {
      if 0 < i < max {
        assert r[i] == parts[i - 1];
        assert SameFile(before, Slot(base, i - 1), after, Slot(base, i));
      }
    }
  }

  /** One message on the pieces: it is added whole to the active file, and at most the oldest file goes. */
  lemma {:induction false} SunkParts(s: Sink, m: string, t: Sink, base: string, maxSize: nat, parts: seq<seq<string>>)
    returns (next: seq<seq<string>>)
    requires parts != [] && Holds(s.files, base, parts) && Sunk(s, m, t, base, maxSize, |parts| - 1)
    ensures |next| == |parts| && Holds(t.files, base, next)
    ensures IsSuffix(Flat(next), Flat(parts) + [m])
    ensures s.currentSize + |m| <= maxSize || Slot(base, |parts| - 1) !in s.files ==> Flat(next) == Flat(parts) + [m]
  {
    hide Slot, IsRotation, Concat, Holds, Flat;
    if s.currentSize + |m| > maxSize {
      var rotated := RotationParts(s.files, t.files[base := ""], base, parts);
      next := AddActive(t.files[base := ""], base, rotated, [m], m);
      OnePiece(m);
      assert t.files[base := ""][base := m] == t.files;
      assert rotated[0] == [] && [] + [m] == [m];
      SuffixAppend(Flat(rotated), Flat(parts), m);
    } else {
      ActiveHolds(s.files, base, parts);
      ConcatSnoc(parts[0], m);
      next := AddActive(s.files, base, parts, parts[0] + [m], m);
    }
  }

  lemma {:induction false} SuffixAppend(a: seq<string>, b: seq<string>, m: string)
    requires IsSuffix(a, b)
    ensures IsSuffix(a + [m], b + [m])
  {
  }

  lemma {:induction false} RotationParts(before: Files, after: Files, base: string, parts: seq<seq<string>>)
    returns (rotated: seq<seq<string>>)
    requires parts != [] && Holds(before, base, parts) && IsRotation(before, after, base, |parts| - 1)
    ensures |rotated| == |parts| && rotated[0] == [] && Holds(after, base, rotated)
    ensures IsSuffix(Flat(rotated), Flat(parts))
    ensures Slot(base, |parts| - 1) !in before ==> Flat(rotated) == Flat(parts)
  {
    hide Slot, IsRotation, Concat, Holds, Flat;
    var moved := |parts| > 1 && Slot(base, |parts| - 2) in before;
    RotateHolds(before, after, base, parts);
    if |parts| > 1 && !moved { Missing(before, base, parts, |parts| - 2); }
    if Slot(base, |parts| - 1) !in before { Missing(before, base, parts, |parts| - 1); }
    RotateFlat(parts, moved);
    rotated := RotateParts(parts, moved);
  }

  lemma {:induction false} AddActive(files: Files, base: string, parts: seq<seq<string>>, active: seq<string>,
                                     m: string)
    returns (next: seq<seq<string>>)
    requires parts != [] && Holds(files, base, parts) && active == parts[0] + [m]
    ensures |next| == |parts| && Holds(files[base := Concat(active)], base, next)
    ensures Flat(next) == Flat(parts) + [m]
  {
    hide Slot, Concat, Holds, Flat;
    next := parts[0 := active];
    FlatActive(parts, active);
    ReplaceActive(files, base, parts, active);
    assert Flat(parts[1..]) + (parts[0] + [m]) == (Flat(parts[1..]) + parts[0]) + [m];
  }

  lemma {:induction false} Missing(files: Files, base: string, parts: seq<seq<string>>, i: nat)
    requires i < |parts| && Holds(files, base, parts) && Slot(base, i) !in files
    ensures parts[i] == []
  {
  }

  lemma {:induction false} ActiveHolds(files: Files, base: string, parts: seq<seq<string>>)
    requires parts != [] && Holds(files, base, parts) && base in files
    ensures files[base] == Concat(parts[0])
  {
    ActiveSlot(base);
  }

  lemma {:induction false} ReplaceActive(files: Files, base: string, parts: seq<seq<string>>, active: seq<string>)
    requires parts != [] && Holds(files, base, parts)
    ensures Holds(files[base := Concat(active)], base, parts[0 := active])
  {
    ActiveSlot(base);
    SlotsAllDiffer(base);
    hide Slot, Concat;
  }

  lemma {:induction false} FlatActive(parts: seq<seq<string>>, active: seq<string>)
    requires parts != []
    ensures Flat(parts[0 := active]) == Flat(parts[1..]) + active
    ensures Flat(parts) == Flat(parts[1..]) + parts[0]
  {
    assert parts[0 := active][1..] == parts[1..];
  }

  lemma {:induction false} OnePiece(m: string)
    ensures Concat([m]) == m
  {
    assert [m][1..] == [];
  }

  /** The files hold the last of the pieces, in order, each whole and within one file. */
  ghost predicate KeepsLast(files: Files, base: string, max: nat, pieces: seq<string>) {
    exists parts :: |parts| == max + 1 && Holds(files, base, parts) && IsSuffix(Flat(parts), pieces)
  }

  lemma {:induction false} SuffixSnoc(a: seq<string>, b: seq<string>, c: seq<string>, m: string)
    requires IsSuffix(a, b) && IsSuffix(c, a + [m])
    ensures IsSuffix(c, b + [m])
  {
    if c != [] {
      assert c == (a + [m])[|a| + 1 - |c|..];
      var k := |b| + 1 - |c|;
      assert forall i :: 0 <= i < |c| ==> (b + [m])[k..][i] == c[i];
    }
  }

  /** The number of messages of a run that rotate the files first. */
  function Rotations(states: seq<Sink>, messages: seq<string>, maxSize: nat): nat
    requires |states| == |messages| + 1
    decreases |messages|
  {
    if messages == [] then 0
    else
      var n := |messages| - 1;
      Rotations(states[..n + 1], messages[..n], maxSize)
      + if states[n].currentSize + |messages[n]| > maxSize then 1 else 0
  }

  lemma {:induction false} RunFront(states: seq<Sink>, messages: seq<string>, base: string, maxSize: nat, max: nat)
    requires Run(states, messages, base, maxSize, max) && messages != []
    ensures var k := |messages| - 1;
            && |states| == k + 2 && states[..k + 1][0] == states[0] && states[..k + 1][k] == states[k]
            && Run(states[..k + 1], messages[..k], base, maxSize, max)
            && Sunk(states[k], messages[k], states[k + 1], base, maxSize, max)
            && Rotations(states, messages, maxSize) == Rotations(states[..k + 1], messages[..k], maxSize)
                 + if states[k].currentSize + |messages[k]| > maxSize then 1 else 0
  {
    hide Sunk;
  }

  lemma {:induction false} SunkKeepsLast(s: Sink, m: string, t: Sink, base: string, maxSize: nat, max: nat,
                                         pieces: seq<string>)
    requires KeepsLast(s.files, base, max, pieces) && Sunk(s, m, t, base, maxSize, max)
    ensures KeepsLast(t.files, base, max, pieces + [m])
  {
    hide Holds, Sunk, Flat, IsSuffix, Slot;
    var parts :| |parts| == max + 1 && Holds(s.files, base, parts) && IsSuffix(Flat(parts), pieces);
    var next := SunkParts(s, m, t, base, maxSize, parts);
    SuffixSnoc(Flat(parts), pieces, Flat(next), m);
  }

  lemma {:induction false} RunKeepsLast(states: seq<Sink>, messages: seq<string>, base: string, maxSize: nat, max: nat,
                                        pieces: seq<string>)
    requires Run(states, messages, base, maxSize, max) && KeepsLast(states[0].files, base, max, pieces)
    ensures KeepsLast(states[|messages|].files, base, max, pieces + messages)
    decreases |messages|
  {
    hide KeepsLast, Sunk;
    if messages == [] {
      assert pieces + messages == pieces;
    } else {
      var n := |messages| - 1;
      RunFront(states, messages, base, maxSize, max);
      hide Run, Rotations;
      RunKeepsLast(states[..n + 1], messages[..n], base, maxSize, max, pieces);
      SunkKeepsLast(states[n], messages[n], states[n + 1], base, maxSize, max, pieces + messages[..n]);
      assert pieces + messages == pieces + messages[..n] + [messages[n]];
    }
  }

  /** The pieces a file set starts with: the whole of each file. */
  function InitialParts(files: Files, base: string, n: nat): (parts: seq<seq<string>>)
    ensures |parts| == n
  {
    seq(n, i requires 0 <= i < n => if Slot(base, i) in files then [files[Slot(base, i)]] else [])
  }

  lemma {:induction false} InitialHolds(files: Files, base: string, n: nat)
    ensures Holds(files, base, InitialParts(files, base, n))
  {
    hide Slot;
    forall name | name in files ensures Concat([files[name]]) == files[name] { OnePiece(files[name]); }
  }

  lemma {:induction false} SizeKept(states: seq<Sink>, messages: seq<string>, base: string, maxSize: nat, max: nat)
    requires Run(states, messages, base, maxSize, max) && base in states[0].files
    requires |states[0].files[base]| <= states[0].currentSize
    ensures var s := states[|messages|];
            && base in s.files && |s.files[base]| <= s.currentSize
            && (messages != [] ==> |s.files[base]| <= maxSize || s.files[base] == messages[|messages| - 1])
            && forall name :: !IsSlot(base, max, name) ==> SameFile(states[0].files, name, s.files, name)
    decreases |messages|
  {
    hide Slot, IsSlot;
    if messages != [] {
      var n := |messages| - 1;
      SizeKept(states[..n + 1], messages[..n], base, maxSize, max);
      assert Sunk(states[n], messages[n], states[n + 1], base, maxSize, max);
      BaseIsSlot(base, max);
    }
  }

  /** How much more the counter says than the active file holds. */
  function Surplus(s: Sink, base: string): int
    requires base in s.files
  {
    s.currentSize - |s.files[base]|
  }

  /** The files are rotated, and the message is alone in the new active file. */
  ghost predicate FilesRotated(before: Files, m: string, after: Files, base: string, max: nat) {
    base in after && after[base] == m && IsRotation(before, after[base := ""], base, max)
  }

  /** A surplus stays until the first rotation, and from then on the counter is exact. */
  lemma {:induction false} SurplusStays(states: seq<Sink>, messages: seq<string>, base: string, maxSize: nat, max: nat)
    requires Run(states, messages, base, maxSize, max) && base in states[0].files
    ensures var s := states[|messages|];
            && base in s.files
            && Surplus(s, base) == if Rotations(states, messages, maxSize) == 0 then Surplus(states[0], base) else 0
    decreases |messages|
  {
    hide IsRotation;
    if messages != [] {
      var n := |messages| - 1;
      RunFront(states, messages, base, maxSize, max);
      SurplusStays(states[..n + 1], messages[..n], base, maxSize, max);
    }
  }

  lemma {:induction false} RunPart(states: seq<Sink>, messages: seq<string>, base: string, maxSize: nat, max: nat,
                                   i: nat)
    requires Run(states, messages, base, maxSize, max) && i <= |messages|
    ensures |states| == |messages| + 1
    ensures Run(states[..i + 1], messages[..i], base, maxSize, max)
    ensures states[..i + 1][0] == states[0] && states[..i + 1][i] == states[i]
    ensures i < |messages| ==> Sunk(states[i], messages[i], states[i + 1], base, maxSize, max)
  {
    hide Sunk;
  }

  /**
   Any message of any run, told by the files: it rotates them if and only if the active file, the
   message and what the counter started too high exceed the limit, the last until the first rotation.
   */
  lemma {:induction false} RotatesIff(states: seq<Sink>, messages: seq<string>, base: string, maxSize: nat, max: nat,
                                      i: nat)
    requires Run(states, messages, base, maxSize, max) && base in states[0].files && i < |messages|
    ensures base in states[i].files
    ensures var before, after, m := states[i].files, states[i + 1].files, messages[i];
            var exact := Rotations(states[..i + 1], messages[..i], maxSize) > 0;
            var surplus := if exact then 0 else Surplus(states[0], base);
            if |before[base]| + |m| + surplus > maxSize then FilesRotated(before, m, after, base, max)
            else after == before[base := before[base] + m]
  {
    hide IsRotation, Rotations, Run;
    RunPart(states, messages, base, maxSize, max, i);
    SurplusStays(states[..i + 1], messages[..i], base, maxSize, max);
  }

  /** From an exact counter on, a message rotates the files if and only if the active file has no room for it. */
  lemma {:induction false} ExactStays(states: seq<Sink>, messages: seq<string>, base: string, maxSize: nat, max: nat,
                                      i: nat)
    requires Run(states, messages, base, maxSize, max) && i <= |messages|
    requires base in states[0].files && Surplus(states[0], base) == 0
    ensures base in states[i].files && states[i].currentSize == |states[i].files[base]|
    ensures i < |messages| ==>
              var before, after, m := states[i].files, states[i + 1].files, messages[i];
              if |before[base]| + |m| > maxSize then FilesRotated(before, m, after, base, max)
              else after == before[base := before[base] + m]
  {
    hide IsRotation, Rotations, Run;
    RunPart(states, messages, base, maxSize, max, i);
    SurplusStays(states[..i + 1], messages[..i], base, maxSize, max);
    if i < |messages| { RotatesIff(states, messages, base, maxSize, max, i); }
  }

  lemma {:induction false} BaseIsSlot(base: string, max: nat)
    ensures IsSlot(base, max, base)
  {
    ActiveSlot(base);
  }

  /** Exactly the first n slots are taken. */
  ghost predicate GapFree(files: Files, base: string, max: nat, n: nat) {
    1 <= n <= max + 1 && forall i :: 0 <= i <= max ==> (Slot(base, i) in files <==> i < n)
  }

  lemma {:induction false} RotationFills(before: Files, after: Files, base: string, max: nat, n: nat)
    requires GapFree(before, base, max, n) && IsRotation(before, after, base, max)
    ensures GapFree(after, base, max, if n <= max then n + 1 else n)
  {
    ActiveSlot(base);
    hide Slot, IsSlot;
    forall i | 0 < i < max ensures Slot(base, i) in after <==> i - 1 < n {
      assert SameFile(before, Slot(base, i - 1), after, Slot(base, i));
    }
  }

  lemma {:induction false} SunkFills(s: Sink, m: string, t: Sink, base: string, maxSize: nat, max: nat, n: nat)
    requires GapFree(s.files, base, max, n) && Sunk(s, m, t, base, maxSize, max)
    ensures GapFree(t.files, base, max, if s.currentSize + |m| > maxSize && n <= max then n + 1 else n)
  {
    hide IsRotation, Slot;
    if s.currentSize + |m| > maxSize {
      RotationFills(s.files, t.files[base := ""], base, max, n);
    }
  }

  /** A run from a gap-free file set stays gap-free, one more slot taken by each rotation until all are. */
  lemma {:induction false} RunStaysGapFree(states: seq<Sink>, messages: seq<string>, base: string, maxSize: nat,
                                           max: nat, n: nat)
    requires Run(states, messages, base, maxSize, max) && GapFree(states[0].files, base, max, n)
    ensures var taken := n + Rotations(states, messages, maxSize);
            GapFree(states[|messages|].files, base, max, if taken <= max then taken else max + 1)
    decreases |messages|
  {
    hide Sunk, Slot;
    if messages != [] {
      hide GapFree;
      var k := |messages| - 1;
      RunFront(states, messages, base, maxSize, max);
      hide Run, Rotations;
      RunStaysGapFree(states[..k + 1], messages[..k], base, maxSize, max, n);
      var taken := n + Rotations(states[..k + 1], messages[..k], maxSize);
      SunkFills(states[k], messages[k], states[k + 1], base, maxSize, max, if taken <= max then taken else max + 1);
    }
  }

  /** The files hold all the pieces. */
  ghost predicate KeepsAll(files: Files, base: string, max: nat, pieces: seq<string>) {
    exists parts :: |parts| == max + 1 && Holds(files, base, parts) && Flat(parts) == pieces
  }

  lemma {:induction false} SunkKeepsAll(s: Sink, m: string, t: Sink, base: string, maxSize: nat, max: nat,
                                        pieces: seq<string>)
    requires KeepsAll(s.files, base, max, pieces) && Sunk(s, m, t, base, maxSize, max)
    requires s.currentSize + |m| <= maxSize || Slot(base, max) !in s.files
    ensures KeepsAll(t.files, base, max, pieces + [m])
  {
    hide Holds, Sunk, Flat, IsSuffix, Slot;
    var parts :| |parts| == max + 1 && Holds(s.files, base, parts) && Flat(parts) == pieces;
    var next := SunkParts(s, m, t, base, maxSize, parts);
  }

  /** Nothing is lost while there is a slot left for each rotation. */
  lemma {:induction false} NothingLost(states: seq<Sink>, messages: seq<string>, base: string, maxSize: nat, max: nat,
                                       n: nat, pieces: seq<string>)
    requires Run(states, messages, base, maxSize, max) && GapFree(states[0].files, base, max, n)
    requires n + Rotations(states, messages, maxSize) <= max + 1
    requires KeepsAll(states[0].files, base, max, pieces)
    ensures KeepsAll(states[|messages|].files, base, max, pieces + messages)
    decreases |messages|
  {
    hide KeepsAll, Sunk, Slot;
    if messages == [] {
      assert pieces + messages == pieces;
    } else {
      var k := |messages| - 1;
      RunFront(states, messages, base, maxSize, max);
      hide Run, Rotations;
      NothingLost(states[..k + 1], messages[..k], base, maxSize, max, n, pieces);
      RunStaysGapFree(states[..k + 1], messages[..k], base, maxSize, max, n);
      SunkKeepsAll(states[k], messages[k], states[k + 1], base, maxSize, max, pieces + messages[..k]);
      assert pieces + messages == pieces + messages[..k] + [messages[k]];
    }
  }

  /** What opening does to the pieces: nothing, or one rotation. */
  lemma {:induction false} OpenedKeeps(files: Files, base: string, max: nat, rotateOnOpen: bool, s: Sink)
    requires Opened(files, base, max, rotateOnOpen, s)
    ensures base in s.files && |s.files[base]| <= s.currentSize
    ensures KeepsLast(s.files, base, max, Flat(InitialParts(files, base, max + 1)))
    ensures forall name :: !IsSlot(base, max, name) ==> SameFile(files, name, s.files, name)
  {
    ActiveSlot(base);
    BaseIsSlot(base, max);
    var f := if base in files then files else files[base := ""];
    var parts := InitialParts(files, base, max + 1);
    InitialHolds(files, base, max + 1);
    OpenedHolds(files, f, base, parts);
    hide Slot, Holds, InitialParts, Flat, IsSlot;
    if rotateOnOpen && f[base] != "" {
      var next := RotationParts(f, s.files, base, parts);
    } else {
      assert Holds(s.files, base, parts) && IsSuffix(Flat(parts), Flat(parts));
    }
  }

  lemma {:induction false} OpenedHolds(files: Files, f: Files, base: string, parts: seq<seq<string>>)
    requires Holds(files, base, parts) && f == if base in files then files else files[base := ""]
    ensures Holds(f, base, parts)
  {
    ActiveSlot(base);
    SlotsAllDiffer(base);
    hide Slot;
  }

  /** After opening, the counter is right unless a file was rotated away: it then still holds that file's size. */
  lemma {:induction false} CountedAfterOpenIff(files: Files, base: string, max: nat, rotateOnOpen: bool, s: Sink)
    requires Opened(files, base, max, rotateOnOpen, s)
    ensures base in s.files
    ensures s.currentSize == |s.files[base]| <==> !(rotateOnOpen && base in files && files[base] != "")
  {
  }

  /**
   Unless a file was rotated away on opening, every message of every history rotates the files if and
   only if the active file has no room for it.
   */
  lemma {:induction false} HistoryRotates(files: Files, states: seq<Sink>, messages: seq<string>, base: string,
                                          maxSize: nat, max: nat, rotateOnOpen: bool, i: nat)
    requires Run(states, messages, base, maxSize, max) && Opened(files, base, max, rotateOnOpen, states[0])
    requires !(rotateOnOpen && base in files && files[base] != "") && i < |messages|
    ensures base in states[i].files
    ensures var before, after, m := states[i].files, states[i + 1].files, messages[i];
            if |before[base]| + |m| > maxSize then FilesRotated(before, m, after, base, max)
            else after == before[base := before[base] + m]
  {
    hide Sunk, Opened, IsRotation;
    CountedAfterOpenIff(files, base, max, rotateOnOpen, states[0]);
    ExactStays(states, messages, base, maxSize, max, i);
  }

  /** Exactly when the first message rotates the files although the active file has room for it. */
  lemma {:induction false} EarlyRotationIff(files: Files, base: string, maxSize: nat, max: nat, rotateOnOpen: bool,
                                            s: Sink, m: string)
    requires Opened(files, base, max, rotateOnOpen, s)
    ensures base in s.files
    ensures s.currentSize + |m| > maxSize && |s.files[base]| + |m| <= maxSize
      <==> rotateOnOpen && base in files && files[base] != "" && |m| <= maxSize < |files[base]| + |m|
  {
    CountedAfterOpenIff(files, base, max, rotateOnOpen, s);
  }

  /**
   A file of three characters, rotated on opening, a limit of four and one backup: a message of two
   rotates the empty file, and the three characters are lost although all five would have fitted.
   */
  lemma {:induction false} RotatesEmptyFile()
    ensures var files, s := map["a" := "xyz"], Sink(map["a" := "", "a.1" := "xyz"], 3);
            && Opened(files, "a", 1, true, s)
            && |s.files["a"]| + |"bc"| <= 4
            && Sunk(s, "bc", Sink(map["a" := "bc", "a.1" := ""], 2), "a", 4, 1)
  {
    BackupOfA();
    hide Slot;
    SlotsAllDiffer("a");
    var files, s, t := map["a" := "xyz"], map["a" := "", "a.1" := "xyz"], map["a" := "", "a.1" := ""];
    forall name | !IsSlot("a", 1, name) ensures name != "a" && name != "a.1" {
      assert IsSlot("a", 1, Slot("a", 0)) && IsSlot("a", 1, Slot("a", 1));
    }
    assert map["a" := "bc", "a.1" := ""]["a" := ""] == t;
  }

  lemma {:induction false} BackupOfA()
    ensures Slot("a", 0) == "a" && Slot("a", 1) == "a.1"
  {
    assert SplitByExtension("a") == ("a", "");
    assert Numeral(1) == "1";
  }

  /**
   Every history: open on any file set, then any messages. The files hold the last of what was there
   and what was written, piece by piece, each piece within one file; the active file is within its
   limit or is the last message alone; and no other file changes.
   */
  lemma {:induction false} History(files: Files, states: seq<Sink>, messages: seq<string>, base: string, maxSize: nat,
                                   max: nat, rotateOnOpen: bool)
    requires Run(states, messages, base, maxSize, max) && Opened(files, base, max, rotateOnOpen, states[0])
    ensures var s := states[|messages|];
            && KeepsLast(s.files, base, max, Flat(InitialParts(files, base, max + 1)) + messages)
            && base in s.files && |s.files[base]| <= s.currentSize
            && (messages != [] ==> |s.files[base]| <= maxSize || s.files[base] == messages[|messages| - 1])
            && forall name :: !IsSlot(base, max, name) ==> SameFile(files, name, s.files, name)
  {
    hide Slot, KeepsLast, InitialParts, Flat, IsSlot, Opened;
    OpenedKeeps(files, base, max, rotateOnOpen, states[0]);
    RunKeepsLast(states, messages, base, maxSize, max, Flat(InitialParts(files, base, max + 1)));
    SizeKept(states, messages, base, maxSize, max);
  }
}
