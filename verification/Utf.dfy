/**
 The bundled fmt's `utf8_to_utf16` with its branchless decoder, which always loads four bytes.
 Code points are 32-bit words, bytes and code units are bit vectors of their width.
 */
module Utf {
  // ---- the encodings ----

  /** A Unicode scalar value: a code point that is not a surrogate. */
  predicate IsScalar(c: bv32) {
    c <= 0x10FFFF && !(0xD800 <= c <= 0xDFFF)
  }

  /** UTF-8, section 3 of RFC 3629. */
  function Utf8(c: bv32): seq<bv8>
    requires IsScalar(c)
  {
    if c <= 0x7F then [c as bv8]
    else if c <= 0x7FF then [(0xC0 | (c >> 6)) as bv8, Tail(c)]
    else if c <= 0xFFFF then [(0xE0 | (c >> 12)) as bv8, Tail(c >> 6), Tail(c)]
    else [(0xF0 | (c >> 18)) as bv8, Tail(c >> 12), Tail(c >> 6), Tail(c)]
  }

  function Tail(c: bv32): bv8 { (0x80 | (c & 0x3F)) as bv8 }

  /** The low six bits of a byte that follows a first one. */
  function Payload(b: bv8): bv32 { (b & 0x3F) as bv32 }

  predicate Follows(b: bv8) { b & 0xC0 == 0x80 }

  lemma TailPayload(c: bv32)
    ensures Payload(Tail(c)) == c & 0x3F && Follows(Tail(c))
  {
  }

  lemma LeadPayload(c: bv32)
    ensures c <= 0x7FF ==> var b := (0xC0 | (c >> 6)) as bv8; b & 0xE0 == 0xC0 && (b & 0x1F) as bv32 == c >> 6
    ensures c <= 0xFFFF ==> var b := (0xE0 | (c >> 12)) as bv8; b & 0xF0 == 0xE0 && (b & 0x0F) as bv32 == c >> 12
    ensures c <= 0x10FFFF ==> var b := (0xF0 | (c >> 18)) as bv8; b & 0xF8 == 0xF0 && (b & 0x07) as bv32 == c >> 18
  {
  }

  lemma Joined(c: bv32)
    ensures c <= 0x7FF ==> c == ((c >> 6) << 6) | (c & 0x3F)
    ensures c <= 0xFFFF ==> c == ((c >> 12) << 12) | (((c >> 6) & 0x3F) << 6) | (c & 0x3F)
    ensures c <= 0x10FFFF ==>
              c == ((c >> 18) << 18) | (((c >> 12) & 0x3F) << 12) | (((c >> 6) & 0x3F) << 6) | (c & 0x3F)
  {
  }

  predicate CarryTwo(b0: bv8, b1: bv8, c: bv32) {
    b0 & 0xE0 == 0xC0 && Follows(b1) && c == (((b0 & 0x1F) as bv32) << 6) | Payload(b1)
  }

  predicate CarryThree(b0: bv8, b1: bv8, b2: bv8, c: bv32) {
    && b0 & 0xF0 == 0xE0 && Follows(b1) && Follows(b2)
    && c == (((b0 & 0x0F) as bv32) << 12) | (Payload(b1) << 6) | Payload(b2)
  }

  predicate CarryFour(b0: bv8, b1: bv8, b2: bv8, b3: bv8, c: bv32) {
    && b0 & 0xF8 == 0xF0 && Follows(b1) && Follows(b2) && Follows(b3)
    && c == (((b0 & 0x07) as bv32) << 18) | (Payload(b1) << 12) | (Payload(b2) << 6) | Payload(b3)
  }

  lemma MakeTwo(c: bv32)
    requires 0x7F < c <= 0x7FF
    ensures CarryTwo((0xC0 | (c >> 6)) as bv8, Tail(c), c)
  {
    hide Payload, Tail, Follows;
    TailPayload(c);
    LeadPayload(c);
    Joined(c);
  }

  lemma MakeThree(c: bv32)
    requires 0x7FF < c <= 0xFFFF
    ensures CarryThree((0xE0 | (c >> 12)) as bv8, Tail(c >> 6), Tail(c), c)
  {
    hide Payload, Tail, Follows;
    TailPayload(c);
    TailPayload(c >> 6);
    LeadPayload(c);
    Joined(c);
  }

  lemma MakeFour(c: bv32)
    requires 0xFFFF < c <= 0x10FFFF
    ensures CarryFour((0xF0 | (c >> 18)) as bv8, Tail(c >> 12), Tail(c >> 6), Tail(c), c)
  {
    hide Payload, Tail, Follows;
    TailPayload(c);
    TailPayload(c >> 6);
    TailPayload(c >> 12);
    LeadPayload(c);
    Joined(c);
  }

  /** The payload bits of the bytes make the code point, and the marker bits say how many bytes there are. */
  lemma Utf8Value(c: bv32)
    requires IsScalar(c)
    ensures var b := Utf8(c);
            if c <= 0x7F then |b| == 1 && b[0] as bv32 == c
            else if c <= 0x7FF then |b| == 2 && CarryTwo(b[0], b[1], c)
            else if c <= 0xFFFF then |b| == 3 && CarryThree(b[0], b[1], b[2], c)
            else |b| == 4 && CarryFour(b[0], b[1], b[2], b[3], c)
  {
    hide Tail, CarryTwo, CarryThree, CarryFour;
    if 0x7F < c <= 0x7FF {
      MakeTwo(c);
    } else if 0x7FF < c <= 0xFFFF {
      MakeThree(c);
    } else if c > 0xFFFF {
      MakeFour(c);
    }
  }

  /** UTF-16, section 2.1 of RFC 2781. */
  function Utf16(c: bv32): seq<bv16>
    requires IsScalar(c)
  {
    if c < 0x10000 then [c as bv16]
    else
      var u := c - 0x10000;
      [(0xD800 | (u >> 10)) as bv16, (0xDC00 | (u & 0x3FF)) as bv16]
  }

  // ---- the decoder ----

  /** code_point_length: invalid lead bytes count as one byte. */
  function CodePointLength(b: bv8): nat {
    var i := b >> 3;
    if i < 24 then 1 else if i < 28 then 2 else if i < 30 then 3 else if i == 30 then 4 else 1
  }

  function Mask(len: nat): bv32 {
    if len == 1 then 0x7f else if len == 2 then 0x1f else if len == 3 then 0x0f else 0x07
  }

  function Smallest(len: nat): bv32 {
    if len == 1 then 0 else if len == 2 then 128 else if len == 3 then 2048 else 65536
  }

  function Assemble(len: nat, s0: bv8, s1: bv8, s2: bv8, s3: bv8): bv32 {
    var c := (((s0 as bv32) & Mask(len)) << 18) | (((s1 as bv32) & 0x3f) << 12)
           | (((s2 as bv32) & 0x3f) << 6) | ((s3 as bv32) & 0x3f);
    if len == 1 then c >> 18 else if len == 2 then c >> 12 else if len == 3 then c >> 6 else c
  }

  /** The accumulated error conditions; zero for an accepted character. */
  function Errors(len: nat, c: bv32, s1: bv8, s2: bv8, s3: bv8): bv32 {
    var e := (if c < Smallest(len) then 1 << 6 else 0 as bv32)
           | (if c >> 11 == 0x1b then 1 << 7 else 0)
           | (if c > 0x10FFFF then 1 << 8 else 0)
           | (((s1 as bv32) & 0xc0) >> 2) | (((s2 as bv32) & 0xc0) >> 4) | ((s3 as bv32) >> 6);
    var x := e ^ 0x2a;
    if len == 1 then x >> 6 else if len == 2 then x >> 4 else if len == 3 then x >> 2 else x
  }

  datatype Decoded = Decoded(len: nat, c: bv32, e: bv32)

  function At(s: seq<bv8>, i: nat): bv8 { if i < |s| then s[i] else 0 }

  /** utf8_decode at the start of s, padded with zeros. */
  function Decode(s: seq<bv8>): Decoded
    requires s != []
  {
    var len := CodePointLength(s[0]);
    var c := Assemble(len, s[0], At(s, 1), At(s, 2), At(s, 3));
    Decoded(len, c, Errors(len, c, At(s, 1), At(s, 2), At(s, 3)))
  }

  /** The code units pushed for a code point. */
  function Push(c: bv32): seq<bv16> {
    if c <= 0xFFFF then [c as bv16]
    else
      var u := c - 0x10000;
      [((0xD800 + (u >> 10)) & 0xFFFF) as bv16, ((0xDC00 + (u & 0x3FF)) & 0xFFFF) as bv16]
  }

  lemma OneByte(c: bv32, s1: bv8, s2: bv8, s3: bv8)
    requires c <= 0x7F
    ensures CodePointLength(c as bv8) == 1
    ensures Assemble(1, c as bv8, s1, s2, s3) == c
    ensures Errors(1, c, s1, s2, s3) == 0
  {
  }

  lemma TwoBytes(c: bv32, s2: bv8, s3: bv8)
    requires 0x7F < c <= 0x7FF
    ensures var s0, s1 := (0xC0 | (c >> 6)) as bv8, Tail(c);
            CodePointLength(s0) == 2 && Assemble(2, s0, s1, s2, s3) == c && Errors(2, c, s1, s2, s3) == 0
  {
  }

  lemma ThreeBytesCode(c: bv32, s3: bv8)
    requires 0x7FF < c <= 0xFFFF
    ensures CodePointLength((0xE0 | (c >> 12)) as bv8) == 3
    ensures Assemble(3, (0xE0 | (c >> 12)) as bv8, Tail(c >> 6), Tail(c), s3) == c
  {
  }

  lemma ThreeBytesErrors(c: bv32, s3: bv8)
    requires 0x7FF < c <= 0xFFFF && !(0xD800 <= c <= 0xDFFF)
    ensures Errors(3, c, Tail(c >> 6), Tail(c), s3) == 0
  {
    assert ((Tail(c >> 6) as bv32) & 0xc0) >> 2 == 0x20;
    assert ((Tail(c) as bv32) & 0xc0) >> 4 == 0x08;
  }

  lemma ThreeBytes(c: bv32, s3: bv8)
    requires 0x7FF < c <= 0xFFFF && !(0xD800 <= c <= 0xDFFF)
    ensures var s0, s1, s2 := (0xE0 | (c >> 12)) as bv8, Tail(c >> 6), Tail(c);
            CodePointLength(s0) == 3 && Assemble(3, s0, s1, s2, s3) == c && Errors(3, c, s1, s2, s3) == 0
  {
    hide CodePointLength, Assemble, Errors, Tail;
    ThreeBytesCode(c, s3);
    ThreeBytesErrors(c, s3);
  }

  lemma FourBytesLead(c: bv32)
    requires 0xFFFF < c <= 0x10FFFF
    ensures CodePointLength((0xF0 | (c >> 18)) as bv8) == 4
  {
  }

  lemma FourBytesCode(c: bv32)
    requires 0xFFFF < c <= 0x10FFFF
    ensures Assemble(4, (0xF0 | (c >> 18)) as bv8, Tail(c >> 12), Tail(c >> 6), Tail(c)) == c
  {
  }

  lemma FourBytesErrors(c: bv32)
    requires 0xFFFF < c <= 0x10FFFF
    ensures Errors(4, c, Tail(c >> 12), Tail(c >> 6), Tail(c)) == 0
  {
    assert ((Tail(c >> 12) as bv32) & 0xc0) >> 2 == 0x20;
    assert ((Tail(c >> 6) as bv32) & 0xc0) >> 4 == 0x08;
    assert (Tail(c) as bv32) >> 6 == 0x02;
  }

  lemma PushIsUtf16(c: bv32)
    requires IsScalar(c)
    ensures Push(c) == Utf16(c)
  {
  }

  /** A lead byte no encoding starts with; the decoder takes it for a one-byte character. */
  predicate Stray(b: bv8) {
    0x80 <= b <= 0xBF || b >= 0xF8
  }

  lemma AcceptsOne(s0: bv8, s1: bv8, s2: bv8, s3: bv8)
    requires CodePointLength(s0) == 1
    ensures var c := Assemble(1, s0, s1, s2, s3);
            Errors(1, c, s1, s2, s3) == 0 && c == (s0 as bv32) & 0x7f && (!Stray(s0) ==> s0 as bv32 == c)
  {
  }

  lemma AcceptsTwo(s0: bv8, s1: bv8, s2: bv8, s3: bv8)
    requires CodePointLength(s0) == 2
    requires Errors(2, Assemble(2, s0, s1, s2, s3), s1, s2, s3) == 0
    ensures var c := Assemble(2, s0, s1, s2, s3);
            0x7F < c <= 0x7FF && s0 == (0xC0 | (c >> 6)) as bv8 && s1 == Tail(c)
  {
  }

  lemma AcceptsThree(s0: bv8, s1: bv8, s2: bv8, s3: bv8)
    requires CodePointLength(s0) == 3
    requires Errors(3, Assemble(3, s0, s1, s2, s3), s1, s2, s3) == 0
    ensures var c := Assemble(3, s0, s1, s2, s3);
            && 0x7FF < c <= 0xFFFF && !(0xD800 <= c <= 0xDFFF)
            && s0 == (0xE0 | (c >> 12)) as bv8 && s1 == Tail(c >> 6) && s2 == Tail(c)
  {
  }

  lemma AcceptsFour(s0: bv8, s1: bv8, s2: bv8, s3: bv8)
    requires CodePointLength(s0) == 4
    requires Errors(4, Assemble(4, s0, s1, s2, s3), s1, s2, s3) == 0
    ensures var c := Assemble(4, s0, s1, s2, s3);
            && 0xFFFF < c <= 0x10FFFF
            && s0 == (0xF0 | (c >> 18)) as bv8 && s1 == Tail(c >> 12) && s2 == Tail(c >> 6) && s3 == Tail(c)
  {
  }

  // ---- whole strings ----

  /** A character the decoder accepts: an encoded scalar value, or a stray byte. */
  predicate SurrogatePair(h: bv16, l: bv16, c: bv32) {
    && h & 0xFC00 == 0xD800 && l & 0xFC00 == 0xDC00
    && c - 0x1_0000 == (((h & 0x3FF) as bv32) << 10) | ((l & 0x3FF) as bv32)
  }

  lemma UnitsMake(c: bv32)
    requires 0xFFFF < c <= 0x10FFFF
    ensures var u := c - 0x1_0000;
            u <= 0xF_FFFF && SurrogatePair((0xD800 | (u >> 10)) as bv16, (0xDC00 | (u & 0x3FF)) as bv16, c)
  {
    HighUnit(c - 0x1_0000);
    LowUnit(c - 0x1_0000);
  }

  /** One unit for the basic plane, and otherwise a high and a low surrogate of ten bits each. */
  lemma Utf16Value(c: bv32)
    requires IsScalar(c)
    ensures var u := Utf16(c);
            if c <= 0xFFFF then |u| == 1 && u[0] as bv32 == c else |u| == 2 && SurrogatePair(u[0], u[1], c)
  {
    hide SurrogatePair;
    if c > 0xFFFF { UnitsMake(c); }
  }

  lemma HighUnit(u: bv32)
    requires u <= 0xF_FFFF
    ensures var h := (0xD800 | (u >> 10)) as bv16; h & 0xFC00 == 0xD800 && (h & 0x3FF) as bv32 == u >> 10
  {
  }

  lemma LowUnit(u: bv32)
    requires u <= 0xF_FFFF
    ensures var l := (0xDC00 | (u & 0x3FF)) as bv16; l & 0xFC00 == 0xDC00 && (l & 0x3FF) as bv32 == u & 0x3FF
    ensures u == ((u >> 10) << 10) | (u & 0x3FF)
  {
  }

  datatype Piece = Scalar(c: bv32) | StrayByte(b: bv8) {
    predicate Valid() {
      match this
      case Scalar(c) => IsScalar(c)
      case StrayByte(b) => Stray(b)
    }

    function Bytes(): seq<bv8>
      requires Valid()
    {
      match this
      case Scalar(c) => Utf8(c)
      case StrayByte(b) => [b]
    }

    function Units(): seq<bv16>
      requires Valid()
    {
      match this
      case Scalar(c) => Utf16(c)
      case StrayByte(b) => [(b & 0x7f) as bv16]
    }
  }

  ghost predicate AllValid(ps: seq<Piece>) {
    forall i :: 0 <= i < |ps| ==> ps[i].Valid()
  }

  function AllBytes(ps: seq<Piece>): seq<bv8>
    requires AllValid(ps)
  {
    if ps == [] then [] else ps[0].Bytes() + AllBytes(ps[1..])
  }

  function AllUnits(ps: seq<Piece>): seq<bv16>
    requires AllValid(ps)
  {
    if ps == [] then [] else ps[0].Units() + AllUnits(ps[1..])
  }

  /** The result of the constructor: the buffer, or the exception it throws. */
  datatype Conversion = Converted(units: seq<bv16>) | InvalidUtf8

  function Prepend(u: seq<bv16>, r: Conversion): Conversion {
    if r.Converted? then Converted(u + r.units) else r
  }

  /** Decoding character by character, as if three zero bytes followed the string. */
  function Transcode(s: seq<bv8>): Conversion
    decreases |s|
  {
    if s == [] then Converted([])
    else
      var d := Decode(s);
      if d.e != 0 then InvalidUtf8
      else
        AcceptedPiece(s);
        Prepend(Push(d.c), Transcode(s[d.len..]))
  }

  function PieceAt(s: seq<bv8>): Piece
    requires s != []
  {
    if Stray(s[0]) then StrayByte(s[0]) else Scalar(Decode(s).c)
  }

  /** p is what the decoder reads at the start of s. */
  ghost predicate Reads(s: seq<bv8>, p: Piece)
    requires s != []
  {
    p.Valid() && p.Bytes() <= s && Decode(s).len == |p.Bytes()| && Push(Decode(s).c) == p.Units()
  }

  /** An accepted character is a piece, and lies within the string. */
  lemma AcceptedPiece(s: seq<bv8>)
    requires s != [] && Decode(s).e == 0
    ensures Reads(s, PieceAt(s))
  {
    var len := Decode(s).len;
    if len == 1 {
      AcceptedOne(s);
    } else if len == 2 {
      AcceptedTwo(s);
    } else if len == 3 {
      AcceptedThree(s);
    } else {
      AcceptedFour(s);
    }
  }

  lemma AcceptedOne(s: seq<bv8>)
    requires s != [] && Decode(s).e == 0 && CodePointLength(s[0]) == 1
    ensures Reads(s, PieceAt(s))
  {
    var d, s0 := Decode(s), s[0];
    AcceptsOne(s0, At(s, 1), At(s, 2), At(s, 3));
    if Stray(s0) {
      StrayUnits(s0, d.c);
    } else {
      LowByte(s0, d.c);
      PushIsUtf16(d.c);
    }
  }

  lemma AcceptedTwo(s: seq<bv8>)
    requires s != [] && Decode(s).e == 0 && CodePointLength(s[0]) == 2
    ensures Reads(s, PieceAt(s))
  {
    var c := Decode(s).c;
    AcceptsTwo(s[0], At(s, 1), At(s, 2), At(s, 3));
    TailNonzero(c);
    NotStray(s[0]);
    PushIsUtf16(c);
  }

  lemma AcceptedThree(s: seq<bv8>)
    requires s != [] && Decode(s).e == 0 && CodePointLength(s[0]) == 3
    ensures Reads(s, PieceAt(s))
  {
    var c := Decode(s).c;
    AcceptsThree(s[0], At(s, 1), At(s, 2), At(s, 3));
    hide Assemble, Errors, Tail, Utf8, Push, Utf16;
    TailNonzero(c);
    TailNonzero(c >> 6);
    NotStray(s[0]);
    ThreeByteForm(c, s[0], At(s, 1), At(s, 2));
    assert |s| >= 3 by { assert At(s, 2) != 0; }
    PushIsUtf16(c);
  }

  lemma ThreeByteForm(c: bv32, s0: bv8, s1: bv8, s2: bv8)
    requires 0x7FF < c <= 0xFFFF && !(0xD800 <= c <= 0xDFFF)
    requires s0 == (0xE0 | (c >> 12)) as bv8 && s1 == Tail(c >> 6) && s2 == Tail(c)
    ensures IsScalar(c) && Utf8(c) == [s0, s1, s2]
  {
  }

  lemma AcceptedFour(s: seq<bv8>)
    requires s != [] && Decode(s).e == 0 && CodePointLength(s[0]) == 4
    ensures Reads(s, PieceAt(s))
  {
    var c := Decode(s).c;
    AcceptsFour(s[0], At(s, 1), At(s, 2), At(s, 3));
    TailNonzero(c);
    TailNonzero(c >> 6);
    TailNonzero(c >> 12);
    NotStray(s[0]);
    assert |s| >= 4 by { assert At(s, 3) != 0; }
    FourByteForm(c, s[0], s[1], s[2], s[3]);
    PushIsUtf16(c);
  }

  lemma FourByteForm(c: bv32, s0: bv8, s1: bv8, s2: bv8, s3: bv8)
    requires 0xFFFF < c <= 0x10FFFF
    requires s0 == (0xF0 | (c >> 18)) as bv8 && s1 == Tail(c >> 12) && s2 == Tail(c >> 6) && s3 == Tail(c)
    ensures IsScalar(c) && Utf8(c) == [s0, s1, s2, s3]
  {
  }

  lemma NotStray(b: bv8)
    requires CodePointLength(b) != 1
    ensures !Stray(b)
  {
  }

  lemma TailNonzero(c: bv32)
    ensures Tail(c) != 0
  {
  }

  lemma StrayUnits(b: bv8, c: bv32)
    requires c == (b as bv32) & 0x7f
    ensures c <= 0xFFFF && c as bv16 == (b & 0x7f) as bv16
  {
  }

  lemma LowByte(b: bv8, c: bv32)
    requires b as bv32 == c && CodePointLength(b) == 1 && !Stray(b)
    ensures c <= 0x7F && c as bv8 == b
  {
  }

  /** A piece in front is decoded as itself, whatever follows it. */
  lemma PieceDecodes(p: Piece, rest: seq<bv8>)
    requires p.Valid()
    ensures p.Bytes() != [] && Decode(p.Bytes() + rest).e == 0 && Reads(p.Bytes() + rest, p)
  {
    hide Utf8, Decode, Reads, Tail, Push;
    match p
    case StrayByte(b) =>
      StrayDecodes(b, [b] + rest);
    case Scalar(c) =>
      Utf8Nonempty(c);
      ScalarDecodes(c, Utf8(c) + rest);
  }

  lemma Utf8Nonempty(c: bv32)
    requires IsScalar(c)
    ensures Utf8(c) != []
  {
  }

  lemma ScalarDecodes(c: bv32, s: seq<bv8>)
    requires IsScalar(c) && s != [] && Utf8(c) <= s
    ensures Decode(s).e == 0 && Reads(s, Scalar(c))
  {
    hide Utf8, Decode, Reads, Tail, Push;
    if c <= 0x7F { OneDecodes(c, s); } else if c <= 0x7FF { TwoDecodes(c, s); }
    else if c <= 0xFFFF { ThreeDecodes(c, s); } else { FourDecodes(c, s); }
  }

  lemma StrayDecodes(b: bv8, s: seq<bv8>)
    requires Stray(b) && [b] <= s
    ensures Decode(s).e == 0 && Reads(s, StrayByte(b))
  {
    StrayLength(b);
    AcceptsOne(b, At(s, 1), At(s, 2), At(s, 3));
    StrayUnits(b, Decode(s).c);
  }

  lemma OneDecodes(c: bv32, s: seq<bv8>)
    requires c <= 0x7F && Utf8(c) <= s
    ensures Decode(s).e == 0 && Reads(s, Scalar(c))
  {
    OneByte(c, At(s, 1), At(s, 2), At(s, 3));
    PushIsUtf16(c);
  }

  lemma TwoDecodes(c: bv32, s: seq<bv8>)
    requires 0x7F < c <= 0x7FF && Utf8(c) <= s
    ensures Decode(s).e == 0 && Reads(s, Scalar(c))
  {
    assert s[0] == Utf8(c)[0] && s[1] == Utf8(c)[1];
    TwoBytes(c, At(s, 2), At(s, 3));
    PushIsUtf16(c);
  }

  lemma ThreeDecodes(c: bv32, s: seq<bv8>)
    requires 0x7FF < c <= 0xFFFF && IsScalar(c) && Utf8(c) <= s
    ensures Decode(s).e == 0 && Reads(s, Scalar(c))
  {
    assert s[0] == Utf8(c)[0] && s[1] == Utf8(c)[1] && s[2] == Utf8(c)[2];
    ThreeBytes(c, At(s, 3));
    PushIsUtf16(c);
  }

  lemma FourDecodes(c: bv32, s: seq<bv8>)
    requires 0xFFFF < c <= 0x10FFFF && Utf8(c) <= s
    ensures Decode(s).e == 0 && Reads(s, Scalar(c))
  {
    assert s[0] == Utf8(c)[0] && s[1] == Utf8(c)[1] && s[2] == Utf8(c)[2] && s[3] == Utf8(c)[3];
    FourBytesLead(c);
    FourBytesCode(c);
    FourBytesErrors(c);
    PushIsUtf16(c);
  }

  lemma StrayLength(b: bv8)
    requires Stray(b)
    ensures CodePointLength(b) == 1
  {
  }

  /** Decoding undoes encoding: UTF-8 of any pieces becomes their UTF-16. */
  lemma {:induction false} RoundTrip(ps: seq<Piece>)
    requires AllValid(ps)
    ensures Transcode(AllBytes(ps)) == Converted(AllUnits(ps))
  {
    if ps != [] {
      var rest := AllBytes(ps[1..]);
      PieceDecodes(ps[0], rest);
      RoundTrip(ps[1..]);
      assert (ps[0].Bytes() + rest)[|ps[0].Bytes()|..] == rest;
    }
  }

  /** What is accepted is exactly a sequence of encoded scalar values and stray bytes. */
  lemma PieceFirst(s: seq<bv8>, p: Piece, rest: seq<Piece>)
    requires s != [] && Decode(s).len <= |s|
    requires Reads(s, p) && AllValid(rest) && AllBytes(rest) == s[Decode(s).len..]
    ensures AllValid([p] + rest) && AllBytes([p] + rest) == s
  {
    hide Decode, Piece.Valid, Piece.Bytes;
    assert ([p] + rest)[1..] == rest;
  }

  lemma {:induction false} Accepted(s: seq<bv8>) returns (ps: seq<Piece>)
    requires Transcode(s).Converted?
    ensures AllValid(ps) && AllBytes(ps) == s
    decreases |s|
  {
    if s == [] {
      ps := [];
    } else {
      hide Transcode, Decode, Push, Reads, PieceAt, AllBytes, AllValid;
      TranscodeStep(s);
      AcceptedPiece(s);
      var rest := Accepted(s[Decode(s).len..]);
      ps := [PieceAt(s)] + rest;
      PieceFirst(s, PieceAt(s), rest);
    }
  }

  lemma AcceptedIff(s: seq<bv8>)
    ensures Transcode(s).Converted? <==> exists ps :: AllValid(ps) && AllBytes(ps) == s
  {
    if Transcode(s).Converted? { var ps := Accepted(s); }
    if ps :| AllValid(ps) && AllBytes(ps) == s { RoundTrip(ps); }
  }

  function EncodeUtf8(cs: seq<bv32>): seq<bv8>
    requires forall i :: 0 <= i < |cs| ==> IsScalar(cs[i])
  {
    if cs == [] then [] else Utf8(cs[0]) + EncodeUtf8(cs[1..])
  }

  function EncodeUtf16(cs: seq<bv32>): seq<bv16>
    requires forall i :: 0 <= i < |cs| ==> IsScalar(cs[i])
  {
    if cs == [] then [] else Utf16(cs[0]) + EncodeUtf16(cs[1..])
  }

  /** The UTF-8 form of any sequence of scalar values becomes its UTF-16 form. */
  lemma {:induction false} WellFormedConverts(cs: seq<bv32>)
    requires forall i :: 0 <= i < |cs| ==> IsScalar(cs[i])
    ensures Transcode(EncodeUtf8(cs)) == Converted(EncodeUtf16(cs))
  {
    if cs != [] {
      var p, rest := Scalar(cs[0]), EncodeUtf8(cs[1..]);
      PieceDecodes(p, rest);
      WellFormedConverts(cs[1..]);
      assert (p.Bytes() + rest)[|p.Bytes()|..] == rest;
    }
  }

  /** A lone continuation byte is not UTF-8, but it is accepted and read as U+0000. */
  lemma StrayByteAccepted()
    ensures Transcode([0x80]) == Converted([0])
  {
    RoundTrip([StrayByte(0x80)]);
    assert [StrayByte(0x80)][1..] == [];
    assert AllUnits([StrayByte(0x80)]) == [((0x80 as bv8) & 0x7f) as bv16];
    assert AllBytes([StrayByte(0x80)]) == [0x80];
  }

  /** One step of the transcoding: the error, or what the first character becomes and then the rest. */
  lemma {:induction false} TranscodeStep(s: seq<bv8>)
    requires s != []
    ensures var d := Decode(s);
            if d.e != 0 then Transcode(s) == InvalidUtf8
            else 1 <= d.len <= |s| && Transcode(s) == Prepend(Push(d.c), Transcode(s[d.len..]))
  {
    hide Decode, Push, Reads;
    if Decode(s).e == 0 {
      AcceptedPiece(s);
      ReadsWithin(s, PieceAt(s));
    }
  }

  lemma TranscodeNothing(u: seq<bv16>)
    ensures Prepend(u, Transcode([])) == Converted(u)
  {
    assert u + [] == u;
  }

  lemma ReadsWithin(s: seq<bv8>, p: Piece)
    requires s != [] && Reads(s, p)
    ensures 1 <= Decode(s).len <= |s|
  {
    hide Push;
  }

  /** The decoder sees no more than four bytes, zeros beyond the end. */
  lemma SameWindow(rest: seq<bv8>, window: seq<bv8>)
    requires rest != [] && |window| == 4
    requires forall i :: 0 <= i < 4 ==> window[i] == At(rest, i)
    ensures Decode(rest) == Decode(window)
  {
    assert At(rest, 0) == rest[0];
  }

  /** The loop over whole four-byte windows. */
  method TranscodeWindows(s: seq<bv8>) returns (ok: bool, buffer: seq<bv16>, p: nat)
    ensures if ok then p <= |s| && |s| - p < 4 && Prepend(buffer, Transcode(s[p..])) == Transcode(s)
            else Transcode(s) == InvalidUtf8
  {
    hide Decode, Transcode, Push;
    buffer, p := [], 0;
    if |s| >= 4 {
      var end := |s| - 4 + 1;
      while p < end
        invariant 0 <= p <= |s|
        invariant Prepend(buffer, Transcode(s[p..])) == Transcode(s)
      {
        ghost var rest := s[p..];
        var window := s[p..p + 4];
        var d := Decode(window);
        SameWindow(rest, window);
        TranscodeStep(rest);
        if d.e != 0 { return false, [], 0; }
        assert rest[d.len..] == s[p + d.len..];
        ghost var before := buffer;
        buffer := buffer + Push(d.c);
        Prepends(before, Push(d.c), Transcode(rest[d.len..]));
        p := p + d.len;
      }
    }
    ok := true;
  }

  lemma Prepends(a: seq<bv16>, b: seq<bv16>, r: Conversion)
    ensures Prepend(a, Prepend(b, r)) == Prepend(a + b, r)
  {
    if r.Converted? { assert a + (b + r.units) == (a + b) + r.units; }
  }

  /** The loop over a zero-padded copy of the last, incomplete window. */
  method TranscodeTail(tail: seq<bv8>, units: seq<bv16>) returns (ok: bool, buffer: seq<bv16>)
    requires 0 < |tail| < 4
    ensures if ok then Converted(buffer) == Prepend(units, Transcode(tail)) else Transcode(tail) == InvalidUtf8
  {
    hide Decode, Transcode, Push;
    buffer := units;
    var buf := tail + seq(7 - |tail|, _ => 0);
    var q := 0;
    while true
      invariant 0 <= q < |tail|
      invariant Prepend(buffer, Transcode(tail[q..])) == Prepend(units, Transcode(tail))
      decreases |tail| - q
    {
      ghost var rest := tail[q..];
      var window := buf[q..q + 4];
      var d := Decode(window);
      PaddedWindow(tail, q, buf);
      TranscodeStep(rest);
      if d.e != 0 { return false, []; }
      assert rest[d.len..] == tail[q + d.len..];
      ghost var before := buffer;
      buffer := buffer + Push(d.c);
      Prepends(before, Push(d.c), Transcode(rest[d.len..]));
      q := q + d.len;
      if q >= |tail| { break; }
    }
    TranscodeNothing(buffer);
    ok := true;
  }

  lemma PaddedWindow(tail: seq<bv8>, q: nat, buf: seq<bv8>)
    requires q < |tail| < 4 && buf == tail + seq(7 - |tail|, _ => 0)
    ensures Decode(tail[q..]) == Decode(buf[q..q + 4])
  {
    SameWindow(tail[q..], buf[q..q + 4]);
  }

  /** The constructor: whole windows, then the padded tail, then the terminating zero. */
  method Utf8ToUtf16(s: seq<bv8>) returns (r: Conversion)
    ensures r == (if Transcode(s).Converted? then Converted(Transcode(s).units + [0]) else InvalidUtf8)
  {
    var ok, buffer, p := TranscodeWindows(s);
    if !ok { return InvalidUtf8; }
    var numCharsLeft := |s| - p;
    if numCharsLeft != 0 {
      ok, buffer := TranscodeTail(s[p..], buffer);
      if !ok { return InvalidUtf8; }
    }
    r := Converted(buffer + [0]);
  }
}
