/**
 The bundled fmt's `parse_format_string`: a character loop for short strings and a two-pass search
 for long ones. Both are proved to make the same handler calls as one reference reading of the
 string, empty texts aside. A call that reports an error ends the scan.
 */
module FormatScanner {
  import Words

  /** A call on the handler. */
  datatype Event = Text(t: string) | Field(id: nat) | SpecField(id: nat, specs: nat) | Error(message: string)

  datatype IdResult = Id(id: nat, length: nat) | IdError(message: string)
  datatype SpecResult = Specs(length: nat) | SpecError(message: string)

  /**
   What a handler answers: the next automatic argument, the argument id found at a position, and the
   format specs parsed from a position. Each answer may depend on all calls made before.
   */
  datatype Handler = Handler(
    nextArg: seq<Event> -> IdResult,
    parseArgId: (string, nat, seq<Event>) -> IdResult,
    formatSpecs: (nat, string, nat, seq<Event>) -> SpecResult)

  /** The calls made for one replacement field and where scanning goes on, unless an error ended it. */
  datatype Step = Step(events: seq<Event>, next: nat) | Failed(events: seq<Event>)

  /** parse_replacement_field, entered at an opening brace. */
  function ReplacementField(h: Handler, s: string, b: nat, history: seq<Event>): (r: Step)
    requires b < |s| && s[b] == '{'
    ensures r.Step? ==> b < r.next <= |s| && |r.events| == 1
    ensures r.Step? ==>
              if r.events[0].Text? then r.events[0].t == "{" && s[b..r.next] == "{{"
              else (r.events[0].Field? || r.events[0].SpecField?) && s[r.next - 1] == '}'
    ensures r.Failed? ==> 1 <= |r.events| <= 2 && r.events[|r.events| - 1].Error?
    ensures r.Failed? && |r.events| == 2 ==> r.events[0].SpecField?
  {
    var p := b + 1;
    if p == |s| then Failed([Error("invalid format string")])
    else if s[p] == '}' then
      match h.nextArg(history)
      case IdError(m) => Failed([Error(m)])
      case Id(id, _) => Step([Field(id)], p + 1)
    else if s[p] == '{' then Step([Text(s[p..p + 1])], p + 1)
    else
      match h.parseArgId(s, p, history)
      case IdError(m) => Failed([Error(m)])
      case Id(id, length) =>
        var q := Words.Min(p + length, |s|);
        if q < |s| && s[q] == '}' then Step([Field(id)], q + 1)
        else if q < |s| && s[q] == ':' then
          match h.formatSpecs(id, s, q + 1, history)
          case SpecError(m) => Failed([Error(m)])
          case Specs(l) =>
            var e := Words.Min(q + 1 + l, |s|);
            if e == |s| || s[e] != '}' then Failed([SpecField(id, q + 1), Error("unknown format specifier")])
            else Step([SpecField(id, q + 1)], e + 1)
        else Failed([Error("missing '}' in format string")])
  }

  /** A field as it is written: automatic, with an argument id, or with an argument id, possibly empty, and specs. */
  datatype FieldText = Auto | Named(name: string) | WithSpecs(name: string, specs: string)

  function Written(f: FieldText): string {
    match f
    case Auto => "{}"
    case Named(name) => "{" + name + "}"
    case WithSpecs(name, specs) => "{" + name + ":" + specs + "}"
  }

  /** The handler takes the field's argument id, and its specs if any, for what they are. */
  ghost predicate Understood(h: Handler, s: string, b: nat, f: FieldText, id: nat, history: seq<Event>) {
    match f
    case Auto => h.nextArg(history).Id? && h.nextArg(history).id == id
    case Named(name) =>
      name != "" && name[0] != '{' && name[0] != '}' && h.parseArgId(s, b + 1, history) == Id(id, |name|)
    case WithSpecs(name, specs) =>
      && (name != "" ==> name[0] != '{' && name[0] != '}') && h.parseArgId(s, b + 1, history) == Id(id, |name|)
      && h.formatSpecs(id, s, b + |name| + 2, history) == Specs(|specs|)
  }

  /** A field that the handler understands is read back, and scanning goes on right behind it. */
  lemma FieldRoundTrip(h: Handler, s: string, b: nat, f: FieldText, id: nat, history: seq<Event>)
    requires b + |Written(f)| <= |s| && s[b..b + |Written(f)|] == Written(f)
    requires Understood(h, s, b, f, id, history)
    ensures b < |s| && s[b] == '{'
    ensures ReplacementField(h, s, b, history)
         == Step([if f.WithSpecs? then SpecField(id, b + |f.name| + 2) else Field(id)], b + |Written(f)|)
  {
    hide ReplacementField;
    var w := s[b..b + |Written(f)|];
    assert s[b] == w[0] && s[b + 1] == w[1];
    match f {
      case Auto => AutoField(h, s, b, id, history);
      case Named(name) =>
        assert w[1] == name[0];
        assert s[b + 1 + |name|] == w[1 + |name|] == '}';
        NamedField(h, s, b, |name|, id, history);
      case WithSpecs(name, specs) =>
        if name != "" { assert w[1] == name[0]; }
        assert s[b + 1 + |name|] == w[1 + |name|] == ':';
        assert s[b + 2 + |name| + |specs|] == w[2 + |name| + |specs|] == '}';
        FieldWithSpecs(h, s, b, |name|, |specs|, id, history);
    }
  }

  /** The text stands in s from b on. */
  predicate StandsAt(s: string, b: nat, text: string) { b + |text| <= |s| && s[b..b + |text|] == text }

  lemma NamedRead(h: Handler, s: string, b: nat, n: nat, id: nat, history: seq<Event>)
    requires b + n + 1 < |s| && s[b] == '{' && !IsBrace(s[b + 1]) && s[b + n + 1] == '}'
    requires h.parseArgId(s, b + 1, history) == Id(id, n)
    ensures var f := Named(s[b + 1..b + n + 1]);
            StandsAt(s, b, Written(f)) && Understood(h, s, b, f, id, history)
  {
  }

  lemma SpecsRead(h: Handler, s: string, b: nat, n: nat, m: nat, id: nat, history: seq<Event>)
    requires b + n + m + 2 < |s| && s[b] == '{' && !IsBrace(s[b + 1])
    requires s[b + n + 1] == ':' && s[b + n + m + 2] == '}'
    requires h.parseArgId(s, b + 1, history) == Id(id, n) && h.formatSpecs(id, s, b + n + 2, history) == Specs(m)
    ensures var f := WithSpecs(s[b + 1..b + n + 1], s[b + n + 2..b + n + m + 2]);
            StandsAt(s, b, Written(f)) && Understood(h, s, b, f, id, history)
  {
    hide StandsAt, Written;
    SpecsStand(s, b, b + n + 1, b + n + m + 2);
  }

  lemma SpecsStand(s: string, b: nat, q: nat, r: nat)
    requires b < q < r < |s| && s[b] == '{' && s[q] == ':' && s[r] == '}'
    ensures StandsAt(s, b, Written(WithSpecs(s[b + 1..q], s[q + 1..r])))
  {
    Sliced(s, b, q, r);
    assert Written(WithSpecs(s[b + 1..q], s[q + 1..r])) == s[b..r + 1];
  }

  lemma Sliced(s: string, b: nat, q: nat, r: nat)
    requires b < q < r < |s|
    ensures s[b..r + 1] == [s[b]] + s[b + 1..q] + [s[q]] + s[q + 1..r] + [s[r]]
  {
    assert s[b..q] == [s[b]] + s[b + 1..q];
    assert s[b..q + 1] == s[b..q] + [s[q]];
    assert s[b..r] == s[b..q + 1] + s[q + 1..r];
  }

  /** What the scanner has seen when it read a field without an error. */
  lemma StepMeans(h: Handler, s: string, b: nat, history: seq<Event>)
    requires b < |s| && s[b] == '{' && ReplacementField(h, s, b, history).Step?
    ensures b + 1 < |s|
    ensures s[b + 1] == '}' ==> h.nextArg(history).Id?
    ensures !IsBrace(s[b + 1]) ==>
              var answer := h.parseArgId(s, b + 1, history);
              && answer.Id?
              && var q := b + 1 + answer.length;
                 && q < |s|
                 && (s[q] == '}'
                     || (s[q] == ':'
                         && var specs := h.formatSpecs(answer.id, s, q + 1, history);
                            specs.Specs? && q + 1 + specs.length < |s| && s[q + 1 + specs.length] == '}'))
  {
  }

  /** A field read without an error is one the handler understands, as it is written. */
  lemma FieldRead(h: Handler, s: string, b: nat, history: seq<Event>) returns (f: FieldText, id: nat)
    requires b < |s| && s[b] == '{' && ReplacementField(h, s, b, history).Step? && !StandsAt(s, b, "{{")
    ensures StandsAt(s, b, Written(f)) && Understood(h, s, b, f, id, history)
  {
    hide ReplacementField, Written, Understood;
    StepMeans(h, s, b, history);
    if IsBrace(s[b + 1]) {
      f, id := AutoRead(h, s, b, history);
    } else {
      var answer := h.parseArgId(s, b + 1, history);
      var n := answer.length;
      id := answer.id;
      if s[b + n + 1] == '}' {
        f := Named(s[b + 1..b + n + 1]);
        NamedRead(h, s, b, n, id, history);
      } else {
        var m := h.formatSpecs(id, s, b + n + 2, history).length;
        f := WithSpecs(s[b + 1..b + n + 1], s[b + n + 2..b + n + m + 2]);
        SpecsRead(h, s, b, n, m, id, history);
      }
    }
  }

  lemma AutoRead(h: Handler, s: string, b: nat, history: seq<Event>) returns (f: FieldText, id: nat)
    requires b + 1 < |s| && s[b] == '{' && IsBrace(s[b + 1]) && !StandsAt(s, b, "{{")
    requires s[b + 1] == '}' ==> h.nextArg(history).Id?
    ensures StandsAt(s, b, Written(f)) && Understood(h, s, b, f, id, history)
  {
    assert s[b..b + 2] == [s[b], s[b + 1]];
    f, id := Auto, h.nextArg(history).id;
  }

  /** A field fails exactly when it is no doubled brace and there is no way to read a field the handler understands. */
  lemma FieldFailsIff(h: Handler, s: string, b: nat, history: seq<Event>)
    requires b < |s| && s[b] == '{'
    ensures ReplacementField(h, s, b, history).Failed?
      <==> !StandsAt(s, b, "{{") && forall f, id :: StandsAt(s, b, Written(f)) ==> !Understood(h, s, b, f, id, history)
  {
    hide ReplacementField, Written, Understood;
    if StandsAt(s, b, "{{") {
      DoubledBrace(h, s, b, history);
    } else if ReplacementField(h, s, b, history).Step? {
      var f, id := FieldRead(h, s, b, history);
    } else if f, id :| StandsAt(s, b, Written(f)) && Understood(h, s, b, f, id, history) {
      FieldRoundTrip(h, s, b, f, id, history);
    }
  }

  lemma DoubledBrace(h: Handler, s: string, b: nat, history: seq<Event>)
    requires StandsAt(s, b, "{{")
    ensures b < |s| && s[b] == '{' && ReplacementField(h, s, b, history) == Step([Text("{")], b + 2)
  {
    assert s[b] == s[b..b + 2][0] && s[b + 1] == s[b..b + 2][1];
  }

  /** Which error: the handler's own, or the scanner's for a string that ends or goes on where the field should not. */
  lemma FieldErrors(h: Handler, s: string, b: nat, history: seq<Event>)
    requires b < |s| && s[b] == '{'
    ensures b + 1 == |s| ==> ReplacementField(h, s, b, history) == Failed([Error("invalid format string")])
    ensures b + 1 < |s| && s[b + 1] == '}' && h.nextArg(history).IdError? ==>
              ReplacementField(h, s, b, history) == Failed([Error(h.nextArg(history).message)])
    ensures b + 1 < |s| && !IsBrace(s[b + 1]) ==>
              var answer := h.parseArgId(s, b + 1, history);
              if answer.IdError? then ReplacementField(h, s, b, history) == Failed([Error(answer.message)])
              else IdErrors(h, s, b, b + 1 + answer.length, answer.id, history)
  {
  }

  /** After the argument id: the field has to end or to go on with specs, and those have to end it. */
  predicate IdErrors(h: Handler, s: string, b: nat, q: nat, id: nat, history: seq<Event>)
    requires b < |s| && s[b] == '{'
  {
    && (q >= |s| || (s[q] != '}' && s[q] != ':') ==>
          ReplacementField(h, s, b, history) == Failed([Error("missing '}' in format string")]))
    && (q < |s| && s[q] == ':' ==>
          match h.formatSpecs(id, s, q + 1, history)
          case SpecError(m) => ReplacementField(h, s, b, history) == Failed([Error(m)])
          case Specs(l) =>
            q + 1 + l >= |s| || s[q + 1 + l] != '}' ==>
              ReplacementField(h, s, b, history) == Failed([SpecField(id, q + 1), Error("unknown format specifier")]))
  }

  lemma AutoField(h: Handler, s: string, b: nat, id: nat, history: seq<Event>)
    requires b + 1 < |s| && s[b] == '{' && s[b + 1] == '}' && h.nextArg(history).Id? && h.nextArg(history).id == id
    ensures ReplacementField(h, s, b, history) == Step([Field(id)], b + 2)
  {
  }

  lemma NamedField(h: Handler, s: string, b: nat, n: nat, id: nat, history: seq<Event>)
    requires b + n + 1 < |s| && s[b] == '{' && s[b + 1] != '{' && s[b + 1] != '}' && s[b + n + 1] == '}'
    requires h.parseArgId(s, b + 1, history) == Id(id, n)
    ensures ReplacementField(h, s, b, history) == Step([Field(id)], b + n + 2)
  {
  }

  lemma FieldWithSpecs(h: Handler, s: string, b: nat, n: nat, m: nat, id: nat, history: seq<Event>)
    requires b + n + m + 2 < |s| && s[b] == '{' && s[b + 1] != '{' && s[b + 1] != '}'
    requires s[b + n + 1] == ':' && s[b + n + m + 2] == '}'
    requires h.parseArgId(s, b + 1, history) == Id(id, n) && h.formatSpecs(id, s, b + n + 2, history) == Specs(m)
    ensures ReplacementField(h, s, b, history) == Step([SpecField(id, b + n + 2)], b + n + m + 3)
  {
  }

  /** Calls that have an effect: all but empty texts. */
  function NonEmpty(es: seq<Event>): seq<Event> {
    if es == [] then []
    else NonEmpty(es[..|es| - 1]) + (if es[|es| - 1] == Text("") then [] else [es[|es| - 1]])
  }

  lemma {:induction false} NonEmptyConcat(a: seq<Event>, b: seq<Event>)
    ensures NonEmpty(a + b) == NonEmpty(a) + NonEmpty(b)
  {
    if b == [] {
      assert a + b == a;
    } else {
      assert (a + b)[..|a + b| - 1] == a + b[..|b| - 1];
      NonEmptyConcat(a, b[..|b| - 1]);
    }
  }

  function TextOf(t: string): seq<Event> { if t == "" then [] else [Text(t)] }

  predicate IsBrace(c: char) { c == '{' || c == '}' }

  /** The first brace at or after b, or the end of the string. */
  function NextBrace(s: string, b: nat): (k: nat)
    requires b <= |s|
    ensures b <= k <= |s|
    ensures forall i :: b <= i < k ==> !IsBrace(s[i])
    ensures k < |s| ==> IsBrace(s[k])
    decreases |s| - b
  {
    if b == |s| || IsBrace(s[b]) then b else NextBrace(s, b + 1)
  }

  const UNMATCHED: Event := Error("unmatched '}' in format string")

  /**
   The calls for the rest of the string from b on: text up to the next brace, then an escaped
   closing brace, an error, or a replacement field.
   */
  function Calls(h: Handler, s: string, b: nat, history: seq<Event>): seq<Event>
    requires b <= |s|
    decreases |s| - b, 1
  {
    var k := NextBrace(s, b);
    if k == |s| then TextOf(s[b..])
    else if s[k] == '}' then
      if k + 1 == |s| || s[k + 1] != '}' then [UNMATCHED]
      else
        var t := TextOf(s[b..k + 1]);
        t + Calls(h, s, k + 2, history + t)
    else
      var t := TextOf(s[b..k]);
      t + FieldCalls(h, s, k, history + t)
  }

  /** The calls from an opening brace on. */
  function FieldCalls(h: Handler, s: string, b: nat, history: seq<Event>): seq<Event>
    requires b < |s| && s[b] == '{'
    decreases |s| - b, 0
  {
    var f := ReplacementField(h, s, b, history);
    var e := NonEmpty(f.events);
    if f.Failed? then e else e + Calls(h, s, f.next, history + e)
  }

  ghost predicate ErrorLast(es: seq<Event>) { forall i :: 0 <= i < |es| - 1 ==> !es[i].Error? }

  /** An error ends the scan. */
  lemma {:induction false} ErrorEndsCalls(h: Handler, s: string, b: nat, history: seq<Event>)
    requires b <= |s|
    ensures ErrorLast(Calls(h, s, b, history))
    decreases |s| - b, 1
  {
    hide Calls, FieldCalls, TextOf, ErrorLast;
    var k := NextBrace(s, b);
    CallsAt(h, s, b, k, history);
    NoErrorYet([UNMATCHED]);
    if k == |s| {
      TextBefore(s[b..k], []);
      NoErrorYet([]);
      assert TextOf(s[b..k]) + [] == TextOf(s[b..k]);
    } else if s[k] == '{' {
      var t := TextOf(s[b..k]);
      ErrorEndsField(h, s, k, history + t);
      TextBefore(s[b..k], FieldCalls(h, s, k, history + t));
    } else if k + 1 < |s| && s[k + 1] == '}' {
      var t := TextOf(s[b..k + 1]);
      ErrorEndsCalls(h, s, k + 2, history + t);
      TextBefore(s[b..k + 1], Calls(h, s, k + 2, history + t));
    }
  }

  lemma NoErrorYet(es: seq<Event>)
    requires |es| <= 1
    ensures ErrorLast(es)
  {
  }

  lemma TextBefore(t: string, es: seq<Event>)
    requires ErrorLast(es)
    ensures ErrorLast(TextOf(t) + es)
  {
  }

  lemma {:induction false} ErrorEndsField(h: Handler, s: string, b: nat, history: seq<Event>)
    requires b < |s| && s[b] == '{'
    ensures ErrorLast(FieldCalls(h, s, b, history))
    decreases |s| - b, 0
  {
    hide ReplacementField, Calls;
    var f := ReplacementField(h, s, b, history);
    OneOrTwo(f.events);
    if f.Step? { ErrorEndsCalls(h, s, f.next, history + NonEmpty(f.events)); }
  }

  lemma OneOrTwo(es: seq<Event>)
    requires 1 <= |es| <= 2 && forall i :: 0 <= i < |es| ==> es[i] != Text("")
    ensures NonEmpty(es) == es
  {
    hide NonEmpty;
    OneCall(es[0]);
    if |es| == 2 {
      OneCall(es[1]);
      NonEmptyConcat([es[0]], [es[1]]);
      assert es == [es[0]] + [es[1]];
    } else {
      assert es == [es[0]];
    }
  }

  lemma OneCall(e: Event)
    requires e != Text("")
    ensures NonEmpty([e]) == [e]
  {
    assert [e][..0] == [];
  }

  /** Text without braces can be emitted ahead of the rest, when an opening brace or the end follows. */
  lemma SkipText(h: Handler, s: string, b: nat, e: nat, history: seq<Event>)
    requires b <= e <= |s| && (forall i :: b <= i < e ==> !IsBrace(s[i]))
    requires e < |s| ==> s[e] == '{'
    ensures Calls(h, s, b, history) == TextOf(s[b..e]) + Calls(h, s, e, history + TextOf(s[b..e]))
  {
    assert NextBrace(s, b) == e == NextBrace(s, e);
    var t := TextOf(s[b..e]);
    assert s[e..e] == "";
    if e < |s| {
      AtField(h, s, e, history + t);
    } else {
      assert s[b..] == s[b..e] && Calls(h, s, e, history + t) == [];
    }
  }

  lemma AtField(h: Handler, s: string, b: nat, history: seq<Event>)
    requires b < |s| && s[b] == '{'
    ensures Calls(h, s, b, history) == FieldCalls(h, s, b, history)
  {
    assert NextBrace(s, b) == b && s[b..b] == "" && history + [] == history;
  }

  /** All calls made so far followed by the calls for the rest are the calls for the string. */
  ghost predicate OnTrack(h: Handler, s: string, b: nat, events: seq<Event>) {
    b <= |s| && NonEmpty(events) + Calls(h, s, b, NonEmpty(events)) == Calls(h, s, 0, [])
  }

  lemma StartsOnTrack(h: Handler, s: string)
    ensures OnTrack(h, s, 0, [])
  {
  }

  lemma EndsOnTrack(h: Handler, s: string, events: seq<Event>)
    ensures OnTrack(h, s, |s|, events) ==> NonEmpty(events) == Calls(h, s, 0, [])
  {
    assert Calls(h, s, |s|, NonEmpty(events)) == [];
  }

  lemma TextCall(events: seq<Event>, t: string)
    ensures NonEmpty(events + [Text(t)]) == NonEmpty(events) + TextOf(t)
  {
    assert (events + [Text(t)])[..|events|] == events;
  }

  /** After an escaped closing brace. */
  lemma EscapedBrace(h: Handler, s: string, b: nat, k: nat, events: seq<Event>)
    requires OnTrack(h, s, b, events) && b <= k && k + 1 < |s| && s[k] == '}' && s[k + 1] == '}'
    requires forall i :: b <= i < k ==> !IsBrace(s[i])
    ensures OnTrack(h, s, k + 2, events + [Text(s[b..k + 1])])
  {
    hide NonEmpty, ReplacementField, FieldCalls;
    assert NextBrace(s, b) == k;
    var n, t := NonEmpty(events), TextOf(s[b..k + 1]);
    TextCall(events, s[b..k + 1]);
    Assoc(n, t, Calls(h, s, k + 2, n + t));
  }

  lemma UnmatchedBrace(h: Handler, s: string, b: nat, k: nat, events: seq<Event>)
    requires OnTrack(h, s, b, events) && b <= k < |s| && s[k] == '}' && (k + 1 == |s| || s[k + 1] != '}')
    requires forall i :: b <= i < k ==> !IsBrace(s[i])
    ensures NonEmpty(events + [UNMATCHED]) == Calls(h, s, 0, [])
  {
    hide Calls;
    assert NextBrace(s, b) == k;
    CallsAt(h, s, b, k, NonEmpty(events));
    assert (events + [UNMATCHED])[..|events|] == events;
  }

  lemma PlainText(h: Handler, s: string, b: nat, e: nat, events: seq<Event>)
    requires OnTrack(h, s, b, events) && b <= e <= |s| && (e < |s| ==> s[e] == '{')
    requires forall i :: b <= i < e ==> !IsBrace(s[i])
    ensures OnTrack(h, s, e, events + [Text(s[b..e])])
  {
    var n, t := NonEmpty(events), TextOf(s[b..e]);
    SkipText(h, s, b, e, n);
    TextCall(events, s[b..e]);
    Assoc(n, t, Calls(h, s, e, n + t));
  }

  lemma AfterField(h: Handler, s: string, b: nat, events: seq<Event>)
    requires OnTrack(h, s, b, events) && b < |s| && s[b] == '{'
    ensures var f := ReplacementField(h, s, b, NonEmpty(events));
            if f.Failed? then NonEmpty(events + f.events) == Calls(h, s, 0, [])
            else OnTrack(h, s, f.next, events + f.events)
  {
    var n := NonEmpty(events);
    var f := ReplacementField(h, s, b, n);
    AtField(h, s, b, n);
    NonEmptyConcat(events, f.events);
    if f.Step? { Assoc(n, NonEmpty(f.events), Calls(h, s, f.next, n + NonEmpty(f.events))); }
  }

  lemma Assoc(a: seq<Event>, b: seq<Event>, c: seq<Event>)
    ensures a + (b + c) == (a + b) + c
  {
  }

  /** The character loop for strings shorter than 32. */
  method ScanShort(h: Handler, s: string) returns (events: seq<Event>)
    ensures NonEmpty(events) == Calls(h, s, 0, [])
  {
    hide Calls, NonEmpty;
    events := [];
    StartsOnTrack(h, s);
    var begin: nat, p: nat := 0, 0;
    while p != |s|
      invariant begin <= p <= |s| && OnTrack(h, s, begin, events)
      invariant forall i :: begin <= i < p ==> !IsBrace(s[i])
      decreases |s| - p
    {
      var c := s[p];
      p := p + 1;
      if c == '{' {
        PlainText(h, s, begin, p - 1, events);
        events := events + [Text(s[begin..p - 1])];
        AfterField(h, s, p - 1, events);
        var f := ReplacementField(h, s, p - 1, NonEmpty(events));
        events := events + f.events;
        if f.Failed? { return; }
        begin, p := f.next, f.next;
      } else if c == '}' {
        if p == |s| || s[p] != '}' {
          UnmatchedBrace(h, s, begin, p - 1, events);
          events := events + [UNMATCHED];
          return;
        }
        EscapedBrace(h, s, begin, p - 1, events);
        events := events + [Text(s[begin..p])];
        p := p + 1;
        begin := p;
      }
    }
    PlainText(h, s, begin, |s|, events);
    events := events + [Text(s[begin..|s|])];
    EndsOnTrack(h, s, events);
  }

  /** find: the first occurrence of value in s[first..last]. */
  method Find(s: string, first: nat, last: nat, value: char) returns (found: bool, out: nat)
    requires first <= last <= |s|
    ensures found ==> first <= out < last && s[out] == value && forall i :: first <= i < out ==> s[i] != value
    ensures !found ==> forall i :: first <= i < last ==> s[i] != value
  {
    out := first;
    while out != last
      invariant first <= out <= last && forall i :: first <= i < out ==> s[i] != value
    {
      if s[out] == value { return true, out; }
      out := out + 1;
    }
    found := false;
  }

  /** The local writer: emits the text in s[first..last], which holds no opening brace. */
  method Write(h: Handler, s: string, first: nat, last: nat, before: seq<Event>) returns (ok: bool, events: seq<Event>)
    requires first <= last <= |s| && OnTrack(h, s, first, before)
    requires (forall i :: first <= i < last ==> s[i] != '{') && (last < |s| ==> s[last] == '{')
    ensures if ok then OnTrack(h, s, last, events) else NonEmpty(events) == Calls(h, s, 0, [])
  {
    hide Calls, NonEmpty;
    events := before;
    if first == last { return true, events; }
    var pbegin: nat := first;
    while true
      invariant first <= pbegin <= last && OnTrack(h, s, pbegin, events)
      decreases last - pbegin
    {
      var found, p := Find(s, pbegin, last, '}');
      if !found {
        PlainText(h, s, pbegin, last, events);
        return true, events + [Text(s[pbegin..last])];
      }
      p := p + 1;
      if p == last || s[p] != '}' {
        UnmatchedBrace(h, s, pbegin, p - 1, events);
        return false, events + [UNMATCHED];
      }
      EscapedBrace(h, s, pbegin, p - 1, events);
      events := events + [Text(s[pbegin..p])];
      pbegin := p + 1;
    }
  }

  /** The two-pass search for long strings. */
  method ScanLong(h: Handler, s: string) returns (events: seq<Event>)
    ensures NonEmpty(events) == Calls(h, s, 0, [])
  {
    hide Calls, NonEmpty;
    events := [];
    StartsOnTrack(h, s);
    var begin: nat := 0;
    while begin != |s|
      invariant begin <= |s| && OnTrack(h, s, begin, events)
      decreases |s| - begin
    {
      var p: nat, ok := begin, true;
      if s[begin] != '{' {
        var found;
        found, p := Find(s, begin + 1, |s|, '{');
        if !found {
          ok, events := Write(h, s, begin, |s|, events);
          EndsOnTrack(h, s, events);
          return;
        }
      }
      ok, events := Write(h, s, begin, p, events);
      if !ok { return; }
      AfterField(h, s, p, events);
      var f := ReplacementField(h, s, p, NonEmpty(events));
      events := events + f.events;
      if f.Failed? { return; }
      begin := f.next;
    }
    EndsOnTrack(h, s, events);
  }

  /** parse_format_string: the strategy depends on the length, the calls do not. */
  method ParseFormatString(h: Handler, s: string) returns (events: seq<Event>)
    ensures NonEmpty(events) == Calls(h, s, 0, [])
  {
    if |s| < 32 { events := ScanShort(h, s); } else { events := ScanLong(h, s); }
  }

  // ---- what the calls mean for escaped literals ----

  /** A literal with its braces doubled. */
  function Escape(t: string): string {
    if t == "" then ""
    else (if t[0] == '{' then "{{" else if t[0] == '}' then "}}" else t[..1]) + Escape(t[1..])
  }

  function Joined(es: seq<Event>): string {
    if es == [] then "" else (if es[0].Text? then es[0].t else "") + Joined(es[1..])
  }

  ghost predicate OnlyText(es: seq<Event>) { forall e :: e in es ==> e.Text? }

  lemma {:induction false} JoinedConcat(a: seq<Event>, b: seq<Event>)
    ensures Joined(a + b) == Joined(a) + Joined(b)
  {
    if a == [] {
      assert a + b == b;
    } else {
      assert (a + b)[1..] == a[1..] + b;
      JoinedConcat(a[1..], b);
    }
  }

  /** The braceless start of a literal is copied by Escape. */
  lemma {:induction false} EscapePlain(t: string, n: nat)
    requires n <= |t| && forall i :: 0 <= i < n ==> !IsBrace(t[i])
    ensures Escape(t) == t[..n] + Escape(t[n..])
  {
    if n > 0 {
      EscapePlain(t[1..], n - 1);
      assert t[1..][n - 1..] == t[n..] && t[..n] == t[..1] + t[1..][..n - 1];
    }
  }

  function PlainPrefix(t: string): (n: nat)
    ensures n <= |t| && (forall i :: 0 <= i < n ==> !IsBrace(t[i])) && (n < |t| ==> IsBrace(t[n]))
  {
    if t == "" || IsBrace(t[0]) then 0 else 1 + PlainPrefix(t[1..])
  }

  /** Where the scanner meets the first brace of an escaped literal, and what it finds there. */
  lemma FirstBrace(s: string, b: nat, t: string, n: nat)
    requires b <= |s| && s[b..] == Escape(t) && n == PlainPrefix(t)
    ensures var k := b + n;
            && k <= |s| && NextBrace(s, b) == k && s[b..k] == t[..n]
            && (n == |t| ==> k == |s|)
            && (n < |t| ==> k + 1 < |s| && s[k] == t[n] == s[k + 1] && s[k + 2..] == Escape(t[n + 1..]))
  {
    EscapePlain(t, n);
    var k, u, v := b + n, t[..n], t[n..];
    assert s[b..][..n] == u && s[b..][n..] == s[k..] == Escape(v);
    assert s[b..k] == u;
    forall i | b <= i < k ensures !IsBrace(s[i]) { assert s[i] == s[b..][i - b] == u[i - b]; }
    if v != "" {
      assert s[k] == s[k..][0] == v[0] && s[k + 1] == s[k..][1] == v[0];
      assert s[k + 2..] == s[k..][2..] && v[1..] == t[n + 1..];
    }
  }

  /** The three ways the reference reading goes on at the next brace. */
  lemma {:induction false} CallsAt(h: Handler, s: string, b: nat, k: nat, history: seq<Event>)
    requires b <= k <= |s| && k == NextBrace(s, b)
    ensures k == |s| ==> Calls(h, s, b, history) == TextOf(s[b..k])
    ensures k + 1 < |s| && s[k] == '}' && s[k + 1] == '}' ==>
              Calls(h, s, b, history)
              == TextOf(s[b..k + 1]) + Calls(h, s, k + 2, history + TextOf(s[b..k + 1]))
    ensures k < |s| && s[k] == '{' ==>
              Calls(h, s, b, history) == TextOf(s[b..k]) + FieldCalls(h, s, k, history + TextOf(s[b..k]))
    ensures k < |s| && s[k] == '}' && (k + 1 == |s| || s[k + 1] != '}') ==> Calls(h, s, b, history) == [UNMATCHED]
  {
    hide FieldCalls, NextBrace, TextOf;
    assert s[b..|s|] == s[b..];
  }

  /** Doubling the braces of any literal makes the scanner reproduce it as text, with no field and no error. */
  lemma {:induction false} EscapeRoundTrip(h: Handler, s: string, b: nat, t: string, history: seq<Event>)
    requires b <= |s| && s[b..] == Escape(t)
    ensures OnlyText(Calls(h, s, b, history)) && Joined(Calls(h, s, b, history)) == t
    decreases |t|, 1
  {
    hide Joined, NonEmpty, ReplacementField, FieldCalls, Calls, Escape, PlainPrefix, OnlyText, TextOf;
    var n := PlainPrefix(t);
    var k := b + n;
    FirstBrace(s, b, t, n);
    CallsAt(h, s, b, k, history);
    if n == |t| {
      assert s[b..] == s[b..k] && t[..n] == t;
      JustText(t);
    } else if t[n] == '}' {
      var x := s[b..k + 1];
      var rest := Calls(h, s, k + 2, history + TextOf(x));
      assert x == t[..n + 1];
      EscapeRoundTrip(h, s, k + 2, t[n + 1..], history + TextOf(x));
      TextThen(x, rest, t[n + 1..], t);
    } else {
      var rest := FieldCalls(h, s, k, history + TextOf(t[..n]));
      EscapedOpening(h, s, k, t[n + 1..], history + TextOf(t[..n]));
      TextThen(t[..n], rest, "{" + t[n + 1..], t);
    }
  }

  lemma JustText(t: string)
    ensures OnlyText(TextOf(t)) && Joined(TextOf(t)) == t
  {
    if t != "" { assert TextOf(t)[1..] == []; }
  }

  lemma TextThen(x: string, es: seq<Event>, rest: string, t: string)
    requires OnlyText(es) && Joined(es) == rest && x + rest == t
    ensures OnlyText(TextOf(x) + es) && Joined(TextOf(x) + es) == t
  {
    JoinedConcat(TextOf(x), es);
  }

  lemma {:induction false} EscapedOpening(h: Handler, s: string, k: nat, t: string, history: seq<Event>)
    requires k + 1 < |s| && s[k] == '{' && s[k + 1] == '{' && s[k + 2..] == Escape(t)
    ensures OnlyText(FieldCalls(h, s, k, history)) && Joined(FieldCalls(h, s, k, history)) == "{" + t
    decreases |t| + 1, 0
  {
    var e := [Text("{")];
    assert s[k + 1..k + 2] == "{" && ReplacementField(h, s, k, history) == Step(e, k + 2);
    assert NonEmpty(e) == e;
    EscapeRoundTrip(h, s, k + 2, t, history + e);
    JoinedConcat(e, Calls(h, s, k + 2, history + e));
    assert Joined(e) == "{" by { assert e[1..] == []; }
  }

  lemma EscapedLiteral(h: Handler, t: string)
    ensures OnlyText(Calls(h, Escape(t), 0, [])) && Joined(Calls(h, Escape(t), 0, [])) == t
  {
    EscapeRoundTrip(h, Escape(t), 0, t, []);
  }
}
