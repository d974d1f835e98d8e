/**
  What the writers print reads back as the same events: byte strings exactly, integers by value in the
  narrowest class.
 */
module JsonRoundTrip {
  import opened Wrap32
  import opened JsonText
  import opened JsonParse
  import opened JsonTrace
  import opened JsonNumbers
  import opened JsonWriter
  import opened JsonEquivalence

  // ----- strings

  lemma HexRead(t: Text, i: nat, c: byte)
    requires At(t, i, [ZERO, ZERO, HEX_DIGITS[c / 16], HEX_DIGITS[c % 16]])
    ensures Hex4(t, i) == Some(c)
  {
    var w := [ZERO, ZERO, HEX_DIGITS[c / 16], HEX_DIGITS[c % 16]];
    AtPeek(t, i, w, 0); AtPeek(t, i, w, 1); AtPeek(t, i, w, 2); AtPeek(t, i, w, 3);
    assert HexValue(w[2]) == c / 16 && HexValue(w[3]) == c % 16;
    assert Hex(t, i + 4, 4, c) == Some(c);
    assert Hex(t, i + 3, 3, c / 16) == Hex(t, i + 4, 4, c);
    assert Hex(t, i + 2, 2, 0) == Hex(t, i + 3, 3, c / 16);
  }

  /** Whatever the byte, what WriteString puts for it reads as that byte. */
  lemma PieceRead(t: Text, i: nat, c: byte)
    requires At(t, i, EscapeOf(c))
    ensures PieceAt(t, i) == Put([c], i + |EscapeOf(c)|)
  {
    hide At, Hex4;
    var w := EscapeOf(c);
    AtPeek(t, i, w, 0);
    if EscapeLetter(c) == SMALL_U {
      AtPeek(t, i, w, 1);
      assert w == [BACKSLASH, SMALL_U] + [ZERO, ZERO, HEX_DIGITS[c / 16], HEX_DIGITS[c % 16]];
      AtSplit(t, i, [BACKSLASH, SMALL_U], [ZERO, ZERO, HEX_DIGITS[c / 16], HEX_DIGITS[c % 16]]);
      HexRead(t, i + 2, c);
    } else if EscapeLetter(c) != 0 {
      AtPeek(t, i, w, 1);
    }
  }

  /** Any byte string, NUL included, comes back exactly. */
  lemma {:induction false} DecodeEscapes(t: Text, i: nat, s: seq<byte>)
    requires At(t, i, Escapes(s) + [QUOTE])
    ensures Decode(t, i) == Str(s, i + |Escapes(s)| + 1)
    decreases |s|
  {
    hide At, PieceAt, EscapeOf;
    if s == [] {
      AtPeek(t, i, [] + [QUOTE], 0);
      QuoteCloses(t, i);
    } else {
      var rest := Escapes(s[1..]) + [QUOTE];
      assert Escapes(s) + [QUOTE] == EscapeOf(s[0]) + rest;
      AtSplit(t, i, EscapeOf(s[0]), rest);
      PieceRead(t, i, s[0]);
      DecodeEscapes(t, i + |EscapeOf(s[0])|, s[1..]);
    }
  }

  lemma QuoteCloses(t: Text, i: nat)
    requires Peek(t, i) == QUOTE
    ensures PieceAt(t, i) == Close(i + 1)
  {
  }

  lemma QuotedRead(t: Text, i: nat, s: seq<byte>)
    requires At(t, i, Quoted(s))
    ensures Peek(t, i) == QUOTE && Decode(t, i + 1) == Str(s, i + |Quoted(s)|)
  {
    hide At, Decode, Escapes;
    assert Quoted(s) == [QUOTE] + (Escapes(s) + [QUOTE]);
    AtPeek(t, i, Quoted(s), 0);
    AtSplit(t, i, [QUOTE], Escapes(s) + [QUOTE]);
    DecodeEscapes(t, i + 1, s);
  }

  // ----- integers

  lemma {:induction false} DigitsValue(n: nat)
    ensures AllDigits(Digits(n)) && ValueOfDigits(Digits(n)) == n
  {
    if n < 10 {
      OneDigitValue(ZERO + n);
    } else {
      DigitsValue(n / 10);
      assert Digits(n)[..|Digits(n)| - 1] == Digits(n / 10);
    }
  }

  lemma OneDigitValue(c: byte)
    requires IsDigit(c)
    ensures ValueOfDigits([c]) == c - ZERO
  {
    assert ValueOfDigits([c][..0]) == 0;
  }

  lemma IntegerRead(t: Text, i: nat, v: int)
    requires At(t, i, IntegerText(v)) && !IsDigit(Peek(t, i + |IntegerText(v)|))
    ensures IntegerAt(t, i) == Some(Magnitude(v < 0, if v < 0 then -v else v, i + |IntegerText(v)|))
  {
    hide At, Digits, IntegerAt, HeadFits, Front, IntegerText, ValueOfDigits;
    var n := if v < 0 then -v else v;
    IntegerFront(v);
    WholeDigits(n);
    FrontRead(t, i, v < 0, Whole(Digits(n)));
  }

  lemma IntegerFront(v: int)
    ensures IntegerText(v) == Front(v < 0, Whole(Digits(if v < 0 then -v else v)))
  {
    hide Digits;
  }

  lemma WholeDigits(n: nat)
    ensures HeadFits(Whole(Digits(n))) && ValueOfDigits(Digits(n)) == n
  {
    DigitsValue(n);
    if n == 0 { ZeroDigits(); }
  }

  lemma ZeroDigits()
    ensures Digits(0) == [ZERO]
  {
  }

  /** The number is one of its class. */
  predicate InClass(n: Num)
  {
    match n
    case Int(i) => -INT_MIN_ABS <= i < INT_MIN_ABS
    case Uint(u) => u < UINT_LIM
    case Int64(i) => -INT64_MIN_ABS <= i < INT64_MIN_ABS
    case Uint64(u) => u < UINT64_LIM
  }

  /** The same value in the narrowest class. */
  function Narrowed(n: Num): (r: Num)
    requires InClass(n)
    ensures ValueOf(r) == ValueOf(n) && InClass(r)
  {
    var v := ValueOf(n);
    Narrowest(Magnitude(v < 0, if v < 0 then -v else v, 0))
  }

  // ----- tokens

  /** The text of a number with a fraction, an exponent or too many digits, or of one of the words the flags allow. */
  ghost predicate Floats(env: Env, w: seq<byte>)
  {
    exists n :: IsFloat(GrammarOf(env), n) && NumeralText(n) == w
  }

  /** Integers lie in their class. */
  predicate InRange(e: Event) { e.Number? ==> InClass(e.n) }

  /** A double is printed as a text the reader takes for one. */
  ghost predicate Readable(env: Env, e: Event) { e.Double? ==> Floats(env, Spelling(e)) }

  function Normal(e: Event): Event
    requires InRange(e)
  {
    if e.Number? then Number(Narrowed(e.n)) else e
  }

  predicate IsNumeric(e: Event) { e.Number? || e.Double? }

  predicate IsScalarEvent(e: Event) { e.Null? || e.Bool? || IsNumeric(e) || e.String? }

  lemma NumberRead(env: Env, t: Text, i: nat, ev: seq<Event>, n: Num)
    requires InClass(n) && At(t, i, IntegerText(ValueOf(n))) && Stops(Peek(t, i + |IntegerText(ValueOf(n))|))
    ensures NumberAt(env, t, i, ev) == Tell(env, i + |IntegerText(ValueOf(n))|, ev, Number(Narrowed(n)))
    ensures Peek(t, i) == MINUS || IsDigit(Peek(t, i))
  {
    hide At, IntegerAt, Tell, Digits;
    IntegerRead(t, i, ValueOf(n));
    AtPeek(t, i, IntegerText(ValueOf(n)), 0);
  }

  lemma DoubleRead(env: Env, t: Text, i: nat, ev: seq<Event>, w: seq<byte>)
    requires Floats(env, w) && At(t, i, w) && Stops(Peek(t, i + |w|))
    ensures NumberAt(env, t, i, ev) == Tell(env, i + |w|, ev, Double(w))
    ensures StartsNumber(Peek(t, i))
  {
    hide NumberAt, Tell, NumeralText, At;
    FloatStarts(env, w);
    AtPeek(t, i, w, 0);
    var n :| IsFloat(GrammarOf(env), n) && NumeralText(n) == w;
    StopsAll(n, Peek(t, i + |w|));
    NumeralRead(env, t, i, ev, n);
  }

  lemma FloatStarts(env: Env, w: seq<byte>)
    requires Floats(env, w)
    ensures w != [] && StartsNumber(w[0])
  {
    hide NumeralFits, NumeralText;
    var n :| IsFloat(GrammarOf(env), n) && NumeralText(n) == w;
    NumeralStarts(GrammarOf(env), n);
  }

  lemma ScalarRead(env: Env, t: Text, i: nat, ev: seq<Event>, e: Event)
    requires InRange(e) && Readable(env, e) && IsScalarEvent(e) && At(t, i, Spelling(e))
    requires IsNumeric(e) ==> Stops(Peek(t, i + |Spelling(e)|))
    ensures ScalarAt(env, t, i, ev) == Tell(env, i + |Spelling(e)|, ev, Normal(e))
  {
    hide At, Tell, Literal, NumberAt, Decode, IntegerText, Quoted, Narrowed, Floats, InClass, Stops, Matches, Escapes;
    match e
    case Null => LiteralRead(env, t, i, ev, SMALL_N, ULL, Null);
    case Bool(b) =>
      if b { LiteralRead(env, t, i, ev, SMALL_T, RUE, e); } else { LiteralRead(env, t, i, ev, SMALL_F, ALSE, e); }
    case Number(n) => NumberRead(env, t, i, ev, n);
    case Double(w) => DoubleRead(env, t, i, ev, w);
    case String(s) => QuotedRead(t, i, s);
  }

  /** Every token begins with a byte that is neither white space nor the beginning of a comment. */
  lemma FirstByte(env: Env, e: Event)
    requires InRange(e) && Readable(env, e)
    ensures var w := Spelling(e); w != [] && !IsSpace(w[0]) && w[0] != SLASH && w[0] != 0
    ensures var w := Spelling(e); IsScalarEvent(e) ==> IsScalar(Tokenize(w[0]))
  {
    if e.Double? {
      FloatStarts(env, e.text);
    } else if e.Number? {
      var w := Digits(if ValueOf(e.n) < 0 then -ValueOf(e.n) else ValueOf(e.n));
      assert IsDigit(w[0]);
      hide Digits;
    }
  }

  predicate AllSpace(gap: seq<byte>) { forall i :: 0 <= i < |gap| ==> IsSpace(gap[i]) }

  lemma {:induction false} SpaceRead(t: Text, i: nat, gap: seq<byte>)
    requires At(t, i, gap) && AllSpace(gap) && !IsSpace(Peek(t, i + |gap|))
    ensures SkipSpace(t, i) == i + |gap|
    decreases |gap|
  {
    if gap != [] {
      AtPeek(t, i, gap, 0);
      assert gap == [gap[0]] + gap[1..];
      AtSplit(t, i, [gap[0]], gap[1..]);
      SpaceRead(t, i + 1, gap[1..]);
    }
  }

  lemma GapRead(env: Env, t: Text, i: nat, ev: seq<Event>, gap: seq<byte>)
    requires At(t, i, gap) && AllSpace(gap) && !IsSpace(Peek(t, i + |gap|)) && Peek(t, i + |gap|) != SLASH
    ensures Skipped(env, t, i, ev) == Ok(i + |gap|, ev)
  {
    hide At, SkipSpace;
    SpaceRead(t, i, gap);
  }

  // ----- the machine reading a trace

  /** Where the machine is when it has read a trace up to here. */
  function StateOf(k: Track): State
    requires k.Track?
  {
    if k.open == [] then (if k.done then Finish else Start)
    else if Top(k.open).isObject then
      if Top(k.open).key then MemberKey else if Top(k.open).children == 0 then ObjectInitial else MemberValue
    else if Top(k.open).children == 0 then ArrayInitial else Element
  }

  /** The machine has reported exactly `ev`, and stands where such a trace leads. */
  predicate HasRead(m: Machine, t: Text, ev: seq<Event>)
  {
    && m.Machine? && MachineOk(m, t) && Tracks(m) && m.ev == ev
    && Fed(ev).Track? && m.state == StateOf(Fed(ev))
  }

  /** The punctuation before an event. */
  function Delimiter(state: State, e: Event): seq<byte>
  {
    if IsEnd(e) then []
    else if state in {MemberValue, Element} then [COMMA]
    else if state == MemberKey then [COLON]
    else []
  }

  function Delimit(state: State, e: Event): State
  {
    if IsEnd(e) then state
    else if state == MemberValue then MemberDelimiter
    else if state == Element then ElementDelimiter
    else if state == MemberKey then KeyValueDelimiter
    else state
  }

  /** The machine behind punctuation and white space, at the token of e. */
  predicate Poised(m: Machine, t: Text, ev: seq<Event>, e: Event)
  {
    && m.Machine? && MachineOk(m, t) && Tracks(m) && m.ev == ev && Fed(ev).Track? && Fed(ev + [e]).Track?
    && m.state == Delimit(StateOf(Fed(ev)), e)
  }

  lemma Approach(env: Env, t: Text, m: Machine, e: Event, gap: seq<byte>) returns (m': Machine)
    requires m.Machine? && HasRead(m, t, m.ev) && Fed(m.ev + [e]).Track? && InRange(e) && Readable(env, e)
    requires AllSpace(gap)
    requires At(t, m.pos, Delimiter(m.state, e) + gap + Spelling(e))
    ensures Poised(m', t, m.ev, e) && m'.pos == m.pos + |Delimiter(m.state, e) + gap|
    ensures Resume(env, t, m) == Loop(env, t, m')
    ensures At(t, m'.pos, Spelling(e))
  {
    hide At, Tracks, MachineOk, Loop, Turn, Spelling, Fed, Skipped, AllSpace, Floats, Narrowed;
    var d := Delimiter(m.state, e);
    NotFinished(m.ev, e);
    FirstByte(env, e);
    AtSplit(t, m.pos, d + gap, Spelling(e));
    AtSplit(t, m.pos, d, gap);
    AtPeek(t, m.pos + |d + gap|, Spelling(e), 0);
    GapRead(env, t, m.pos + |d|, m.ev, gap);
    if d == [] {
      m' := m.(pos := m.pos + |gap|);
      ResumeTurn(env, t, m, Ok(m'.pos, m.ev));
      TracksMoved(m, m'.pos);
    } else {
      AtPeek(t, m.pos, d, 0);
      NoGap(env, t, m.pos, m.ev);
      ResumeTurn(env, t, m, Ok(m.pos, m.ev));
      LoopTurn(env, t, m);
      TurnTracks(env, t, m);
      var m1 := Turn(env, t, m);
      if d == [COMMA] { CommaTurn(env, t, m); } else { ColonTurn(env, t, m); }
      assert m1.Machine? && m1.pos == m.pos + 1 && m1.ev == m.ev && m1.state == Delimit(m.state, e) && MachineOk(m1, t);
      m' := m1.(pos := m.pos + 1 + |gap|);
      ResumeTurn(env, t, m1, Ok(m'.pos, m.ev));
      TracksMoved(m1, m'.pos);
    }
  }

  lemma NoGap(env: Env, t: Text, i: nat, ev: seq<Event>)
    requires Peek(t, i) in {COMMA, COLON}
    ensures Skipped(env, t, i, ev) == Ok(i, ev)
  {
  }

  /** Nothing continues a complete trace, and delimited states are those with a container open. */
  lemma NotFinished(ev: seq<Event>, e: Event)
    requires Fed(ev).Track? && Fed(ev + [e]).Track?
    ensures StateOf(Fed(ev)) != Finish
  {
    FedSnoc(ev, e);
    hide Fed;
  }

  /** The token itself: the machine reports the event and stands where the longer trace leads. */
  lemma TakeToken(env: Env, t: Text, m: Machine, ev: seq<Event>, e: Event) returns (m': Machine)
    requires Poised(m, t, ev, e) && InRange(e) && Readable(env, e) && At(t, m.pos, Spelling(e))
    requires env.handler(ev + [Normal(e)])
    requires IsNumeric(e) ==> Stops(Peek(t, m.pos + |Spelling(e)|))
    ensures HasRead(m', t, ev + [Normal(e)]) && m'.pos == m.pos + |Spelling(e)|
    ensures Loop(env, t, m) == Resume(env, t, m')
  {
    hide At, Tracks, MachineOk, Loop, Resume, Fed, Tokenize, Spelling;
    FirstByte(env, e);
    AtPeek(t, m.pos, Spelling(e), 0);
    LoopTurn(env, t, m);
    TurnTracks(env, t, m);
    m' := Turn(env, t, m);
    if IsScalarEvent(e) {
      TakeScalar(env, t, m, ev, e);
    } else if IsStart(e) {
      TakeStart(env, t, m, ev, e);
    } else if e.Key? {
      TakeKey(env, t, m, ev, e);
    } else {
      TakeEnd(env, t, m, ev, e);
    }
  }

  lemma TakeScalar(env: Env, t: Text, m: Machine, ev: seq<Event>, e: Event)
    requires Poised(m, t, ev, e) && InRange(e) && Readable(env, e) && At(t, m.pos, Spelling(e))
    requires env.handler(ev + [Normal(e)])
    requires IsScalarEvent(e) && (IsNumeric(e) ==> Stops(Peek(t, m.pos + |Spelling(e)|)))
    requires Peek(t, m.pos) != 0 && IsScalar(Tokenize(Peek(t, m.pos)))
    ensures Turn(env, t, m) == Machine(AfterValue(m.state), m.stack, m.pos + |Spelling(e)|, ev + [Normal(e)])
    ensures Fed(ev + [Normal(e)]).Track? && AfterValue(m.state) == StateOf(Fed(ev + [Normal(e)]))
  {
    hide At, Tracks, MachineOk, Turn, Tokenize, Spelling, ScalarAt, Narrowed, Floats, Stops;
    FedSnoc(ev, e);
    FedSnoc(ev, Normal(e));
    hide Fed;
    assert AwaitsValue(m.state);
    ScalarTurn(env, t, m);
    ScalarRead(env, t, m.pos, ev, e);
  }

  lemma TakeStart(env: Env, t: Text, m: Machine, ev: seq<Event>, e: Event)
    requires Poised(m, t, ev, e) && IsStart(e) && env.handler(ev + [e]) && Peek(t, m.pos) == Spelling(e)[0]
    ensures var m' := Turn(env, t, m);
      && m'.Machine? && m'.pos == m.pos + |Spelling(e)| && m'.ev == ev + [e]
      && Fed(ev + [e]).Track? && m'.state == StateOf(Fed(ev + [e]))
  {
    hide Tracks, MachineOk, Turn;
    FedSnoc(ev, e);
    hide Fed;
    assert AwaitsValue(m.state);
    OpenTurn(env, t, m);
  }

  lemma TakeKey(env: Env, t: Text, m: Machine, ev: seq<Event>, e: Event)
    requires Poised(m, t, ev, e) && e.Key? && At(t, m.pos, Spelling(e)) && env.handler(ev + [e])
    ensures Peek(t, m.pos) != 0
    ensures Turn(env, t, m) == Machine(MemberKey, m.stack, m.pos + |Spelling(e)|, ev + [e])
    ensures Fed(ev + [e]).Track? && StateOf(Fed(ev + [e])) == MemberKey
  {
    hide At, Tracks, MachineOk, Turn, Decode, Quoted;
    FedSnoc(ev, e);
    hide Fed;
    QuotedRead(t, m.pos, e.k);
    KeyTurn(env, t, m);
  }

  lemma TakeEnd(env: Env, t: Text, m: Machine, ev: seq<Event>, e: Event)
    requires Poised(m, t, ev, e) && IsEnd(e) && env.handler(ev + [e]) && Peek(t, m.pos) == Spelling(e)[0]
    ensures var m' := Turn(env, t, m);
      && m'.Machine? && m'.pos == m.pos + |Spelling(e)| && m'.ev == ev + [e]
      && Fed(ev + [e]).Track? && m'.state == StateOf(Fed(ev + [e]))
  {
    hide Tracks, MachineOk, Turn, Fed, Feed, Wrap;
    FedSnoc(ev, e);
    EndCount(m, ev, e);
    EndState(m, ev, e);
    ClosedStates(t, m);
    TurnTracks(env, t, m);
    CloseTurn(env, t, m, e.EndObject?);
    var m' := Turn(env, t, m);
    assert m'.Machine? && m'.ev == ev + [e];
    ClosedState(t, m');
  }

  /** An end comes where a container of its kind is open and no name is pending. */
  lemma EndState(m: Machine, ev: seq<Event>, e: Event)
    requires m.Machine? && Fed(ev).Track? && IsEnd(e) && Feed(Fed(ev), e).Track?
    requires m.state == Delimit(StateOf(Fed(ev)), e)
    ensures m.state in if e.EndObject? then {ObjectInitial, MemberValue} else {ArrayInitial, Element}
  {
    hide Fed;
  }

  /** The machine's count is the one the trace gives. */
  lemma EndCount(m: Machine, ev: seq<Event>, e: Event)
    requires m.Machine? && Tracks(m) && m.ev == ev && Fed(ev).Track? && IsEnd(e) && Feed(Fed(ev), e).Track?
    ensures m.stack != [] && CountOf(m) == if e.EndObject? then e.members else e.elements
  {
    hide Fed, Nested, Wrap;
    WrapPlus(Top(Fed(ev).open).children - 1, 1);
  }

  lemma ClosedStates(t: Text, m: Machine)
    requires m.Machine? && MachineOk(m, t) && m.stack != []
    ensures forall pos, ev :: Closed(m, pos, ev).state in {Finish, MemberValue, Element}
  {
  }

  lemma ClosedState(t: Text, m: Machine)
    requires m.Machine? && MachineOk(m, t) && Tracks(m) && m.state in {Finish, MemberValue, Element}
    ensures m.state == StateOf(Fed(m.ev))
  {
    hide Fed, Nested, SavedOk;
  }

  // ----- the writer's text

  /** What the levels say of the innermost container. */
  lemma TopCounts(w: Printed, k: Track)
    requires k.Track? && Matched(w, k)
    ensures w.levels == [] <==> k.open == []
    ensures k.open != [] ==> Counts(w.levels[|w.levels| - 1], Top(k.open), false)
    ensures k.done ==> k.open == []
  {
  }

  /** What a writer puts before an event is the punctuation the machine expects, then white space. */
  lemma LeadSplits(style: Style, w: Printed, k: Track, e: Event) returns (gap: seq<byte>)
    requires style.Valid() && k.Track? && Matched(w, k) && Feed(k, e).Track?
    ensures AllSpace(gap) && Lead(style, w.levels, e) == Delimiter(StateOf(k), e) + gap
  {
    hide Matched, Before, BeforeEnd;
    TopCounts(w, k);
    gap := [];
    if IsEnd(e) {
      EndSpace(style, w.levels);
      gap := BeforeEnd(style, w.levels);
    } else if k.open != [] {
      BeforeSplits(style, w.levels, Top(k.open));
      gap := Before(style, w.levels)[|Delimiter(StateOf(k), e)|..];
    } else {
      NoLead(style);
    }
  }

  lemma NoLead(style: Style)
    ensures Before(style, []) == []
  {
  }

  lemma EndSpace(style: Style, levels: seq<Nest>)
    requires style.Valid() && levels != []
    ensures AllSpace(BeforeEnd(style, levels))
  {
  }

  /** By the level, without regard to the event. */
  lemma BeforeSplits(style: Style, levels: seq<Nest>, level: Level)
    requires style.Valid() && levels != [] && Counts(levels[|levels| - 1], level, false)
    ensures var d := if level.key then [COLON] else if level.children > 0 then [COMMA] else [];
      d <= Before(style, levels) && AllSpace(Before(style, levels)[|d|..])
  {
    hide Indent;
    if style.Pretty? { IndentSpace(style, |levels|); }
  }

  lemma IndentSpace(style: Style, depth: nat)
    requires style.Valid() && style.Pretty?
    ensures AllSpace(Indent(style, depth))
  {
  }

  lemma LeadStops(style: Style, w: Printed, k: Track, e: Event)
    requires style.Valid() && k.Track? && Matched(w, k) && Feed(k, e).Track? && StateOf(k) in {MemberValue, Element}
    ensures Lead(style, w.levels, e) + Spelling(e) != [] && Stops((Lead(style, w.levels, e) + Spelling(e))[0])
  {
    var gap := LeadSplits(style, w, k, e);
    hide Matched, Lead, Feed, StateOf, Quoted, IntegerText;
    if IsEnd(e) {
      assert |Spelling(e)| == 1 && Stops(Spelling(e)[0]);
    } else {
      assert Delimiter(StateOf(k), e) == [COMMA];
    }
  }

  lemma SpellingAt(style: Style, ev: seq<Event>, k: nat)
    requires k < |ev|
    ensures var w := Written(style, ev[..k]);
      At(Written(style, ev).out, |w.out|, Lead(style, w.levels, ev[k]) + Spelling(ev[k]))
      && |Written(style, ev[..k + 1]).out| == |w.out| + |Lead(style, w.levels, ev[k])| + |Spelling(ev[k])|
  {
    hide Lead, Spelling, LevelsAfter, Written;
    OutGrows(style, ev, k + 1);
    assert ev[..k + 1] == ev[..k] + [ev[k]];
    WrittenSnoc(style, ev[..k], ev[k]);
    var w := Written(style, ev[..k]);
    PrefixAt(Written(style, ev).out, w.out, Lead(style, w.levels, ev[k]) + Spelling(ev[k]));
  }

  lemma PrefixAt(t: Text, a: seq<byte>, b: seq<byte>)
    requires a + b <= t
    ensures At(t, |a|, b)
  {
  }

  lemma {:induction false} OutGrows(style: Style, ev: seq<Event>, k: nat)
    requires k <= |ev|
    ensures Written(style, ev[..k]).out <= Written(style, ev).out
    decreases |ev|
  {
    hide Lead, Spelling, LevelsAfter;
    if k < |ev| {
      var init := ev[..|ev| - 1];
      OutGrows(style, init, k);
      assert init[..k] == ev[..k];
    } else {
      assert ev[..k] == ev;
    }
  }

  ghost predicate AllReadable(env: Env, ev: seq<Event>) { forall i :: 0 <= i < |ev| ==> Readable(env, ev[i]) }

  predicate AllInRange(ev: seq<Event>) { forall i :: 0 <= i < |ev| ==> InRange(ev[i]) }

  /** The trace with every integer in its narrowest class. */
  function Normals(ev: seq<Event>): (r: seq<Event>)
    requires AllInRange(ev)
    ensures |r| == |ev| && forall i :: 0 <= i < |ev| ==> r[i] == Normal(ev[i])
  {
    seq(|ev|, i requires 0 <= i < |ev| => Normal(ev[i]))
  }

  /** Normalising integers changes nothing else about a trace. */
  lemma {:induction false} NormalsFed(ev: seq<Event>)
    requires AllInRange(ev)
    ensures Fed(Normals(ev)) == Fed(ev)
  {
    hide Narrowed;
    if ev != [] {
      var init := ev[..|ev| - 1];
      NormalsFed(init);
      assert Normals(ev)[..|ev| - 1] == Normals(init);
    }
  }

  /** The handler lets the parse of this trace go on to its end. */
  predicate Willing(env: Env, ev: seq<Event>) { forall k :: 0 <= k <= |ev| ==> env.handler(ev[..k]) }

  /** After any number of events the machine has reported their normal forms and stands behind their
      text. */
  lemma {:induction false} ReadsBack(env: Env, style: Style, ev: seq<Event>, k: nat) returns (m: Machine)
    requires style.Valid() && Fed(ev).Track? && AllInRange(ev) && AllReadable(env, ev) && Willing(env, Normals(ev))
    requires k <= |ev|
    ensures var t := Written(style, ev).out;
      && HasRead(m, t, Normals(ev[..k])) && m.pos == |Written(style, ev[..k]).out|
      && Iterative(env, t) == Resume(env, t, m)
    ensures Fed(ev[..k]).Track? && Matched(Written(style, ev[..k]), Fed(ev[..k]))
    decreases k
  {
    hide HasRead, Resume, Iterative, Written, Narrowed, Fed, Matched, At, Spelling, Lead;
    var t := Written(style, ev).out;
    if k == 0 {
      m := Machine(Start, [], 0, []);
      Begins(env, t, style);
      assert ev[..0] == [] && Normals(ev[..0]) == [];
    } else {
      var m0 := ReadsBack(env, style, ev, k - 1);
      m := ReadsOne(env, style, ev, k - 1, m0);
    }
  }

  lemma Begins(env: Env, t: Text, style: Style)
    ensures var m := Machine(Start, [], 0, []);
      HasRead(m, t, []) && Iterative(env, t) == Resume(env, t, m)
    ensures |Written(style, []).out| == 0 && Fed([]).Track? && Matched(Written(style, []), Fed([]))
  {
    hide Loop;
    StartTracks(0);
  }

  lemma ReadsOne(env: Env, style: Style, ev: seq<Event>, k: nat, m0: Machine) returns (m: Machine)
    requires style.Valid() && Fed(ev).Track? && AllInRange(ev) && AllReadable(env, ev) && Willing(env, Normals(ev))
    requires k < |ev|
    requires var t := Written(style, ev).out;
      && HasRead(m0, t, Normals(ev[..k])) && m0.pos == |Written(style, ev[..k]).out|
      && Iterative(env, t) == Resume(env, t, m0)
    requires Fed(ev[..k]).Track? && Matched(Written(style, ev[..k]), Fed(ev[..k]))
    ensures var t := Written(style, ev).out;
      && HasRead(m, t, Normals(ev[..k + 1])) && m.pos == |Written(style, ev[..k + 1]).out|
      && Iterative(env, t) == Resume(env, t, m)
    ensures Fed(ev[..k + 1]).Track? && Matched(Written(style, ev[..k + 1]), Fed(ev[..k + 1]))
  {
    hide Resume, Iterative, Written, Narrowed, Fed, Matched, At, Spelling, Lead, Tracks, MachineOk, Floats, Stops;
    var t := Written(style, ev).out;
    var e, w, fed := ev[k], Written(style, ev[..k]), Fed(ev[..k]);
    var before := Normals(ev[..k]);
    Continues(style, ev, k);
    NormalsStep(ev, k);
    var gap := LeadSplits(style, w, fed, e);
    SpellingAt(style, ev, k);
    var m1 := Approach(env, t, m0, e, gap);
    if IsNumeric(e) { NumberStops(style, ev, k); }
    m := TakeToken(env, t, m1, before, e);
  }

  /** The next event continues the trace, for the writer and for the reader. */
  lemma Continues(style: Style, ev: seq<Event>, k: nat)
    requires Fed(ev).Track? && k < |ev| && Fed(ev[..k]).Track? && Matched(Written(style, ev[..k]), Fed(ev[..k]))
    ensures Feed(Fed(ev[..k]), ev[k]).Track?
    ensures Fed(ev[..k + 1]).Track? && Matched(Written(style, ev[..k + 1]), Fed(ev[..k + 1]))
    ensures Fed(ev[..k + 1]) == Feed(Fed(ev[..k]), ev[k])
  {
    hide Fed, Matched, Written, Write, Feed;
    FedPrefix(ev, k + 1);
    assert ev[..k + 1] == ev[..k] + [ev[k]];
    FedSnoc(ev[..k], ev[k]);
    WriteTracks(style, Written(style, ev[..k]), ev[..k], ev[k]);
    WrittenSnoc(style, ev[..k], ev[k]);
  }

  lemma NormalsStep(ev: seq<Event>, k: nat)
    requires AllInRange(ev) && k < |ev|
    ensures Normals(ev[..k + 1]) == Normals(ev[..k]) + [Normal(ev[k])] == Normals(ev)[..k + 1]
    ensures Fed(Normals(ev[..k])) == Fed(ev[..k])
    ensures Fed(Normals(ev[..k]) + [ev[k]]) == Feed(Fed(ev[..k]), ev[k])
  {
    hide Narrowed, Feed;
    NormalsFed(ev[..k]);
    FedSnoc(Normals(ev[..k]), ev[k]);
  }

  /** Behind a number that something continues, a container is open. */
  lemma AfterNumber(ev: seq<Event>, e: Event, next: Event)
    requires Fed(ev).Track? && IsNumeric(e) && Fed(ev + [e]).Track? && Feed(Fed(ev + [e]), next).Track?
    ensures StateOf(Fed(ev + [e])) in {MemberValue, Element}
  {
    FedSnoc(ev, e);
    hide Fed;
  }

  /** What follows a number in the text cannot continue it. */
  lemma NumberStops(style: Style, ev: seq<Event>, k: nat)
    requires style.Valid() && Fed(ev).Track? && k < |ev| && IsNumeric(ev[k])
    requires Fed(ev[..k]).Track? && Matched(Written(style, ev[..k]), Fed(ev[..k]))
    ensures Stops(Peek(Written(style, ev).out, |Written(style, ev[..k + 1]).out|))
  {
    hide Written, Matched, At, Spelling, Lead, Fed, Feed;
    var t := Written(style, ev).out;
    Continues(style, ev, k);
    if k + 1 == |ev| {
      assert ev[..k + 1] == ev;
    } else {
      var w, fed := Written(style, ev[..k + 1]), Fed(ev[..k + 1]);
      Continues(style, ev, k + 1);
      assert ev[..k + 1] == ev[..k] + [ev[k]];
      AfterNumber(ev[..k], ev[k], ev[k + 1]);
      LeadStops(style, w, fed, ev[k + 1]);
      SpellingAt(style, ev, k + 1);
      AtPeek(t, |w.out|, Lead(style, w.levels, ev[k + 1]) + Spelling(ev[k + 1]), 0);
    }
  }

  /** What Writer or PrettyWriter prints for the trace of one value, the iterative parser reads back as
      that trace, up to the end of the text: byte strings exactly, integers by value in the narrowest
      class, doubles as printed where the reader takes their text, containers with the numbers of their
      children. The recursive parser does the same. */
  lemma RoundTrip(env: Env, style: Style, ev: seq<Event>)
    requires style.Valid() && WellFormed(ev) && AllInRange(ev) && AllReadable(env, ev) && Willing(env, Normals(ev))
    ensures var t := Written(style, ev).out;
      Iterative(env, t) == Recursive(env, t) == Ok(|t|, Normals(ev))
  {
    hide Written, Iterative, Recursive, Tracks, Fed, Narrowed;
    var t := Written(style, ev).out;
    var m := ReadsBack(env, style, ev, |ev|);
    assert ev[..|ev|] == ev;
    NormalsFed(ev);
    FinishFollows(env, t, m);
    AtEnd(env, t, m.ev);
    ParsersAgree(env, t);
  }

  lemma AtEnd(env: Env, t: Text, ev: seq<Event>)
    ensures Ending(env, t, |t|, ev) == Ok(|t|, ev)
  {
  }
}
