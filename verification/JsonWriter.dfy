/**
  RapidJSON's Writer and PrettyWriter: a printer driven by a stack of levels.
 */
module JsonWriter {
  import opened Wrap32
  import opened JsonText
  import opened JsonParse
  import opened JsonTrace

  /** Writer, or PrettyWriter with its indentation and the option kFormatSingleLineArray. */
  datatype Style = Plain | Pretty(indentChar: byte, indentCount: nat, singleLine: bool)
  {
    /** What SetIndent demands. */
    predicate Valid() { Pretty? ==> IsSpace(indentChar) }
  }

  /** Level: how many values (names count as values) a container has so far. */
  datatype Nest = Nest(valueCount: nat, inArray: bool)

  // ----- tokens

  /** The escape table of WriteString: 0 for bytes that are written as they are. */
  function EscapeLetter(c: byte): (e: byte)
  {
    if c == 0x08 then 0x62
    else if c == 0x09 then 0x74
    else if c == 0x0a then 0x6e
    else if c == 0x0c then 0x66
    else if c == 0x0d then 0x72
    else if c < 0x20 then SMALL_U
    else if c == QUOTE || c == BACKSLASH then c
    else 0
  }

  function EscapeOf(c: byte): (w: seq<byte>)
    ensures |w| > 0
  {
    if EscapeLetter(c) == 0 then [c]
    else if EscapeLetter(c) == SMALL_U then [BACKSLASH, SMALL_U, ZERO, ZERO, HEX_DIGITS[c / 16], HEX_DIGITS[c % 16]]
    else [BACKSLASH, EscapeLetter(c)]
  }

  function Escapes(s: seq<byte>): seq<byte>
  {
    if s == [] then [] else EscapeOf(s[0]) + Escapes(s[1..])
  }

  function Quoted(s: seq<byte>): seq<byte> { [QUOTE] + Escapes(s) + [QUOTE] }

  /** The decimal digits of a number, without leading zeros. */
  function Digits(n: nat): (w: seq<byte>)
    ensures |w| > 0
    ensures forall i :: 0 <= i < |w| ==> IsDigit(w[i])
    ensures w[0] == ZERO <==> n == 0
  {
    if n < 10 then [ZERO + n] else Digits(n / 10) + [ZERO + n % 10]
  }

  function IntegerText(v: int): seq<byte> { if v < 0 then [MINUS] + Digits(-v) else Digits(v) }

  function ValueOf(n: Num): int
  {
    match n
    case Int(i) => i
    case Uint(u) => u
    case Int64(i) => i
    case Uint64(u) => u
  }

  const NULL_WORD: seq<byte> := [SMALL_N] + ULL
  const TRUE_WORD: seq<byte> := [SMALL_T] + RUE
  const FALSE_WORD: seq<byte> := [SMALL_F] + ALSE

  function Spelling(e: Event): seq<byte>
  {
    match e
    case Null => NULL_WORD
    case Bool(b) => if b then TRUE_WORD else FALSE_WORD
    case Number(n) => IntegerText(ValueOf(n))
    case Double(text) => text
    case String(s) => Quoted(s)
    case Key(s) => Quoted(s)
    case StartObject => [LBRACE]
    case EndObject(_) => [RBRACE]
    case StartArray => [LBRACKET]
    case EndArray(_) => [RBRACKET]
  }

  // ----- what goes before a token

  function Repeat(c: byte, n: nat): (w: seq<byte>)
    ensures |w| == n && forall i :: 0 <= i < n ==> w[i] == c
  {
    seq(n, _ => c)
  }

  /** WriteIndent */
  function Indent(style: Style, depth: nat): seq<byte>
    requires style.Pretty?
  {
    Repeat(style.indentChar, depth * style.indentCount)
  }

  /** Prefix and PrettyPrefix */
  function Before(style: Style, levels: seq<Nest>): seq<byte>
  {
    if levels == [] then []
    else
      var level := levels[|levels| - 1];
      var even := level.valueCount % 2 == 0;
      if style.Plain? then
        if level.valueCount > 0 then [if level.inArray || even then COMMA else COLON] else []
      else if level.inArray then
        (if level.valueCount > 0 then [COMMA] + (if style.singleLine then [0x20] else []) else [])
        + (if !style.singleLine then [NEWLINE] + Indent(style, |levels|) else [])
      else
        (if level.valueCount > 0 then (if even then [COMMA, NEWLINE] else [COLON, 0x20]) else [NEWLINE])
        + (if even then Indent(style, |levels|) else [])
  }

  /** What EndObject and EndArray write before the closing bracket. */
  function BeforeEnd(style: Style, levels: seq<Nest>): seq<byte>
    requires levels != []
  {
    var level := levels[|levels| - 1];
    if style.Plain? || level.valueCount == 0 || (level.inArray && style.singleLine) then []
    else [NEWLINE] + Indent(style, |levels| - 1)
  }

  // ----- the writer as a value

  datatype Printed = Printed(out: seq<byte>, levels: seq<Nest>, hasRoot: bool)

  predicate IsEnd(e: Event) { e.EndObject? || e.EndArray? }
  predicate IsStart(e: Event) { e.StartObject? || e.StartArray? }

  /** What the writer asserts of an event. */
  predicate Allowed(w: Printed, e: Event)
  {
    if IsEnd(e) then w.levels != [] && w.levels[|w.levels| - 1].inArray == e.EndArray?
    else if w.levels == [] then !w.hasRoot
    else
      var level := w.levels[|w.levels| - 1];
      !level.inArray && level.valueCount % 2 == 0 ==> e.String? || e.Key?
  }

  /** One value more in the innermost container. */
  function Counted(levels: seq<Nest>): (l: seq<Nest>)
    ensures |l| == |levels|
  {
    if levels == [] then []
    else levels[|levels| - 1 := levels[|levels| - 1].(valueCount := levels[|levels| - 1].valueCount + 1)]
  }

  function Lead(style: Style, levels: seq<Nest>, e: Event): seq<byte>
  {
    if IsEnd(e) then (if levels == [] then [] else BeforeEnd(style, levels)) else Before(style, levels)
  }

  function LevelsAfter(levels: seq<Nest>, e: Event): seq<Nest>
  {
    if IsEnd(e) then (if levels == [] then [] else levels[..|levels| - 1])
    else if IsStart(e) then Counted(levels) + [Nest(0, e.StartArray?)]
    else Counted(levels)
  }

  function Write(style: Style, w: Printed, e: Event): Printed
  {
    Printed(w.out + (Lead(style, w.levels, e) + Spelling(e)), LevelsAfter(w.levels, e), w.hasRoot || !IsEnd(e))
  }

  function Written(style: Style, ev: seq<Event>): Printed
  {
    if ev == [] then Printed([], [], false) else Write(style, Written(style, ev[..|ev| - 1]), ev[|ev| - 1])
  }

  // ----- the writer as it runs

  class Writer {
    const style: Style
    var os: seq<byte>
    var levelStack: seq<Nest>
    var hasRoot: bool

    ghost function State(): Printed
      reads this
    {
      Printed(os, levelStack, hasRoot)
    }

    constructor (style: Style)
      requires style.Valid()
      ensures this.style == style && State() == Written(style, [])
    {
      this.style, os, levelStack, hasRoot := style, [], [], false;
    }

    method Put(c: byte)
      modifies `os
      ensures os == old(os) + [c]
    {
      os := os + [c];
    }

    method WriteIndent()
      requires style.Pretty?
      modifies `os
      ensures os == old(os) + Indent(style, |levelStack|)
    {
      os := os + Repeat(style.indentChar, |levelStack| * style.indentCount);
    }

    /** Prefix, by the kind of writer; `name` says that a name is acceptable here. */
    method Prefix(isString: bool)
      requires levelStack == [] ==> !hasRoot
      requires levelStack != [] ==>
        var level := levelStack[|levelStack| - 1]; !level.inArray && level.valueCount % 2 == 0 ==> isString
      modifies this
      ensures os == old(os) + Before(style, old(levelStack))
      ensures levelStack == Counted(old(levelStack)) && hasRoot
    {
      if levelStack == [] {
        hasRoot := true;
        return;
      }
      var level := levelStack[|levelStack| - 1];
      if style.Plain? {
        if level.valueCount > 0 {
          if level.inArray { Put(COMMA); } else { Put(if level.valueCount % 2 == 0 then COMMA else COLON); }
        }
      } else {
        PrettyPrefix(level);
      }
      levelStack := levelStack[|levelStack| - 1 := level.(valueCount := level.valueCount + 1)];
      hasRoot := true;
    }

    method PrettyPrefix(level: Nest)
      requires style.Pretty? && levelStack != [] && level == levelStack[|levelStack| - 1]
      modifies `os
      ensures os == old(os) + Before(style, levelStack)
    {
      hide Indent;
      ghost var out := os;
      if level.inArray {
        if level.valueCount > 0 {
          Put(COMMA);
          if style.singleLine { Put(0x20); }
        }
        if !style.singleLine {
          Put(NEWLINE);
          WriteIndent();
        }
      } else {
        if level.valueCount > 0 {
          if level.valueCount % 2 == 0 {
            Put(COMMA);
            Put(NEWLINE);
          } else {
            Put(COLON);
            Put(0x20);
          }
        } else {
          Put(NEWLINE);
        }
        if level.valueCount % 2 == 0 { WriteIndent(); }
      }
      assert os == out + Before(style, levelStack);
    }

    /** WriteString: the loop takes the source bytes one by one. */
    method WriteString(s: seq<byte>)
      modifies `os
      ensures os == old(os) + Quoted(s)
    {
      hide EscapeOf, Escapes;
      Put(QUOTE);
      ghost var begun, done := os, [];
      var i := 0;
      while i < |s|
        invariant 0 <= i <= |s| && os == begun + done && done + Escapes(s[i..]) == Escapes(s)
      {
        EscapesStep(done, s[i..]);
        assert s[i..][1..] == s[i + 1..];
        os := os + EscapeOf(s[i]);
        done := done + EscapeOf(s[i]);
        i := i + 1;
      }
      NoEscapes();
      assert done == Escapes(s);
      Put(QUOTE);
    }

    method WriteToken(e: Event)
      modifies `os
      ensures os == old(os) + Spelling(e)
    {
      hide Quoted, IntegerText;
      match e
      case String(s) => WriteString(s);
      case Key(s) => WriteString(s);
      case _ => os := os + Spelling(e);
    }

    /** The handler functions of values. */
    method WriteValue(e: Event)
      requires !IsEnd(e) && Allowed(State(), e)
      modifies this
      ensures State() == Write(style, old(State()), e)
    {
      hide Before, Spelling;
      Prefix(e.String? || e.Key?);
      if IsStart(e) { levelStack := levelStack + [Nest(0, e.StartArray?)]; }
      WriteToken(e);
      assert os == old(os) + (Before(style, old(levelStack)) + Spelling(e));
    }

    /** EndObject and EndArray */
    method WriteEnd(e: Event)
      requires IsEnd(e) && Allowed(State(), e)
      modifies this
      ensures State() == Write(style, old(State()), e)
    {
      hide Spelling, Indent;
      var level := levelStack[|levelStack| - 1];
      levelStack := levelStack[..|levelStack| - 1];
      if style.Pretty? && level.valueCount != 0 && !(level.inArray && style.singleLine) {
        Put(NEWLINE);
        WriteIndent();
      }
      assert os == old(os) + BeforeEnd(style, old(levelStack));
      WriteToken(e);
      assert os == old(os) + (BeforeEnd(style, old(levelStack)) + Spelling(e));
    }

    /** The writer as a handler of a whole trace: its assertions hold throughout. */
    method WriteAll(ev: seq<Event>)
      requires State() == Written(style, []) && Fed(ev).Track?
      modifies this
      ensures State() == Written(style, ev)
    {
      hide Write, Fed, Matched, Allowed;
      Unstarted();
      var i := 0;
      while i < |ev|
        invariant 0 <= i <= |ev| && State() == Written(style, ev[..i]) && Fed(ev[..i]).Track?
        invariant Matched(State(), Fed(ev[..i]))
      {
        FedPrefix(ev, i + 1);
        assert ev[..i + 1] == ev[..i] + [ev[i]];
        WriteTracks(style, State(), ev[..i], ev[i]);
        WrittenSnoc(style, ev[..i], ev[i]);
        if IsEnd(ev[i]) { WriteEnd(ev[i]); } else { WriteValue(ev[i]); }
        i := i + 1;
      }
      assert ev[..|ev|] == ev;
    }
  }

  lemma NoEscapes()
    ensures Escapes([]) == []
  {
  }

  lemma EscapesStep(done: seq<byte>, s: seq<byte>)
    requires s != []
    ensures done + Escapes(s) == done + EscapeOf(s[0]) + Escapes(s[1..])
  {
    hide EscapeOf;
  }

  lemma WrittenSnoc(style: Style, ev: seq<Event>, e: Event)
    ensures Written(style, ev + [e]) == Write(style, Written(style, ev), e)
  {
    assert (ev + [e])[..|ev|] == ev;
  }

  /** What begins a trace is the beginning of one. */
  lemma {:induction false} FedPrefix(ev: seq<Event>, k: nat)
    requires k <= |ev| && Fed(ev).Track?
    ensures Fed(ev[..k]).Track?
    decreases |ev|
  {
    if k < |ev| {
      var init := ev[..|ev| - 1];
      FedPrefix(init, k);
      assert init[..k] == ev[..k];
    } else {
      assert ev[..k] == ev;
    }
  }

  // ----- the levels stand for the open containers

  predicate Counts(n: Nest, level: Level, around: bool)
  {
    && n.inArray == !level.isObject
    && n.valueCount == (if level.isObject then 2 * level.children else level.children)
                       + (if around then (if level.isObject then 2 else 1) else if level.key then 1 else 0)
    && (level.key ==> level.isObject)
  }

  predicate Matched(w: Printed, k: Track)
    requires k.Track?
  {
    && |w.levels| == |k.open|
    && (w.hasRoot <==> k.done || k.open != [])
    && (k.done ==> k.open == [])
    && (forall i :: 0 <= i < |k.open| - 1 ==>
          Counts(w.levels[i], k.open[i], true) && k.open[i].key == k.open[i].isObject)
    && (k.open != [] ==> Counts(w.levels[|k.open| - 1], Top(k.open), false))
  }

  lemma Unstarted()
    ensures Fed([]).Track? && forall style :: Matched(Written(style, []), Fed([]))
  {
  }

  /** On any event that continues a trace the writer's assertions hold, and its levels go on matching. */
  lemma WriteTracks(style: Style, w: Printed, ev: seq<Event>, e: Event)
    requires Fed(ev).Track? && Matched(w, Fed(ev)) && Fed(ev + [e]).Track?
    ensures Allowed(w, e) && Matched(Write(style, w, e), Fed(ev + [e]))
  {
    hide Spelling, Lead;
    FedSnoc(ev, e);
    hide Fed;
    var k, k' := Fed(ev), Fed(ev + [e]);
    if IsStart(e) {
      var levels := Write(style, w, e).levels;
      assert forall i :: 0 <= i < |k.open| - 1 ==> levels[i] == w.levels[i] && k'.open[i] == k.open[i];
    }
  }
}
