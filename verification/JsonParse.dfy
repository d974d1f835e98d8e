/**
  The two parsers of RapidJSON's reader for one grammar: recursive descent, and a table-driven
  pushdown machine whose stack holds one (saved state, count) pair per open container. Both report to a
  handler that may stop them at any event.
 */
module JsonParse {
  import opened Wrap32
  import opened JsonText

  /** The events a handler receives; counts are 32-bit. */
  datatype Event =
    | Null
    | Bool(b: bool)
    | Number(n: Num)
    | Double(text: seq<byte>)
    | String(s: seq<byte>)
    | Key(k: seq<byte>)
    | StartObject
    | EndObject(members: u32)
    | StartArray
    | EndArray(elements: u32)

  /**
    What a parse depends on besides the text: the flags kParseCommentsFlag, kParseTrailingCommasFlag,
    kParseStopWhenDoneFlag and kParseNanAndInfFlag; whether an integer of more than 64 bits is too large for a double;
    and the handler's answer to the events so far.
   */
  datatype Env = Env(comments: bool, trailing: bool, stopWhenDone: bool, nanAndInf: bool,
                     huge: seq<byte> -> bool, handler: seq<Event> -> bool)

  /** A step of a parse: the position reached, or an error; either way the events reported. */
  datatype Result = Ok(pos: nat, ok: seq<Event>) | Err(code: Code, told: seq<Event>)

  function Events(r: Result): seq<Event> { if r.Ok? then r.ok else r.told }

  /** Telling the handler. */
  function Tell(env: Env, pos: nat, ev: seq<Event>, e: Event): (r: Result)
    ensures r == Ok(pos, ev + [e]) || r == Err(Termination, ev + [e])
  {
    if env.handler(ev + [e]) then Ok(pos, ev + [e]) else Err(Termination, ev + [e])
  }

  // ----- scalars, common to both parsers

  const ULL := [0x75, 0x6c, 0x6c]
  const RUE := [0x72, 0x75, 0x65]
  const ALSE := [0x61, 0x6c, 0x73, 0x65]

  function Literal(env: Env, t: Text, i: nat, ev: seq<Event>, rest: seq<byte>, e: Event): (r: Result)
    requires 0 !in rest && rest != []
    ensures r.Ok? ==> i < r.pos <= |t|
  {
    if Matches(t, i + 1, rest) then Tell(env, i + 1 + |rest|, ev, e) else Err(ValueInvalid, ev)
  }

  /** ParseString at an opening quote. */
  function StringAt(env: Env, t: Text, i: nat, ev: seq<Event>, isKey: bool): (r: Result)
    ensures r.Ok? ==> i < r.pos <= |t|
  {
    match Decode(t, i + 1)
    case StrErr(code) => Err(code, ev)
    case Str(bytes, next) => Tell(env, next, ev, if isKey then Key(bytes) else String(bytes))
  }

  predicate GoesOn(c: byte) { c == DOT || c == SMALL_E || c == CAPITAL_E }

  /** Fraction and exponent of a number that starts at i, behind its integer part. */
  function FloatAt(env: Env, t: Text, i: nat, next: nat, value: nat, significant: nat, ev: seq<Event>): (r: Result)
    requires i < next <= |t|
    ensures r.Ok? ==> i < r.pos <= |t|
  {
    match FloatEnd(t, next, value, significant)
    case BadFloat(code) => Err(code, ev)
    case FloatTo(end) => Tell(env, end, ev, Double(t[i..end]))
  }

  /** ParseNumber: integers by value; with a fraction, an exponent or too many digits, and words, as text. */
  function NumberAt(env: Env, t: Text, i: nat, ev: seq<Event>): (r: Result)
    ensures r.Ok? ==> i < r.pos <= |t|
  {
    var first := if Peek(t, i) == MINUS then i + 1 else i;
    match IntegerAt(t, i)
    case Some(m) =>
      if !Fits64(m) && env.huge(t[i..m.next]) then Err(NumberTooBig, ev)
      else if Fits64(m) && !GoesOn(Peek(t, m.next)) then Tell(env, m.next, ev, Number(Narrowest(m)))
      else FloatAt(env, t, i, m.next, m.value, m.next - first - 1, ev)
    case None =>
      match if env.nanAndInf then WordEnd(t, first) else None
      case None => Err(ValueInvalid, ev)
      case Some(next) => FloatAt(env, t, i, next, 0, 0, ev)
  }

  const SMALL_N := 0x6e
  const SMALL_T := 0x74
  const SMALL_F := 0x66

  /** ParseValue on anything but a container. */
  function ScalarAt(env: Env, t: Text, i: nat, ev: seq<Event>): (r: Result)
    ensures r.Ok? ==> i < r.pos <= |t|
  {
    var c := Peek(t, i);
    if c == SMALL_N then Literal(env, t, i, ev, ULL, Null)
    else if c == SMALL_T then Literal(env, t, i, ev, RUE, Bool(true))
    else if c == SMALL_F then Literal(env, t, i, ev, ALSE, Bool(false))
    else if c == QUOTE then StringAt(env, t, i, ev, false)
    else NumberAt(env, t, i, ev)
  }

  /** SkipWhitespaceAndComments as a step. */
  function Skipped(env: Env, t: Text, i: nat, ev: seq<Event>): (r: Result)
    ensures r.Ok? ==> i <= r.pos && (i <= |t| ==> r.pos <= |t|) && r.ok == ev
    ensures r.Err? ==> r.told == ev
  {
    match Skip(t, env.comments, i)
    case None => Err(UnspecificSyntaxError, ev)
    case Some(j) => Ok(j, ev)
  }

  // ----- recursive descent

  /** ParseValue */
  function Value(env: Env, t: Text, i: nat, ev: seq<Event>): (r: Result)
    ensures r.Ok? ==> i < r.pos <= |t|
    decreases |t| - i, 3
  {
    if Peek(t, i) == LBRACE then Object(env, t, i, ev)
    else if Peek(t, i) == LBRACKET then Array(env, t, i, ev)
    else ScalarAt(env, t, i, ev)
  }

  /** ParseObject */
  function Object(env: Env, t: Text, i: nat, ev: seq<Event>): (r: Result)
    requires Peek(t, i) == LBRACE
    ensures r.Ok? ==> i < r.pos <= |t|
    decreases |t| - i, 2
  {
    match Tell(env, i + 1, ev, StartObject)
    case Err(code, told) => Err(code, told)
    case Ok(_, ev1) =>
      match Skipped(env, t, i + 1, ev1)
      case Err(code, told) => Err(code, told)
      case Ok(j, _) =>
        if Peek(t, j) == RBRACE then Tell(env, j + 1, ev1, EndObject(0)) else Members(env, t, j, ev1, 0)
  }

  /** A name, its colon and the white space around them. */
  function NameAt(env: Env, t: Text, i: nat, ev: seq<Event>): (r: Result)
    ensures r.Ok? ==> i < r.pos <= |t|
  {
    if Peek(t, i) != QUOTE then Err(ObjectMissName, ev)
    else
      match StringAt(env, t, i, ev, true)
      case Err(code, told) => Err(code, told)
      case Ok(a, ev1) =>
        match Skipped(env, t, a, ev1)
        case Err(code, told) => Err(code, told)
        case Ok(b, _) => if Peek(t, b) != COLON then Err(ObjectMissColon, ev1) else Skipped(env, t, b + 1, ev1)
  }

  /** The member loop of ParseObject, after `count` members. */
  function Members(env: Env, t: Text, i: nat, ev: seq<Event>, count: u32): (r: Result)
    ensures r.Ok? ==> i < r.pos <= |t|
    decreases |t| - i, 1
  {
    match NameAt(env, t, i, ev)
    case Err(code, told) => Err(code, told)
    case Ok(c, ev1) =>
      match Value(env, t, c, ev1)
      case Err(code, told) => Err(code, told)
      case Ok(d, ev2) => AfterMember(env, t, d, ev2, Wrap(count + 1))
  }

  /** The end of a turn of the member loop. */
  function AfterMember(env: Env, t: Text, i: nat, ev: seq<Event>, count: u32): (r: Result)
    ensures r.Ok? ==> i < r.pos <= |t|
    decreases |t| - i, 2
  {
    match Skipped(env, t, i, ev)
    case Err(code, told) => Err(code, told)
    case Ok(j, _) =>
      if Peek(t, j) == COMMA then
        match Skipped(env, t, j + 1, ev)
        case Err(code, told) => Err(code, told)
        case Ok(k, _) =>
          if env.trailing && Peek(t, k) == RBRACE then Tell(env, k + 1, ev, EndObject(count))
          else Members(env, t, k, ev, count)
      else if Peek(t, j) == RBRACE then Tell(env, j + 1, ev, EndObject(count))
      else Err(ObjectMissCommaOrCurlyBracket, ev)
  }

  /** ParseArray */
  function Array(env: Env, t: Text, i: nat, ev: seq<Event>): (r: Result)
    requires Peek(t, i) == LBRACKET
    ensures r.Ok? ==> i < r.pos <= |t|
    decreases |t| - i, 2
  {
    match Tell(env, i + 1, ev, StartArray)
    case Err(code, told) => Err(code, told)
    case Ok(_, ev1) =>
      match Skipped(env, t, i + 1, ev1)
      case Err(code, told) => Err(code, told)
      case Ok(j, _) =>
        if Peek(t, j) == RBRACKET then Tell(env, j + 1, ev1, EndArray(0)) else Elements(env, t, j, ev1, 0)
  }

  /** The element loop of ParseArray, after `count` elements. */
  function Elements(env: Env, t: Text, i: nat, ev: seq<Event>, count: u32): (r: Result)
    ensures r.Ok? ==> i < r.pos <= |t|
    decreases |t| - i, 4
  {
    match Value(env, t, i, ev)
    case Err(code, told) => Err(code, told)
    case Ok(d, ev2) => AfterElement(env, t, d, ev2, Wrap(count + 1))
  }

  /** The end of a turn of the element loop. */
  function AfterElement(env: Env, t: Text, i: nat, ev: seq<Event>, count: u32): (r: Result)
    ensures r.Ok? ==> i < r.pos <= |t|
    decreases |t| - i, 5
  {
    match Skipped(env, t, i, ev)
    case Err(code, told) => Err(code, told)
    case Ok(j, _) =>
      if Peek(t, j) == COMMA then
        match Skipped(env, t, j + 1, ev)
        case Err(code, told) => Err(code, told)
        case Ok(k, _) =>
          if env.trailing && Peek(t, k) == RBRACKET then Tell(env, k + 1, ev, EndArray(count))
          else Elements(env, t, k, ev, count)
      else if Peek(t, j) == RBRACKET then Tell(env, j + 1, ev, EndArray(count))
      else Err(ArrayMissCommaOrSquareBracket, ev)
  }

  /** The end of Parse, behind the root value. */
  function Ending(env: Env, t: Text, i: nat, ev: seq<Event>): (r: Result)
  {
    if env.stopWhenDone then Ok(i, ev)
    else
      match Skipped(env, t, i, ev)
      case Err(code, told) => Err(code, told)
      case Ok(k, _) => if Peek(t, k) != 0 then Err(DocumentRootNotSingular, ev) else Ok(k, ev)
  }

  /** Parse without kParseIterativeFlag. */
  function Recursive(env: Env, t: Text): (r: Result)
  {
    match Skipped(env, t, 0, [])
    case Err(code, told) => Err(code, told)
    case Ok(i, _) =>
      if Peek(t, i) == 0 then Err(DocumentEmpty, [])
      else
        match Value(env, t, i, [])
        case Err(code, told) => Err(code, told)
        case Ok(j, ev) => Ending(env, t, j, ev)
  }

  // ----- the pushdown machine

  datatype State =
    | Start | Finish | Error
    | ObjectInitial | MemberKey | KeyValueDelimiter | MemberValue | MemberDelimiter | ObjectFinish
    | ArrayInitial | Element | ElementDelimiter | ArrayFinish
    | ValueState

  datatype Token =
    | LeftBracket | RightBracket | LeftCurly | RightCurly | CommaToken | ColonToken
    | StringToken | FalseToken | TrueToken | NullToken | NumberToken

  function Tokenize(c: byte): Token
  {
    if c == LBRACKET then LeftBracket else if c == RBRACKET then RightBracket
    else if c == LBRACE then LeftCurly else if c == RBRACE then RightCurly
    else if c == COMMA then CommaToken else if c == COLON then ColonToken
    else if c == QUOTE then StringToken else if c == SMALL_F then FalseToken
    else if c == SMALL_T then TrueToken else if c == SMALL_N then NullToken
    else NumberToken
  }

  predicate IsScalar(token: Token)
  {
    token == StringToken || token == FalseToken || token == TrueToken || token == NullToken || token == NumberToken
  }

  /** A row of the table for a state in which a value may begin. */
  function ValueRow(token: Token, scalar: State): State
  {
    if token == LeftBracket then ArrayInitial
    else if token == LeftCurly then ObjectInitial
    else if IsScalar(token) then scalar
    else Error
  }

  function Predict(state: State, token: Token): State
  {
    match state
    case Start => ValueRow(token, ValueState)
    case ObjectInitial =>
      if token == RightCurly then ObjectFinish else if token == StringToken then MemberKey else Error
    case MemberKey => if token == ColonToken then KeyValueDelimiter else Error
    case KeyValueDelimiter => ValueRow(token, MemberValue)
    case MemberValue =>
      if token == RightCurly then ObjectFinish else if token == CommaToken then MemberDelimiter else Error
    case MemberDelimiter =>
      if token == RightCurly then ObjectFinish else if token == StringToken then MemberKey else Error
    case ArrayInitial => if token == RightBracket then ArrayFinish else ValueRow(token, Element)
    case Element =>
      if token == RightBracket then ArrayFinish else if token == CommaToken then ElementDelimiter else Error
    case ElementDelimiter => if token == RightBracket then ArrayFinish else ValueRow(token, Element)
    case _ => Error
  }

  /** One (saved state, count) pair per open container. */
  datatype Frame = Frame(saved: State, count: u32)

  /** The machine between two tokens, or stopped by an error. */
  datatype Machine = Machine(state: State, stack: seq<Frame>, pos: nat, ev: seq<Event>)
    | Stopped(code: Code, told: seq<Event>)

  function Entered(r: Result, state: State, stack: seq<Frame>): Machine
  {
    match r
    case Ok(pos, ev) => Machine(state, stack, pos, ev)
    case Err(code, told) => Stopped(code, told)
  }

  /** HandleError: the error of a state that no token fits. */
  function ErrorOf(src: State): Code
  {
    match src
    case Start => DocumentEmpty
    case Finish => DocumentRootNotSingular
    case ObjectInitial => ObjectMissName
    case MemberDelimiter => ObjectMissName
    case MemberKey => ObjectMissColon
    case MemberValue => ObjectMissCommaOrCurlyBracket
    case KeyValueDelimiter => ValueInvalid
    case ArrayInitial => ValueInvalid
    case ElementDelimiter => ValueInvalid
    case _ => ArrayMissCommaOrSquareBracket
  }

  /** The state to return to when a container opened in `src` is closed. */
  function SavedState(src: State): State
  {
    if src == ArrayInitial || src == ElementDelimiter then Element
    else if src == KeyValueDelimiter then MemberValue
    else src
  }

  /** Leaving a container: the count includes the last value, and the saved state returns. */
  function Leave(env: Env, m: Machine, isObject: bool): Machine
    requires m.Machine? && m.stack != []
  {
    var top := m.stack[|m.stack| - 1];
    var last := if isObject then MemberValue else Element;
    var count := if m.state == last then Wrap(top.count + 1) else top.count;
    var next := if top.saved == Start then Finish else top.saved;
    Entered(Tell(env, m.pos + 1, m.ev, if isObject then EndObject(count) else EndArray(count)),
            next, m.stack[..|m.stack| - 1])
  }

  /** Transit: one token in state m.state, with predicted state dst. */
  function Transit(env: Env, t: Text, m: Machine, dst: State): Machine
    requires m.Machine? && (dst in {MemberDelimiter, ElementDelimiter, ObjectFinish, ArrayFinish} ==> m.stack != [])
  {
    var n := |m.stack|;
    match dst
    case ObjectInitial =>
      Entered(Tell(env, m.pos + 1, m.ev, StartObject), dst, m.stack + [Frame(SavedState(m.state), 0)])
    case ArrayInitial => Entered(Tell(env, m.pos + 1, m.ev, StartArray), dst, m.stack + [Frame(SavedState(m.state), 0)])
    case MemberKey => Entered(StringAt(env, t, m.pos, m.ev, true), dst, m.stack)
    case KeyValueDelimiter => m.(state := dst, pos := m.pos + 1)
    case MemberValue => Entered(ScalarAt(env, t, m.pos, m.ev), dst, m.stack)
    case Element => Entered(ScalarAt(env, t, m.pos, m.ev), dst, m.stack)
    case ValueState => Entered(ScalarAt(env, t, m.pos, m.ev), Finish, m.stack)
    case MemberDelimiter =>
      m.(state := dst, pos := m.pos + 1,
         stack := m.stack[n - 1 := m.stack[n - 1].(count := Wrap(m.stack[n - 1].count + 1))])
    case ElementDelimiter =>
      m.(state := dst, pos := m.pos + 1,
         stack := m.stack[n - 1 := m.stack[n - 1].(count := Wrap(m.stack[n - 1].count + 1))])
    case ObjectFinish =>
      if !env.trailing && m.state == MemberDelimiter then Stopped(ObjectMissName, m.ev) else Leave(env, m, true)
    case ArrayFinish =>
      if !env.trailing && m.state == ElementDelimiter then Stopped(ValueInvalid, m.ev) else Leave(env, m, false)
    case _ => Stopped(ErrorOf(m.state), m.ev)
  }

  predicate InContainer(state: State) { state !in {Start, Finish, Error, ValueState} }

  /** A container is open exactly in the states inside one; the outermost one returns to Start, inner
      ones to the state behind an element or a member value. */
  predicate MachineOk(m: Machine, t: Text)
  {
    m.Machine? ==>
      && (InContainer(m.state) <==> m.stack != [])
      && m.pos <= |t|
      && SavedOk(m.stack)
      && m.state !in {Error, ValueState, ObjectFinish, ArrayFinish}
  }

  predicate SavedOk(stack: seq<Frame>)
  {
    forall i :: 0 <= i < |stack| ==>
      if i == 0 then stack[i].saved == Start else stack[i].saved in {Element, MemberValue}
  }

  /** A turn that neither opens nor closes a container. */
  predicate StepOk(m: Machine, m': Machine, t: Text)
    requires m.Machine?
  {
    MachineOk(m', t) && (m'.Machine? ==> m.pos < m'.pos)
  }

  lemma LeaveOk(env: Env, t: Text, m: Machine, isObject: bool)
    requires m.Machine? && MachineOk(m, t) && m.stack != [] && m.pos < |t|
    ensures StepOk(m, Leave(env, m, isObject), t)
  {
    hide Tell;
  }

  lemma EnterOk(env: Env, t: Text, m: Machine, dst: State)
    requires m.Machine? && MachineOk(m, t) && m.pos < |t|
    requires dst in {ObjectInitial, ArrayInitial}
    requires m.state in {Start, KeyValueDelimiter, ArrayInitial, ElementDelimiter}
    ensures StepOk(m, Transit(env, t, m, dst), t)
  {
    hide Tell, ScalarAt, StringAt, Leave;
  }

  lemma TransitOk(env: Env, t: Text, m: Machine)
    requires m.Machine? && MachineOk(m, t) && Peek(t, m.pos) != 0
    ensures var dst := Predict(m.state, Tokenize(Peek(t, m.pos)));
      && (dst in {MemberDelimiter, ElementDelimiter, ObjectFinish, ArrayFinish} ==> m.stack != [])
      && StepOk(m, Transit(env, t, m, dst), t)
  {
    hide Tell, ScalarAt, StringAt, Leave, Tokenize;
    var dst := Predict(m.state, Tokenize(Peek(t, m.pos)));
    if dst in {ObjectInitial, ArrayInitial} {
      EnterOk(env, t, m, dst);
    } else if dst in {ObjectFinish, ArrayFinish} {
      LeaveOk(env, t, m, dst == ObjectFinish);
    }
  }

  function Turn(env: Env, t: Text, m: Machine): (m': Machine)
    requires m.Machine? && MachineOk(m, t) && Peek(t, m.pos) != 0
    ensures MachineOk(m', t)
    ensures m'.Machine? ==> m.pos < m'.pos
  {
    TransitOk(env, t, m);
    Transit(env, t, m, Predict(m.state, Tokenize(Peek(t, m.pos))))
  }

  /** The loop of IterativeParse from a machine whose next token starts at m.pos. */
  function Loop(env: Env, t: Text, m: Machine): (r: Result)
    requires MachineOk(m, t)
    decreases if m.Machine? then 1 + |t| - m.pos else 0, 0
  {
    match m
    case Stopped(code, told) => Err(code, told)
    case Machine(state, stack, pos, ev) =>
      if Peek(t, pos) == 0 then (if state == Finish then Ok(pos, ev) else Err(ErrorOf(state), ev))
      else Resume(env, t, Turn(env, t, m))
  }

  /** The end of a turn of the loop. */
  function Resume(env: Env, t: Text, m: Machine): (r: Result)
    requires MachineOk(m, t)
    decreases if m.Machine? then 1 + |t| - m.pos else 0, 1
  {
    match m
    case Stopped(code, told) => Err(code, told)
    case Machine(state, stack, pos, ev) =>
      if env.stopWhenDone && state == Finish then Ok(pos, ev)
      else
        match Skipped(env, t, pos, ev)
        case Err(code, told) => Err(code, told)
        case Ok(j, _) => Loop(env, t, m.(pos := j))
  }

  /** Parse with kParseIterativeFlag. */
  function Iterative(env: Env, t: Text): (r: Result)
  {
    match Skipped(env, t, 0, [])
    case Err(code, told) => Err(code, told)
    case Ok(i, _) => Loop(env, t, Machine(Start, [], i, []))
  }
}
