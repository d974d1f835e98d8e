/**
  RapidJSON's document: the handler that builds a tree of values on a stack, and Accept, which replays a
  tree to a handler.
 */
module JsonDocument {
  import opened Wrap32
  import opened JsonText
  import opened JsonParse
  import opened JsonWriter
  import opened JsonRoundTrip

  /** kIntFlag, kUintFlag, kInt64Flag, kUint64Flag */
  datatype Flags = Flags(isInt: bool, isUint: bool, isInt64: bool, isUint64: bool)

  /** GenericValue: a number is a 64-bit word and its flags. */
  datatype GenericValue =
    | NullValue
    | BoolValue(b: bool)
    | NumberValue(word: nat, flags: Flags)
    | DoubleValue(text: seq<byte>)
    | StringValue(s: seq<byte>)
    | ObjectValue(members: seq<Member>)
    | ArrayValue(elements: seq<GenericValue>)

  datatype Member = Member(name: GenericValue, value: GenericValue)

  // ----- integers

  /** The 64-bit word that holds an integer. */
  function Word(v: int): (w: nat)
    ensures w < UINT64_LIM
  {
    v % UINT64_LIM
  }

  function Signed64(w: nat): int { if w < INT64_MIN_ABS then w else w - UINT64_LIM }

  const ALL := Flags(true, true, true, true)

  /** The four integer constructors; a mask test on the upper bits is a bound on the word. */
  function OfNumber(n: Num): GenericValue
  {
    match n
    case Int(i) => NumberValue(Word(i), if i >= 0 then ALL else Flags(true, false, true, false))
    case Uint(u) => NumberValue(Word(u), if u >= INT_MIN_ABS then Flags(false, true, true, true) else ALL)
    case Int64(i) =>
      NumberValue(Word(i),
        if i >= 0 then Flags(Word(i) < INT_MIN_ABS, Word(i) < UINT_LIM, true, true)
        else Flags(i >= -INT_MIN_ABS, false, true, false))
    case Uint64(u) =>
      NumberValue(Word(u), Flags(Word(u) < INT_MIN_ABS, Word(u) < UINT_LIM, Word(u) < INT64_MIN_ABS, true))
  }

  /** Whichever constructor made it, a number's flags tell exactly which classes its value fits, so equal
      integers are equal values. */
  lemma FlagsAreRanges(n: Num)
    requires InClass(n)
    ensures var v := ValueOf(n);
      OfNumber(n) == NumberValue(Word(v), Flags(-INT_MIN_ABS <= v < INT_MIN_ABS, 0 <= v < UINT_LIM,
                                                -INT64_MIN_ABS <= v < INT64_MIN_ABS, 0 <= v < UINT64_LIM))
  {
  }

  /** Which of the integer events Accept sends, and with which part of the word. */
  function Announced(v: GenericValue): Num
    requires v.NumberValue?
  {
    if v.flags.isInt then Int(ToI32(v.word % UINT_LIM))
    else if v.flags.isUint then Uint(v.word % UINT_LIM)
    else if v.flags.isInt64 then Int64(Signed64(v.word))
    else Uint64(v.word)
  }

  /** The class a document replays an integer in: the first that fits. */
  function Classed(v: int): (n: Num)
    requires -INT64_MIN_ABS <= v < UINT64_LIM
    ensures InClass(n) && ValueOf(n) == v
  {
    if -INT_MIN_ABS <= v < INT_MIN_ABS then Int(v)
    else if 0 <= v < UINT_LIM then Uint(v)
    else if v < INT64_MIN_ABS then Int64(v)
    else Uint64(v)
  }

  lemma AnnouncesValue(n: Num)
    requires InClass(n)
    ensures Announced(OfNumber(n)) == Classed(ValueOf(n))
  {
    hide OfNumber, Word, ToI32, Signed64;
    FlagsAreRanges(n);
    WordRead(ValueOf(n));
  }

  /** What a word gives back in each of the four classes. */
  lemma WordRead(v: int)
    requires -INT64_MIN_ABS <= v < UINT64_LIM
    ensures -INT_MIN_ABS <= v < INT_MIN_ABS ==> ToI32(Word(v) % UINT_LIM) == v
    ensures 0 <= v < UINT_LIM ==> Word(v) % UINT_LIM == v
    ensures v < INT64_MIN_ABS ==> Signed64(Word(v)) == v
    ensures 0 <= v ==> Word(v) == v
  {
  }

  // ----- the handler

  /** The value a scalar event or a key stands for. */
  function OfEvent(e: Event): GenericValue
  {
    match e
    case Bool(b) => BoolValue(b)
    case Number(n) => OfNumber(n)
    case Double(text) => DoubleValue(text)
    case String(s) => StringValue(s)
    case Key(s) => StringValue(s)
    case StartObject => ObjectValue([])
    case StartArray => ArrayValue([])
    case _ => NullValue
  }

  /** Members lie on the stack as a name and a value each. */
  function Pairs(items: seq<GenericValue>): (ms: seq<Member>)
    ensures |ms| == |items| / 2
    ensures forall i :: 0 <= i < |ms| ==> ms[i] == Member(items[2 * i], items[2 * i + 1])
  {
    seq(|items| / 2, i requires 0 <= i < |items| / 2 => Member(items[2 * i], items[2 * i + 1]))
  }

  /** How many values an event takes off the stack. */
  function Taken(e: Event): nat { if e.EndObject? then 2 * e.members else if e.EndArray? then e.elements else 0 }

  /** What Stack::Pop and Stack::Top assert. */
  predicate Poppable(stack: seq<GenericValue>, e: Event) { IsEnd(e) ==> Taken(e) + 1 <= |stack| }

  /** The handler functions of GenericDocument. */
  function Handle(stack: seq<GenericValue>, e: Event): seq<GenericValue>
    requires Poppable(stack, e)
  {
    if IsEnd(e) then
      var n := |stack| - Taken(e);
      stack[..n - 1] + [if e.EndObject? then ObjectValue(Pairs(stack[n..])) else ArrayValue(stack[n..])]
    else stack + [OfEvent(e)]
  }

  // ----- Accept

  function NameOf(v: GenericValue): Event { if v.StringValue? then Key(v.s) else Null }

  /** The events a value stands for. */
  function Replay(v: GenericValue): (ev: seq<Event>)
    ensures ev != []
    decreases v
  {
    match v
    case NullValue => [Null]
    case BoolValue(b) => [Bool(b)]
    case NumberValue(_, _) => [Number(Announced(v))]
    case DoubleValue(text) => [Double(text)]
    case StringValue(s) => [String(s)]
    case ObjectValue(members) => [StartObject] + MemberEvents(members) + [EndObject(Wrap(|members|))]
    case ArrayValue(elements) => [StartArray] + ElementEvents(elements) + [EndArray(Wrap(|elements|))]
  }

  function MemberEvents(members: seq<Member>): seq<Event>
    decreases members
  {
    if members == [] then []
    else MemberEvents(members[..|members| - 1]) + MemberEvent(members[|members| - 1])
  }

  function MemberEvent(m: Member): seq<Event>
    decreases m
  {
    [NameOf(m.name)] + Replay(m.value)
  }

  function ElementEvents(elements: seq<GenericValue>): seq<Event>
    decreases elements
  {
    if elements == [] then [] else ElementEvents(elements[..|elements| - 1]) + Replay(elements[|elements| - 1])
  }

  /** A handler that has heard `told` and says whether to go on. */
  datatype Visit = Visit(goesOn: bool, told: seq<Event>)

  function Say(handler: seq<Event> -> bool, told: seq<Event>, e: Event): Visit
  {
    Visit(handler(told + [e]), told + [e])
  }

  /** Accept: every refusal of the handler ends the traversal. */
  function Accept(v: GenericValue, handler: seq<Event> -> bool, told: seq<Event>): Visit
    decreases v
  {
    match v
    case ObjectValue(members) =>
      var r := Say(handler, told, StartObject);
      if !r.goesOn then r
      else
        var r1 := AcceptMembers(members, handler, r.told);
        if !r1.goesOn then r1 else Say(handler, r1.told, EndObject(Wrap(|members|)))
    case ArrayValue(elements) =>
      var r := Say(handler, told, StartArray);
      if !r.goesOn then r
      else
        var r1 := AcceptElements(elements, handler, r.told);
        if !r1.goesOn then r1 else Say(handler, r1.told, EndArray(Wrap(|elements|)))
    case _ => Say(handler, told, Replay(v)[0])
  }

  function AcceptMembers(members: seq<Member>, handler: seq<Event> -> bool, told: seq<Event>): Visit
    decreases members
  {
    if members == [] then Visit(true, told)
    else
      var r := AcceptMembers(members[..|members| - 1], handler, told);
      if !r.goesOn then r else AcceptMember(members[|members| - 1], handler, r.told)
  }

  function AcceptMember(m: Member, handler: seq<Event> -> bool, told: seq<Event>): Visit
    decreases m
  {
    var r := Say(handler, told, NameOf(m.name));
    if !r.goesOn then r else Accept(m.value, handler, r.told)
  }

  function AcceptElements(elements: seq<GenericValue>, handler: seq<Event> -> bool, told: seq<Event>): Visit
    decreases elements
  {
    if elements == [] then Visit(true, told)
    else
      var r := AcceptElements(elements[..|elements| - 1], handler, told);
      if !r.goesOn then r else Accept(elements[|elements| - 1], handler, r.told)
  }

  /** A handler hearing events one by one until it refuses. */
  function Hear(handler: seq<Event> -> bool, told: seq<Event>, ev: seq<Event>): Visit
    decreases |ev|
  {
    if ev == [] then Visit(true, told)
    else if handler(told + [ev[0]]) then Hear(handler, told + [ev[0]], ev[1..])
    else Visit(false, told + [ev[0]])
  }

  lemma {:induction false} HearAppend(handler: seq<Event> -> bool, told: seq<Event>, a: seq<Event>, b: seq<Event>)
    ensures Hear(handler, told, a + b) ==
      var r := Hear(handler, told, a); if r.goesOn then Hear(handler, r.told, b) else r
    decreases |a|
  {
    if a == [] {
      assert a + b == b;
    } else {
      assert (a + b)[0] == a[0] && (a + b)[1..] == a[1..] + b;
      HearAppend(handler, told + [a[0]], a[1..], b);
    }
  }

  lemma HearOne(handler: seq<Event> -> bool, told: seq<Event>, e: Event)
    ensures Hear(handler, told, [e]) == Say(handler, told, e)
  {
    assert Hear(handler, told + [e], []) == Visit(true, told + [e]);
  }

  /** Accept sends a handler the events of the value, in order, up to the first it refuses. */
  lemma {:induction false} AcceptReplays(v: GenericValue, handler: seq<Event> -> bool, told: seq<Event>)
    ensures Accept(v, handler, told) == Hear(handler, told, Replay(v))
    decreases v
  {
    hide Hear, Say, Announced;
    match v
    case ObjectValue(members) =>
      var end := EndObject(Wrap(|members|));
      HearAppend(handler, told, [StartObject] + MemberEvents(members), [end]);
      HearAppend(handler, told, [StartObject], MemberEvents(members));
      HearOne(handler, told, StartObject);
      var r := Say(handler, told, StartObject);
      MembersReplay(members, handler, r.told);
      HearOne(handler, AcceptMembers(members, handler, r.told).told, end);
    case ArrayValue(elements) =>
      var end := EndArray(Wrap(|elements|));
      HearAppend(handler, told, [StartArray] + ElementEvents(elements), [end]);
      HearAppend(handler, told, [StartArray], ElementEvents(elements));
      HearOne(handler, told, StartArray);
      var r := Say(handler, told, StartArray);
      ElementsReplay(elements, handler, r.told);
      HearOne(handler, AcceptElements(elements, handler, r.told).told, end);
    case _ => HearOne(handler, told, Replay(v)[0]);
  }

  lemma {:induction false} MembersReplay(members: seq<Member>, handler: seq<Event> -> bool, told: seq<Event>)
    ensures AcceptMembers(members, handler, told) == Hear(handler, told, MemberEvents(members))
    decreases members
  {
    if members != [] {
      var init, m := members[..|members| - 1], members[|members| - 1];
      MembersReplay(init, handler, told);
      hide Hear, AcceptMember, MemberEvent;
      HearAppend(handler, told, MemberEvents(init), MemberEvent(m));
      MemberReplay(m, handler, AcceptMembers(init, handler, told).told);
    }
  }

  lemma {:induction false} MemberReplay(m: Member, handler: seq<Event> -> bool, told: seq<Event>)
    ensures AcceptMember(m, handler, told) == Hear(handler, told, MemberEvent(m))
    decreases m
  {
    hide Hear, Say, Accept, Replay;
    HearAppend(handler, told, [NameOf(m.name)], Replay(m.value));
    HearOne(handler, told, NameOf(m.name));
    AcceptReplays(m.value, handler, Say(handler, told, NameOf(m.name)).told);
  }

  lemma {:induction false} ElementsReplay(elements: seq<GenericValue>, handler: seq<Event> -> bool, told: seq<Event>)
    ensures AcceptElements(elements, handler, told) == Hear(handler, told, ElementEvents(elements))
    decreases elements
  {
    if elements != [] {
      var init, v := elements[..|elements| - 1], elements[|elements| - 1];
      ElementsReplay(init, handler, told);
      hide Hear, Accept, Replay;
      HearAppend(handler, told, ElementEvents(init), Replay(v));
      AcceptReplays(v, handler, AcceptElements(init, handler, told).told);
    }
  }
}
