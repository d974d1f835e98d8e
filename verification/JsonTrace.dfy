/**
  Well-formed event traces: keys and values alternate inside objects, containers nest, every container
  is closed with the number of its children, and there is one root value.
 */
module JsonTrace {
  import opened Wrap32
  import opened JsonText
  import opened JsonParse

  /** An open container: its children so far, and whether a key waits for its value. */
  datatype Level = Level(isObject: bool, children: nat, key: bool)

  /** What a trace amounts to: the open containers and whether the root is complete; or it is no trace. */
  datatype Track = Track(open: seq<Level>, done: bool) | Broken

  function Top(open: seq<Level>): Level
    requires open != []
  {
    open[|open| - 1]
  }

  /** A value has been completed inside these containers. */
  function Complete(open: seq<Level>): (k: Track)
    ensures k.Track? && |k.open| == |open| && (k.done <==> open == [])
  {
    if open == [] then Track([], true)
    else Track(open[..|open| - 1] + [Level(Top(open).isObject, Top(open).children + 1, false)], false)
  }

  predicate MayBegin(k: Track)
    requires k.Track?
  {
    if k.open == [] then !k.done else Top(k.open).isObject ==> Top(k.open).key
  }

  predicate MayEnd(k: Track, isObject: bool, count: u32)
    requires k.Track?
  {
    k.open != [] && Top(k.open).isObject == isObject && !Top(k.open).key && count == Wrap(Top(k.open).children)
  }

  function Feed(k: Track, e: Event): Track
  {
    if k.Broken? then Broken
    else
      match e
      case Key(_) =>
        if k.open != [] && Top(k.open).isObject && !Top(k.open).key
        then Track(k.open[|k.open| - 1 := Top(k.open).(key := true)], false) else Broken
      case StartObject => if MayBegin(k) then Track(k.open + [Level(true, 0, false)], false) else Broken
      case StartArray => if MayBegin(k) then Track(k.open + [Level(false, 0, false)], false) else Broken
      case EndObject(n) => if MayEnd(k, true, n) then Complete(k.open[..|k.open| - 1]) else Broken
      case EndArray(n) => if MayEnd(k, false, n) then Complete(k.open[..|k.open| - 1]) else Broken
      case _ => if MayBegin(k) then Complete(k.open) else Broken
  }

  function Fed(ev: seq<Event>): Track
  {
    if ev == [] then Track([], false) else Feed(Fed(ev[..|ev| - 1]), ev[|ev| - 1])
  }

  /** The trace of exactly one value. */
  predicate WellFormed(ev: seq<Event>) { Fed(ev) == Track([], true) }

  lemma FedSnoc(ev: seq<Event>, e: Event)
    ensures Fed(ev + [e]) == Feed(Fed(ev), e)
  {
    assert (ev + [e])[..|ev|] == ev;
  }

  // ----- what the machine's stack stands for

  predicate InObject(state: State)
  {
    state in {ObjectInitial, MemberKey, KeyValueDelimiter, MemberValue, MemberDelimiter}
  }

  /** The pair the machine keeps for an open container: the state to return to tells what the container
      around it is, and the count is the number of its children before the one in progress. */
  predicate Stands(f: Frame, level: Level, behindValue: bool)
  {
    if behindValue then level.children > 0 && f.count == Wrap(level.children - 1) else f.count == Wrap(level.children)
  }

  /** Stack and state fit these open containers. */
  predicate Fits(open: seq<Level>, stack: seq<Frame>, state: State)
  {
    && |open| == |stack|
    && Nested(open, stack)
    && (open != [] ==> FitsTop(Top(open), stack[|stack| - 1], state))
  }

  predicate FitsTop(level: Level, f: Frame, state: State)
  {
    && (level.isObject <==> InObject(state))
    && (level.key <==> state in {MemberKey, KeyValueDelimiter})
    && Stands(f, level, state in {MemberValue, Element})
  }

  /** The containers around the innermost one. */
  predicate Nested(open: seq<Level>, stack: seq<Frame>)
    requires |open| == |stack|
  {
    forall i :: 0 <= i < |open| - 1 ==> Around(open[i], stack[i], stack[i + 1].saved)
  }

  /** A container with another one open inside it. */
  predicate Around(level: Level, f: Frame, saved: State)
  {
    level.key == level.isObject && Stands(f, level, false) && saved == if level.isObject then MemberValue else Element
  }

  /** The machine's stack holds one pair per open container of the trace it has reported. */
  predicate Tracks(m: Machine)
  {
    if m.Stopped? then Fed(m.told).Track?
    else Fed(m.ev).Track? && (Fed(m.ev).done <==> m.state == Finish) && Fits(Fed(m.ev).open, m.stack, m.state)
  }

  /** Between tokens the machine only moves. */
  lemma TracksMoved(m: Machine, pos: nat)
    requires m.Machine? && Tracks(m)
    ensures Tracks(m.(pos := pos))
  {
  }

  lemma FitsPush(open: seq<Level>, stack: seq<Frame>, state: State, isObject: bool, saved: State)
    requires Fits(open, stack, state)
    requires open != [] ==> Around(Top(open), stack[|stack| - 1], saved)
    ensures Fits(open + [Level(isObject, 0, false)], stack + [Frame(saved, 0)],
                 if isObject then ObjectInitial else ArrayInitial)
  {
    hide Stands, Around;
    var open' := open + [Level(isObject, 0, false)];
    var stack' := stack + [Frame(saved, 0)];
    forall i | 0 <= i < |open'| - 1 ensures Around(open'[i], stack'[i], stack'[i + 1].saved) {
      if i < |open| - 1 { assert Around(open[i], stack[i], stack[i + 1].saved); }
    }
    assert Stands(Frame(saved, 0), Level(isObject, 0, false), false) by { StandsFresh(saved, isObject); }
  }

  lemma StandsFresh(saved: State, isObject: bool)
    ensures Stands(Frame(saved, 0), Level(isObject, 0, false), false)
  {
  }

  /** Closing the innermost container completes a value in the one around it. */
  lemma FitsPop(open: seq<Level>, stack: seq<Frame>, state: State)
    requires Fits(open, stack, state) && open != []
    ensures var n := |open| - 1;
      n > 0 ==> Fits(Complete(open[..n]).open, stack[..n], stack[n].saved)
  {
    var n := |open| - 1;
    if n > 0 {
      var open' := Complete(open[..n]).open;
      assert Around(open[n - 1], stack[n - 1], stack[n].saved);
      FitsBump(open[..n], stack[..n], stack[n].saved);
    }
  }

  /** Completing a value in the innermost container. */
  lemma FitsBump(open: seq<Level>, stack: seq<Frame>, state: State)
    requires |open| == |stack| && open != [] && Nested(open, stack) && Stands(stack[|stack| - 1], Top(open), false)
    requires state == if Top(open).isObject then MemberValue else Element
    ensures Fits(Complete(open).open, stack, state)
  {
    hide Around;
    var open' := Complete(open).open;
    forall i | 0 <= i < |open'| - 1 ensures Around(open'[i], stack[i], stack[i + 1].saved) {
      assert Around(open[i], stack[i], stack[i + 1].saved);
    }
  }

  /** Changing the innermost pair only. */
  lemma FitsRetop(open: seq<Level>, stack: seq<Frame>, level: Level, f: Frame, state: State)
    requires |open| == |stack| && open != [] && Nested(open, stack) && f.saved == stack[|stack| - 1].saved
    requires FitsTop(level, f, state)
    ensures Fits(open[|open| - 1 := level], stack[|stack| - 1 := f], state)
  {
    hide Around, FitsTop;
    var open', stack' := open[|open| - 1 := level], stack[|stack| - 1 := f];
    forall i | 0 <= i < |open'| - 1 ensures Around(open'[i], stack'[i], stack'[i + 1].saved) {
      assert Around(open[i], stack[i], stack[i + 1].saved);
    }
  }

  lemma ScalarTracks(m: Machine, r: Result, e: Event, state: State, t: Text)
    requires m.Machine? && MachineOk(m, t) && Tracks(m)
    requires m.state in {Start, KeyValueDelimiter, ArrayInitial, ElementDelimiter}
    requires state == if m.state == Start then Finish else if m.state == KeyValueDelimiter then MemberValue else Element
    requires e.Null? || e.Bool? || e.Number? || e.Double? || e.String?
    requires Events(r) == m.ev + [e] || (r.Err? && r.told == m.ev)
    ensures Tracks(Entered(r, state, m.stack))
  {
    hide Fed, Nested;
    FedSnoc(m.ev, e);
    if m.stack != [] { FitsBump(Fed(m.ev).open, m.stack, state); }
  }

  lemma OpenTracks(m: Machine, r: Result, isObject: bool, t: Text)
    requires m.Machine? && MachineOk(m, t) && Tracks(m)
    requires m.state in {Start, KeyValueDelimiter, ArrayInitial, ElementDelimiter}
    requires Events(r) == m.ev + [if isObject then StartObject else StartArray]
    ensures var state := if isObject then ObjectInitial else ArrayInitial;
      Tracks(Entered(r, state, m.stack + [Frame(SavedState(m.state), 0)]))
  {
    hide Fed, Nested;
    FedSnoc(m.ev, if isObject then StartObject else StartArray);
    FitsPush(Fed(m.ev).open, m.stack, m.state, isObject, SavedState(m.state));
  }

  lemma KeyTracks(m: Machine, r: Result, key: seq<byte>, t: Text)
    requires m.Machine? && MachineOk(m, t) && Tracks(m) && m.state in {ObjectInitial, MemberDelimiter}
    requires Events(r) == m.ev + [Key(key)] || (r.Err? && r.told == m.ev)
    ensures Tracks(Entered(r, MemberKey, m.stack))
  {
    hide Fed, Nested;
    FedSnoc(m.ev, Key(key));
    var open := Fed(m.ev).open;
    var n := |m.stack| - 1;
    FitsRetop(open, m.stack, open[n].(key := true), m.stack[n], MemberKey);
    assert m.stack[n := m.stack[n]] == m.stack;
  }

  /** Leaving a container reports the number of its children, whatever that number is. */
  lemma LeaveTracks(env: Env, m: Machine, isObject: bool, t: Text)
    requires m.Machine? && MachineOk(m, t) && Tracks(m) && m.stack != []
    requires m.state in if isObject then {ObjectInitial, MemberValue, MemberDelimiter}
      else {ArrayInitial, Element, ElementDelimiter}
    ensures Tracks(Leave(env, m, isObject))
  {
    hide Fed, Tell, Nested, Wrap, Complete;
    var open := Fed(m.ev).open;
    var top := m.stack[|m.stack| - 1];
    var count := if m.state == (if isObject then MemberValue else Element) then Wrap(top.count + 1) else top.count;
    WrapPlus(Top(open).children - 1, 1);
    FedSnoc(m.ev, if isObject then EndObject(count) else EndArray(count));
    FitsPop(open, m.stack, m.state);
    if |open| == 1 { NoneLeft(open, m.stack[..0]); }
  }

  lemma NoneLeft(open: seq<Level>, stack: seq<Frame>)
    requires |open| == 1 && stack == []
    ensures Complete(open[..0]) == Track([], true) && Fits([], stack, Finish)
  {
  }

  /** A comma makes the count catch up. */
  lemma CommaTracks(m: Machine, state: State, t: Text)
    requires m.Machine? && MachineOk(m, t) && Tracks(m) && m.stack != []
    requires (m.state == MemberValue && state == MemberDelimiter) || (m.state == Element && state == ElementDelimiter)
    ensures var n := |m.stack| - 1;
      Tracks(m.(state := state, pos := m.pos + 1,
                stack := m.stack[n := m.stack[n].(count := Wrap(m.stack[n].count + 1))]))
  {
    hide Fed, Nested, Wrap;
    var open := Fed(m.ev).open;
    var n := |m.stack| - 1;
    WrapPlus(Top(open).children - 1, 1);
    FitsRetop(open, m.stack, open[n], m.stack[n].(count := Wrap(m.stack[n].count + 1)), state);
    assert open[n := open[n]] == open;
  }

  lemma ScalarEvent(env: Env, t: Text, i: nat, ev: seq<Event>) returns (e: Event)
    ensures e.Null? || e.Bool? || e.Number? || e.Double? || e.String?
    ensures var r := ScalarAt(env, t, i, ev); Events(r) == ev + [e] || (r.Err? && r.told == ev)
  {
    hide Decode, IntegerAt, Matches;
    var r := ScalarAt(env, t, i, ev);
    e := if |Events(r)| > |ev| then Events(r)[|ev|] else Null;
  }

  lemma KeyEvent(env: Env, t: Text, i: nat, ev: seq<Event>) returns (key: seq<byte>)
    ensures var r := StringAt(env, t, i, ev, true); Events(r) == ev + [Key(key)] || (r.Err? && r.told == ev)
  {
    hide Decode;
    key := match Decode(t, i + 1) case Str(bytes, _) => bytes case _ => [];
  }

  lemma TurnTracks(env: Env, t: Text, m: Machine)
    requires m.Machine? && MachineOk(m, t) && Tracks(m) && Peek(t, m.pos) != 0
    ensures Tracks(Turn(env, t, m))
  {
    hide Tracks, Tell, ScalarAt, StringAt, Leave, Tokenize, Entered, ErrorOf, MachineOk, SavedOk;
    TransitOk(env, t, m);
    StackAndState(m, t);
    var dst := Predict(m.state, Tokenize(Peek(t, m.pos)));
    StoppedTracks(m);
    if dst in {ObjectInitial, ArrayInitial} {
      var isObject := dst == ObjectInitial;
      OpenTracks(m, Tell(env, m.pos + 1, m.ev, if isObject then StartObject else StartArray), isObject, t);
    } else if dst == MemberKey {
      var key := KeyEvent(env, t, m.pos, m.ev);
      KeyTracks(m, StringAt(env, t, m.pos, m.ev, true), key, t);
    } else if dst == KeyValueDelimiter {
      ColonTracks(m);
    } else if dst in {MemberDelimiter, ElementDelimiter} {
      CommaTracks(m, dst, t);
    } else if dst in {ObjectFinish, ArrayFinish} {
      LeaveTracks(env, m, dst == ObjectFinish, t);
    } else if dst in {MemberValue, Element, ValueState} {
      var e := ScalarEvent(env, t, m.pos, m.ev);
      ScalarTracks(m, ScalarAt(env, t, m.pos, m.ev), e, if dst == ValueState then Finish else dst, t);
    }
  }

  lemma StackAndState(m: Machine, t: Text)
    requires m.Machine? && MachineOk(m, t)
    ensures InContainer(m.state) <==> m.stack != []
  {
  }

  lemma ColonTracks(m: Machine)
    requires m.Machine? && Tracks(m) && m.state == MemberKey
    ensures Tracks(m.(state := KeyValueDelimiter, pos := m.pos + 1))
  {
    hide Fed;
  }

  lemma StoppedTracks(m: Machine)
    requires m.Machine? && Tracks(m)
    ensures forall code :: Tracks(Stopped(code, m.ev))
  {
  }

  // ----- whole runs

  /** The machine after n turns, stopped or not. */
  function Turns(env: Env, t: Text, m: Machine, n: nat): (m': Machine)
    requires MachineOk(m, t)
    ensures MachineOk(m', t)
  {
    if n == 0 then m
    else
      var k := Turns(env, t, m, n - 1);
      if k.Stopped? || Peek(t, k.pos) == 0 then k
      else
        var k1 := Turn(env, t, k);
        if k1.Stopped? then k1
        else
          match Skipped(env, t, k1.pos, k1.ev)
          case Err(code, told) => Stopped(code, told)
          case Ok(j, _) => k1.(pos := j)
  }

  /** After any number of turns on any text, the stack holds one (saved state, count) pair per container
      that the events reported so far have opened and not closed. */
  lemma {:induction false} StackIsOpenContainers(env: Env, t: Text, i: nat, n: nat)
    requires i <= |t|
    ensures Tracks(Turns(env, t, Machine(Start, [], i, []), n))
  {
    hide Turn, Tracks, Skipped;
    if n == 0 {
      StartTracks(i);
    } else {
      StackIsOpenContainers(env, t, i, n - 1);
      var k := Turns(env, t, Machine(Start, [], i, []), n - 1);
      if k.Machine? && Peek(t, k.pos) != 0 {
        TurnTracks(env, t, k);
        var k1 := Turn(env, t, k);
        if k1.Machine? {
          StoppedTracks(k1);
          var s := Skipped(env, t, k1.pos, k1.ev);
          if s.Ok? { TracksMoved(k1, s.pos); }
        }
      }
    }
  }

  lemma StartTracks(i: nat)
    ensures Tracks(Machine(Start, [], i, []))
  {
  }

  lemma {:induction false} LoopTracks(env: Env, t: Text, m: Machine)
    requires MachineOk(m, t) && Tracks(m)
    ensures var r := Loop(env, t, m); if r.Ok? then WellFormed(r.ok) else Fed(r.told).Track?
    decreases if m.Machine? then 1 + |t| - m.pos else 0, 0
  {
    hide Turn, Fed, Resume;
    if m.Machine? && Peek(t, m.pos) != 0 {
      TurnTracks(env, t, m);
      ResumeTracks(env, t, Turn(env, t, m));
    }
  }

  lemma {:induction false} ResumeTracks(env: Env, t: Text, m: Machine)
    requires MachineOk(m, t) && Tracks(m)
    ensures var r := Resume(env, t, m); if r.Ok? then WellFormed(r.ok) else Fed(r.told).Track?
    decreases if m.Machine? then 1 + |t| - m.pos else 0, 1
  {
    hide Loop, Fed, Skipped;
    if m.Machine? {
      var s := Skipped(env, t, m.pos, m.ev);
      if s.Ok? { LoopTracks(env, t, m.(pos := s.pos)); }
    }
  }

  /** Whatever the text, what a parse reports is well formed: the complete trace of one value when it
      succeeds, and the beginning of a trace when it does not. */
  lemma ReportsAreWellFormed(env: Env, t: Text)
    ensures var r := Iterative(env, t); if r.Ok? then WellFormed(r.ok) else Fed(r.told).Track?
  {
    hide Loop, Skipped, Fed;
    var s := Skipped(env, t, 0, []);
    StartTracks(0);
    if s.Ok? {
      StartTracks(s.pos);
      LoopTracks(env, t, Machine(Start, [], s.pos, []));
    }
  }
}
