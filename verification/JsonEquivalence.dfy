/**
  The pushdown machine and the recursive parser report the same events and accept the same texts.
 */
module JsonEquivalence {
  import opened Wrap32
  import opened JsonText
  import opened JsonParse

  /** Both succeed at the same position with the same events, or both fail after the same events. */
  predicate Agree(a: Result, b: Result)
  {
    if a.Ok? then a == b else b.Err? && a.told == b.told
  }

  /** States in which a value may begin, and where the machine is once it has been read. */
  predicate AwaitsValue(state: State) { state in {Start, KeyValueDelimiter, ArrayInitial, ElementDelimiter} }

  function AfterValue(state: State): State
  {
    if state == Start then Finish else if state == KeyValueDelimiter then MemberValue else Element
  }

  /** The machine when its innermost container has just been closed. */
  function Closed(m: Machine, pos: nat, ev: seq<Event>): Machine
    requires m.Machine? && m.stack != []
  {
    var top := m.stack[|m.stack| - 1];
    Machine(if top.saved == Start then Finish else top.saved, m.stack[..|m.stack| - 1], pos, ev)
  }

  /** The machine where a value that ends in `r` has been read. */
  function Past(m: Machine, r: Result): Machine
    requires m.Machine?
  {
    Entered(r, AfterValue(m.state), m.stack)
  }

  /** The machine where the innermost container, ending in `r`, has been read. */
  function Out(m: Machine, r: Result): Machine
    requires m.Machine? && m.stack != []
  {
    if r.Ok? then Closed(m, r.pos, r.ok) else Stopped(r.code, r.told)
  }

  lemma PastOk(t: Text, m: Machine, r: Result)
    requires m.Machine? && MachineOk(m, t) && AwaitsValue(m.state) && (r.Ok? ==> r.pos <= |t|)
    ensures MachineOk(Past(m, r), t)
  {
  }

  lemma OutOk(t: Text, m: Machine, r: Result)
    requires m.Machine? && MachineOk(m, t) && m.stack != [] && (r.Ok? ==> r.pos <= |t|)
    ensures MachineOk(Out(m, r), t)
  {
  }

  // ----- single turns, by state and token

  lemma LoopTurn(env: Env, t: Text, m: Machine)
    requires m.Machine? && MachineOk(m, t) && Peek(t, m.pos) != 0
    ensures Loop(env, t, m) == Resume(env, t, Turn(env, t, m))
  {
    hide Turn, ErrorOf;
  }

  lemma LoopEnd(env: Env, t: Text, m: Machine)
    requires m.Machine? && MachineOk(m, t) && Peek(t, m.pos) == 0
    ensures Loop(env, t, m) == if m.state == Finish then Ok(m.pos, m.ev) else Err(ErrorOf(m.state), m.ev)
  {
    hide Turn, ErrorOf;
  }

  lemma ResumeTurn(env: Env, t: Text, m: Machine, s: Result)
    requires m.Machine? && MachineOk(m, t) && m.state != Finish && s == Skipped(env, t, m.pos, m.ev)
    ensures s.Err? ==> Resume(env, t, m) == s
    ensures s.Ok? ==>
      s.pos <= |t| && MachineOk(m.(pos := s.pos), t) && Resume(env, t, m) == Loop(env, t, m.(pos := s.pos))
  {
    hide Loop, Skipped;
  }

  lemma ScalarTurn(env: Env, t: Text, m: Machine)
    requires m.Machine? && MachineOk(m, t) && AwaitsValue(m.state) && IsScalar(Tokenize(Peek(t, m.pos)))
    requires Peek(t, m.pos) != 0
    ensures Turn(env, t, m) == Past(m, ScalarAt(env, t, m.pos, m.ev))
  {
    hide ScalarAt, Entered;
  }

  lemma OpenTurn(env: Env, t: Text, m: Machine)
    requires m.Machine? && MachineOk(m, t) && AwaitsValue(m.state) && Peek(t, m.pos) in {LBRACE, LBRACKET}
    ensures var isObject := Peek(t, m.pos) == LBRACE;
      Turn(env, t, m) == Entered(Tell(env, m.pos + 1, m.ev, if isObject then StartObject else StartArray),
                                 if isObject then ObjectInitial else ArrayInitial,
                                 m.stack + [Frame(SavedState(m.state), 0)])
  {
    hide Entered, Tell;
  }

  /** Bytes no value begins with, the end of the text among them. */
  predicate Misfit(c: byte) { c in {0, RBRACE, COMMA, COLON, RBRACKET} }

  /** Inside a container both parsers call them an invalid value, without an event. */
  lemma MisfitTurn(env: Env, t: Text, m: Machine)
    requires m.Machine? && MachineOk(m, t) && AwaitsValue(m.state) && Misfit(Peek(t, m.pos))
    requires m.state == ArrayInitial || (m.state == ElementDelimiter && env.trailing) ==> Peek(t, m.pos) != RBRACKET
    ensures Loop(env, t, m) == Err(if m.state == Start then DocumentEmpty else ValueInvalid, m.ev)
    ensures Value(env, t, m.pos, m.ev) == Err(ValueInvalid, m.ev)
  {
  }

  lemma CloseTurn(env: Env, t: Text, m: Machine, isObject: bool)
    requires m.Machine? && MachineOk(m, t) && m.stack != []
    requires if isObject then Peek(t, m.pos) == RBRACE && m.state in {ObjectInitial, MemberValue, MemberDelimiter}
             else Peek(t, m.pos) == RBRACKET && m.state in {ArrayInitial, Element, ElementDelimiter}
    requires m.state in {MemberDelimiter, ElementDelimiter} ==> env.trailing
    ensures Peek(t, m.pos) != 0
    ensures var top := m.stack[|m.stack| - 1];
      var count := if m.state in {MemberValue, Element} then Wrap(top.count + 1) else top.count;
      Turn(env, t, m) == Out(m, Tell(env, m.pos + 1, m.ev, if isObject then EndObject(count) else EndArray(count)))
  {
    hide Tell;
  }

  /** Behind a comma: the count has gone up. */
  function Delimited(m: Machine): Machine
    requires m.Machine? && m.stack != []
  {
    var n := |m.stack| - 1;
    m.(state := if m.state == MemberValue then MemberDelimiter else ElementDelimiter, pos := m.pos + 1,
       stack := m.stack[n := m.stack[n].(count := Wrap(m.stack[n].count + 1))])
  }

  lemma CommaTurn(env: Env, t: Text, m: Machine)
    requires m.Machine? && MachineOk(m, t) && m.state in {MemberValue, Element} && Peek(t, m.pos) == COMMA
    ensures m.stack != [] && Turn(env, t, m) == Delimited(m) && MachineOk(Delimited(m), t)
  {
  }

  lemma KeyTurn(env: Env, t: Text, m: Machine)
    requires m.Machine? && MachineOk(m, t) && m.state in {ObjectInitial, MemberDelimiter} && Peek(t, m.pos) == QUOTE
    ensures Turn(env, t, m) == Entered(StringAt(env, t, m.pos, m.ev, true), MemberKey, m.stack)
  {
    hide StringAt, Entered;
  }

  lemma ColonTurn(env: Env, t: Text, m: Machine)
    requires m.Machine? && MachineOk(m, t) && m.state == MemberKey && Peek(t, m.pos) == COLON
    ensures Turn(env, t, m) == m.(state := KeyValueDelimiter, pos := m.pos + 1)
    ensures MachineOk(m.(state := KeyValueDelimiter, pos := m.pos + 1), t)
  {
  }

  /** A byte that the table has no entry for. */
  predicate Wrong(env: Env, m: Machine, c: byte)
    requires m.Machine?
  {
    match m.state
    case ObjectInitial => c !in {RBRACE, QUOTE}
    case MemberDelimiter => c != QUOTE && !(env.trailing && c == RBRACE)
    case MemberKey => c != COLON
    case MemberValue => c !in {RBRACE, COMMA}
    case Element => c !in {RBRACKET, COMMA}
    case Finish => c != 0
    case _ => false
  }

  /** Such a byte stops the machine with the error of its state and without an event. */
  lemma WrongTurn(env: Env, t: Text, m: Machine)
    requires m.Machine? && MachineOk(m, t) && Wrong(env, m, Peek(t, m.pos))
    ensures Loop(env, t, m) == Err(ErrorOf(m.state), m.ev)
  {
  }

  // ----- the simulation

  /** A container opened by m: closing it leads to where m is past the value. */
  lemma OpenedOk(t: Text, m: Machine, state: State, ev: seq<Event>)
    requires m.Machine? && MachineOk(m, t) && AwaitsValue(m.state) && state in {ObjectInitial, ArrayInitial}
    requires m.pos < |t|
    ensures var inside := Machine(state, m.stack + [Frame(SavedState(m.state), 0)], m.pos + 1, ev);
      MachineOk(inside, t) && forall r :: Out(inside, r) == Past(m, r)
  {
  }

  /** Where a container leads does not depend on where the machine is inside it. */
  lemma SameOut(m: Machine, m': Machine)
    requires m.Machine? && m'.Machine? && |m.stack| == |m'.stack| != 0
    requires m.stack[..|m.stack| - 1] == m'.stack[..|m.stack| - 1]
    requires m.stack[|m.stack| - 1].saved == m'.stack[|m.stack| - 1].saved
    ensures forall r :: Out(m, r) == Out(m', r)
  {
  }

  /** The count of the innermost container once the value just read is included. */
  function CountOf(m: Machine): u32
    requires m.Machine? && m.stack != []
  {
    var top := m.stack[|m.stack| - 1];
    if m.state in {MemberValue, Element} then Wrap(top.count + 1) else top.count
  }

  /** Reading a value: the machine does what ParseValue does and goes on behind it. */
  lemma {:induction false} ValueFollows(env: Env, t: Text, m: Machine)
    requires m.Machine? && MachineOk(m, t) && AwaitsValue(m.state)
    requires m.state == ArrayInitial || (m.state == ElementDelimiter && env.trailing) ==> Peek(t, m.pos) != RBRACKET
    requires m.state == Start ==> !Misfit(Peek(t, m.pos))
    ensures var r := Value(env, t, m.pos, m.ev);
      MachineOk(Past(m, r), t) && Loop(env, t, m) == Resume(env, t, Past(m, r))
    decreases |t| - m.pos, 3
  {
    hide Turn, Loop, ScalarAt, MachineOk, Object, Array, Skipped;
    var r := Value(env, t, m.pos, m.ev);
    PastOk(t, m, r);
    if Misfit(Peek(t, m.pos)) {
      MisfitTurn(env, t, m);
    } else {
      LoopTurn(env, t, m);
      if Peek(t, m.pos) == LBRACE {
        ObjectFollows(env, t, m);
      } else if Peek(t, m.pos) == LBRACKET {
        ArrayFollows(env, t, m);
      } else {
        ScalarTurn(env, t, m);
      }
    }
  }

  lemma {:induction false} ObjectFollows(env: Env, t: Text, m: Machine)
    requires m.Machine? && MachineOk(m, t) && AwaitsValue(m.state) && Peek(t, m.pos) == LBRACE
    ensures var r := Object(env, t, m.pos, m.ev);
      MachineOk(Past(m, r), t) && Resume(env, t, Turn(env, t, m)) == Resume(env, t, Past(m, r))
    decreases |t| - m.pos, 2
  {
    hide Turn, Loop, MachineOk, Members, Skipped, Out, Past;
    var r := Object(env, t, m.pos, m.ev);
    PastOk(t, m, r);
    OpenTurn(env, t, m);
    var told := Tell(env, m.pos + 1, m.ev, StartObject);
    if told.Ok? {
      var inside := Machine(ObjectInitial, m.stack + [Frame(SavedState(m.state), 0)], m.pos + 1, told.ok);
      OpenedOk(t, m, ObjectInitial, told.ok);
      var s := Skipped(env, t, m.pos + 1, told.ok);
      ResumeTurn(env, t, inside, s);
      if s.Ok? {
        SameOut(inside, inside.(pos := s.pos));
        if Peek(t, s.pos) == RBRACE {
          CloseFollows(env, t, inside.(pos := s.pos), true);
        } else {
          MembersFollow(env, t, inside.(pos := s.pos), 0);
        }
      } else {
        StoppedPast(env, t, m, s);
      }
    } else {
      StoppedPast(env, t, m, told);
    }
  }

  lemma StoppedPast(env: Env, t: Text, m: Machine, r: Result)
    requires m.Machine? && r.Err?
    ensures Past(m, r) == Stopped(r.code, r.told) && Resume(env, t, Stopped(r.code, r.told)) == r
    ensures m.stack != [] ==> Out(m, r) == Stopped(r.code, r.told)
  {
  }

  /** Closing the innermost container. */
  lemma CloseFollows(env: Env, t: Text, m: Machine, isObject: bool)
    requires m.Machine? && MachineOk(m, t) && m.stack != []
    requires if isObject then Peek(t, m.pos) == RBRACE && m.state in {ObjectInitial, MemberValue, MemberDelimiter}
             else Peek(t, m.pos) == RBRACKET && m.state in {ArrayInitial, Element, ElementDelimiter}
    requires m.state in {MemberDelimiter, ElementDelimiter} ==> env.trailing
    ensures var r := Tell(env, m.pos + 1, m.ev, if isObject then EndObject(CountOf(m)) else EndArray(CountOf(m)));
      MachineOk(Out(m, r), t) && Loop(env, t, m) == Resume(env, t, Out(m, r))
  {
    hide Turn, Loop, Resume, MachineOk, Tell, Out;
    CloseTurn(env, t, m, isObject);
    LoopTurn(env, t, m);
    OutOk(t, m, Tell(env, m.pos + 1, m.ev, if isObject then EndObject(CountOf(m)) else EndArray(CountOf(m))));
  }

  /** Reading a name and its colon. */
  lemma NameFollows(env: Env, t: Text, m: Machine, n: Result)
    requires m.Machine? && MachineOk(m, t) && m.state in {ObjectInitial, MemberDelimiter} && m.stack != []
    requires m.state == ObjectInitial || env.trailing ==> Peek(t, m.pos) != RBRACE
    requires n == NameAt(env, t, m.pos, m.ev)
    ensures n.Err? ==> Loop(env, t, m) == n
    ensures n.Ok? ==> var m' := m.(state := KeyValueDelimiter, pos := n.pos, ev := n.ok);
      MachineOk(m', t) && Loop(env, t, m) == Loop(env, t, m')
  {
    hide Turn, Loop, Resume, MachineOk, Skipped, StringAt;
    if Peek(t, m.pos) != QUOTE {
      WrongTurn(env, t, m);
    } else {
      LoopTurn(env, t, m);
      KeyTurn(env, t, m);
      var key := StringAt(env, t, m.pos, m.ev, true);
      if key.Ok? {
        InsideState(t, m, MemberKey, key.pos, key.ok);
        KeyFollows(env, t, m.(state := MemberKey, pos := key.pos, ev := key.ok));
      } else {
        StoppedPast(env, t, m, key);
      }
    }
  }

  lemma InsideState(t: Text, m: Machine, state: State, pos: nat, ev: seq<Event>)
    requires m.Machine? && MachineOk(m, t) && m.stack != [] && pos <= |t|
    requires state in {MemberKey, KeyValueDelimiter, MemberValue, MemberDelimiter, Element, ElementDelimiter}
    ensures MachineOk(m.(state := state, pos := pos, ev := ev), t)
  {
  }

  /** Behind the key: white space, the colon, white space. */
  lemma KeyFollows(env: Env, t: Text, m: Machine)
    requires m.Machine? && m.state == MemberKey && m.stack != [] && MachineOk(m, t)
    ensures var s := Skipped(env, t, m.pos, m.ev);
      var n := if s.Err? then s else if Peek(t, s.pos) != COLON then Err(ObjectMissColon, m.ev)
        else Skipped(env, t, s.pos + 1, m.ev);
      && (n.Err? ==> Resume(env, t, m) == n)
      && (n.Ok? ==> var m' := m.(state := KeyValueDelimiter, pos := n.pos);
            MachineOk(m', t) && Resume(env, t, m) == Loop(env, t, m'))
  {
    hide Turn, Loop, Resume, MachineOk, Skipped;
    var s := Skipped(env, t, m.pos, m.ev);
    ResumeTurn(env, t, m, s);
    if s.Ok? {
      var m1 := m.(pos := s.pos);
      if Peek(t, s.pos) != COLON {
        WrongTurn(env, t, m1);
      } else {
        LoopTurn(env, t, m1);
        ColonTurn(env, t, m1);
        ResumeTurn(env, t, m1.(state := KeyValueDelimiter, pos := s.pos + 1), Skipped(env, t, s.pos + 1, m.ev));
      }
    }
  }

  /** The member loop. */
  lemma {:induction false} MembersFollow(env: Env, t: Text, m: Machine, count: u32)
    requires m.Machine? && MachineOk(m, t) && m.state in {ObjectInitial, MemberDelimiter}
    requires m.stack != [] && m.stack[|m.stack| - 1].count == count
    requires m.state == ObjectInitial || env.trailing ==> Peek(t, m.pos) != RBRACE
    ensures var r := Members(env, t, m.pos, m.ev, count);
      MachineOk(Out(m, r), t) && Loop(env, t, m) == Resume(env, t, Out(m, r))
    decreases |t| - m.pos, 1
  {
    hide Turn, Loop, Resume, MachineOk, NameAt, Value, AfterMember, Out;
    var r := Members(env, t, m.pos, m.ev, count);
    OutOk(t, m, r);
    var n := NameAt(env, t, m.pos, m.ev);
    NameFollows(env, t, m, n);
    if n.Err? {
      StoppedPast(env, t, m, n);
    } else {
      var m1 := m.(state := KeyValueDelimiter, pos := n.pos, ev := n.ok);
      var v := Value(env, t, m1.pos, m1.ev);
      ValueFollows(env, t, m1);
      if v.Ok? {
        SameOut(m, Past(m1, v));
        AfterMemberFollows(env, t, Past(m1, v), Wrap(count + 1));
      } else {
        StoppedPast(env, t, m1, v);
        StoppedPast(env, t, m, v);
      }
    }
  }

  lemma {:induction false} AfterMemberFollows(env: Env, t: Text, m: Machine, count: u32)
    requires m.Machine? && MachineOk(m, t) && m.state == MemberValue && m.stack != [] && CountOf(m) == count
    ensures var r := AfterMember(env, t, m.pos, m.ev, count);
      MachineOk(Out(m, r), t) && Resume(env, t, m) == Resume(env, t, Out(m, r))
    decreases |t| - m.pos, 2
  {
    hide Turn, Loop, Resume, MachineOk, Skipped, Members, Out, Wrap, Tell;
    var r := AfterMember(env, t, m.pos, m.ev, count);
    OutOk(t, m, r);
    var s := Skipped(env, t, m.pos, m.ev);
    ResumeTurn(env, t, m, s);
    if s.Err? {
      StoppedPast(env, t, m, s);
    } else {
      var m1 := m.(pos := s.pos);
      SameOut(m, m1);
      if Peek(t, s.pos) == COMMA {
        LoopTurn(env, t, m1);
        CommaTurn(env, t, m1);
        var m2 := Delimited(m1);
        var s2 := Skipped(env, t, s.pos + 1, m.ev);
        ResumeTurn(env, t, m2, s2);
        if s2.Err? {
          StoppedPast(env, t, m, s2);
        } else {
          var m3 := m2.(pos := s2.pos);
          SameOut(m, m3);
          if env.trailing && Peek(t, s2.pos) == RBRACE {
            CloseFollows(env, t, m3, true);
          } else {
            MembersFollow(env, t, m3, count);
          }
        }
      } else if Peek(t, s.pos) == RBRACE {
        CloseFollows(env, t, m1, true);
      } else {
        WrongTurn(env, t, m1);
        StoppedPast(env, t, m, r);
      }
    }
  }

  lemma {:induction false} ArrayFollows(env: Env, t: Text, m: Machine)
    requires m.Machine? && MachineOk(m, t) && AwaitsValue(m.state) && Peek(t, m.pos) == LBRACKET
    ensures var r := Array(env, t, m.pos, m.ev);
      MachineOk(Past(m, r), t) && Resume(env, t, Turn(env, t, m)) == Resume(env, t, Past(m, r))
    decreases |t| - m.pos, 2
  {
    hide Turn, Loop, MachineOk, Elements, Skipped, Out, Past;
    var r := Array(env, t, m.pos, m.ev);
    PastOk(t, m, r);
    OpenTurn(env, t, m);
    var told := Tell(env, m.pos + 1, m.ev, StartArray);
    if told.Ok? {
      var inside := Machine(ArrayInitial, m.stack + [Frame(SavedState(m.state), 0)], m.pos + 1, told.ok);
      OpenedOk(t, m, ArrayInitial, told.ok);
      var s := Skipped(env, t, m.pos + 1, told.ok);
      ResumeTurn(env, t, inside, s);
      if s.Ok? {
        SameOut(inside, inside.(pos := s.pos));
        if Peek(t, s.pos) == RBRACKET {
          CloseFollows(env, t, inside.(pos := s.pos), false);
        } else {
          ElementsFollow(env, t, inside.(pos := s.pos), 0);
        }
      } else {
        StoppedPast(env, t, m, s);
      }
    } else {
      StoppedPast(env, t, m, told);
    }
  }

  lemma {:induction false} ElementsFollow(env: Env, t: Text, m: Machine, count: u32)
    requires m.Machine? && MachineOk(m, t) && m.state in {ArrayInitial, ElementDelimiter}
    requires m.stack != [] && m.stack[|m.stack| - 1].count == count
    requires m.state == ArrayInitial || env.trailing ==> Peek(t, m.pos) != RBRACKET
    ensures var r := Elements(env, t, m.pos, m.ev, count);
      MachineOk(Out(m, r), t) && Loop(env, t, m) == Resume(env, t, Out(m, r))
    decreases |t| - m.pos, 4
  {
    hide Turn, Loop, Resume, MachineOk, Value, AfterElement, Out;
    var v := Value(env, t, m.pos, m.ev);
    ValueFollows(env, t, m);
    OutOk(t, m, Elements(env, t, m.pos, m.ev, count));
    if v.Ok? {
      SameOut(m, Past(m, v));
      AfterElementFollows(env, t, Past(m, v), Wrap(count + 1));
    } else {
      StoppedPast(env, t, m, v);
    }
  }

  lemma {:induction false} AfterElementFollows(env: Env, t: Text, m: Machine, count: u32)
    requires m.Machine? && MachineOk(m, t) && m.state == Element && m.stack != [] && CountOf(m) == count
    ensures var r := AfterElement(env, t, m.pos, m.ev, count);
      MachineOk(Out(m, r), t) && Resume(env, t, m) == Resume(env, t, Out(m, r))
    decreases |t| - m.pos, 5
  {
    hide Turn, Loop, Resume, MachineOk, Skipped, Elements, Out, Wrap, Tell;
    var r := AfterElement(env, t, m.pos, m.ev, count);
    OutOk(t, m, r);
    var s := Skipped(env, t, m.pos, m.ev);
    ResumeTurn(env, t, m, s);
    if s.Err? {
      StoppedPast(env, t, m, s);
    } else {
      var m1 := m.(pos := s.pos);
      SameOut(m, m1);
      if Peek(t, s.pos) == COMMA {
        LoopTurn(env, t, m1);
        CommaTurn(env, t, m1);
        var m2 := Delimited(m1);
        var s2 := Skipped(env, t, s.pos + 1, m.ev);
        ResumeTurn(env, t, m2, s2);
        if s2.Err? {
          StoppedPast(env, t, m, s2);
        } else {
          var m3 := m2.(pos := s2.pos);
          SameOut(m, m3);
          if env.trailing && Peek(t, s2.pos) == RBRACKET {
            CloseFollows(env, t, m3, false);
          } else {
            ElementsFollow(env, t, m3, count);
          }
        }
      } else if Peek(t, s.pos) == RBRACKET {
        CloseFollows(env, t, m1, false);
      } else {
        WrongTurn(env, t, m1);
        StoppedPast(env, t, m, r);
      }
    }
  }

  lemma FinishFollows(env: Env, t: Text, m: Machine)
    requires m.Machine? && MachineOk(m, t) && m.state == Finish
    ensures Resume(env, t, m) == Ending(env, t, m.pos, m.ev)
  {
    hide Turn, Loop, Skipped;
    var s := Skipped(env, t, m.pos, m.ev);
    if !env.stopWhenDone && s.Ok? {
      var m1 := m.(pos := s.pos);
      if Peek(t, s.pos) != 0 { WrongTurn(env, t, m1); } else { LoopEnd(env, t, m1); }
    }
  }

  // ----- the theorems

  /** The text's first token is a closing bracket, a comma or a colon. */
  predicate OddStart(env: Env, t: Text)
  {
    match Skip(t, env.comments, 0)
    case None => false
    case Some(i) => Peek(t, i) in {RBRACE, COMMA, COLON, RBRACKET}
  }

  /** For every text, every setting of the flags, every bound on integers and every handler, the iterative parser and
      the recursive parser report the same events in the same order, accept exactly the same texts, and stop at the
      same position when they do. */
  lemma ParsersAgree(env: Env, t: Text)
    ensures Agree(Recursive(env, t), Iterative(env, t))
  {
    hide Recursive, Iterative;
    SameCodes(env, t);
  }

  /** Even the error codes are the same, except that a text starting with a token no value begins with
      is an invalid value to the recursive parser and an empty document to the iterative one. */
  lemma SameCodes(env: Env, t: Text)
    ensures Recursive(env, t) == Iterative(env, t) <==> !OddStart(env, t)
    ensures OddStart(env, t) ==>
      Recursive(env, t) == Err(ValueInvalid, []) && Iterative(env, t) == Err(DocumentEmpty, [])
  {
    hide Turn, Loop, Resume, Value, Ending, Skip;
    var s := Skipped(env, t, 0, []);
    if s.Ok? {
      var m := Machine(Start, [], s.pos, []);
      if Misfit(Peek(t, s.pos)) {
        MisfitTurn(env, t, m);
      } else {
        ValueFollows(env, t, m);
        var v := Value(env, t, s.pos, []);
        if v.Ok? { FinishFollows(env, t, Past(m, v)); } else { StoppedPast(env, t, m, v); }
      }
    }
  }
}
