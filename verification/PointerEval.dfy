/**
  Evaluating JSON Pointers on a tree of values (section 4 of RFC 6901): Get, Create and Erase.
 */
module PointerEval {
  import opened Wrap32
  import opened JsonText
  import opened PointerCodec
  import opened JsonDocument

  /** FindMember: the first member of that name, the number of members when there is none. */
  function FindMember(members: seq<Member>, name: seq<byte>): (k: nat)
    ensures k <= |members|
    ensures k < |members| ==> members[k].name == StringValue(name)
    ensures forall i :: 0 <= i < k ==> members[i].name != StringValue(name)
  {
    if members == [] || members[0].name == StringValue(name) then 0 else 1 + FindMember(members[1..], name)
  }

  /** Where a token leads in a value: the position of a member or an element. */
  function Resolve(v: GenericValue, t: Token): (r: Option<nat>)
    ensures r.Some? ==> HasChild(v, r.value)
  {
    match v
    case ObjectValue(members) =>
      var k := FindMember(members, t.name);
      if k == |members| then None else Some(k)
    case ArrayValue(elements) => if t.index == INVALID_INDEX || t.index >= |elements| then None else Some(t.index)
    case _ => None
  }

  predicate HasChild(v: GenericValue, k: nat)
  {
    (v.ObjectValue? && k < |v.members|) || (v.ArrayValue? && k < |v.elements|)
  }

  function Child(v: GenericValue, k: nat): GenericValue
    requires HasChild(v, k)
  {
    if v.ObjectValue? then v.members[k].value else v.elements[k]
  }

  function SetChild(v: GenericValue, k: nat, c: GenericValue): (r: GenericValue)
    requires HasChild(v, k)
    ensures HasChild(r, k) && Child(r, k) == c && r.ObjectValue? == v.ObjectValue?
  {
    if v.ObjectValue? then ObjectValue(v.members[k := Member(v.members[k].name, c)])
    else ArrayValue(v.elements[k := c])
  }

  /** Get */
  function Get(v: GenericValue, ts: seq<Token>): Option<GenericValue>
    decreases |ts|
  {
    if ts == [] then Some(v)
    else
      match Resolve(v, ts[0])
      case None => None
      case Some(k) => Get(Child(v, k), ts[1..])
  }

  /** Get as it runs, with a pointer that moves down; the index of the token that does not resolve. */
  method Walk(root: GenericValue, ts: seq<Token>) returns (found: Option<GenericValue>, unresolved: nat)
    ensures found == Get(root, ts)
    ensures found.None? ==>
      unresolved < |ts| && Get(root, ts[..unresolved]).Some? && Get(root, ts[..unresolved + 1]).None?
  {
    var v := root;
    unresolved := 0;
    while unresolved < |ts|
      invariant 0 <= unresolved <= |ts| && Get(root, ts[..unresolved]) == Some(v)
      invariant Get(root, ts) == Get(v, ts[unresolved..])
    {
      GetOn(root, ts[..unresolved], ts[unresolved]);
      assert ts[..unresolved + 1] == ts[..unresolved] + [ts[unresolved]];
      var k := Resolve(v, ts[unresolved]);
      if k == None { return None, unresolved; }
      v := Child(v, k.value);
      unresolved := unresolved + 1;
    }
    found := Some(v);
  }

  lemma {:induction false} GetOn(v: GenericValue, ts: seq<Token>, t: Token)
    ensures Get(v, ts + [t]) ==
      match Get(v, ts)
      case None => None
      case Some(w) => if Resolve(w, t).None? then None else Some(Child(w, Resolve(w, t).value))
    decreases |ts|
  {
    hide Resolve;
    if ts == [] {
      assert [] + [t] == [t] && [t][1..] == [];
    } else {
      assert (ts + [t])[1..] == ts[1..] + [t];
      var k := Resolve(v, ts[0]);
      if k.Some? { GetOn(Child(v, k.value), ts[1..], t); }
    }
  }

  // ----- Create

  /** The value a token steps into, changed or grown to have a place for it, and whether it had one. */
  datatype Stepped = Stepped(container: GenericValue, at: nat, existed: bool)

  predicate IsDash(t: Token) { t.name == [MINUS] }

  function Grown(elements: seq<GenericValue>, n: nat): (r: seq<GenericValue>)
    ensures |elements| <= |r| && n < |r|
    ensures r[..|elements|] == elements && forall i :: |elements| <= i < |r| ==> r[i] == NullValue
    ensures |r| == if n < |elements| then |elements| else n + 1
  {
    if n < |elements| then elements else elements + seq(n + 1 - |elements|, _ => NullValue)
  }

  /** A turn of the loop of Create. */
  function StepInto(v: GenericValue, t: Token): (s: Stepped)
    ensures HasChild(s.container, s.at)
  {
    if v.ArrayValue? && IsDash(t) then Stepped(ArrayValue(v.elements + [NullValue]), |v.elements|, false)
    else
      var c := if t.index == INVALID_INDEX then (if v.ObjectValue? then v else ObjectValue([]))
               else if v.ArrayValue? || v.ObjectValue? then v else ArrayValue([]);
      if c.ArrayValue? then Stepped(ArrayValue(Grown(c.elements, t.index)), t.index, t.index < |c.elements|)
      else
        var k := FindMember(c.members, t.name);
        if k == |c.members| then Stepped(ObjectValue(c.members + [Member(StringValue(t.name), NullValue)]), k, false)
        else Stepped(c, k, true)
  }

  /** Create: the new tree, and whether the value already existed. */
  function Create(v: GenericValue, ts: seq<Token>): (GenericValue, bool)
    decreases |ts|
  {
    if ts == [] then (v, true)
    else
      var s := StepInto(v, ts[0]);
      var (c, existed) := Create(Child(s.container, s.at), ts[1..]);
      (SetChild(s.container, s.at, c), s.existed && existed)
  }

  /** A "-" token has no index: so the parser makes it, and Append of a name. */
  predicate Bare(t: Token) { IsDash(t) ==> t.index == INVALID_INDEX }

  predicate AllBare(ts: seq<Token>) { forall i :: 0 <= i < |ts| ==> Bare(ts[i]) }

  /** The tokens of a parsed pointer are such. */
  lemma IndexedBare(ts: seq<Token>)
    requires Indexed(ts)
    ensures AllBare(ts)
  {
    forall i | 0 <= i < |ts| ensures Bare(ts[i]) {
      assert ts[i].index == IndexOf(ts[i].name);
      if IsDash(ts[i]) { assert !IsDigit(ts[i].name[0]); }
    }
  }

  /** A step into a place that was there changes nothing; into one that was not, it finds Null. */
  lemma StepCases(v: GenericValue, t: Token)
    requires Bare(t)
    ensures var s := StepInto(v, t);
      && (s.existed <==> Resolve(v, t).Some?)
      && (s.existed ==> s.container == v && Resolve(v, t) == Some(s.at))
      && (!s.existed ==> Child(s.container, s.at) == NullValue)
  {
    if v.ArrayValue? && !IsDash(t) && t.index != INVALID_INDEX && t.index < |v.elements| {
      assert Grown(v.elements, t.index) == v.elements;
    }
  }

  lemma SetSame(v: GenericValue, k: nat)
    requires HasChild(v, k)
    ensures SetChild(v, k, Child(v, k)) == v
  {
    if v.ObjectValue? {
      assert v.members[k := v.members[k]] == v.members;
    } else {
      assert v.elements[k := v.elements[k]] == v.elements;
    }
  }

  /** Create reports "already exists" exactly when Get resolved before, and then leaves the tree
      unchanged. */
  predicate FindsExisting(v: GenericValue, ts: seq<Token>)
  {
    var (v', existed) := Create(v, ts);
    (existed <==> Get(v, ts).Some?) && (existed ==> v' == v)
  }

  /** It does so whenever no "-" token carries an index. */
  lemma {:induction false} CreateFindsExisting(v: GenericValue, ts: seq<Token>)
    requires AllBare(ts)
    ensures FindsExisting(v, ts)
    decreases |ts|
  {
    hide StepInto, Resolve, SetChild;
    if ts != [] {
      var s := StepInto(v, ts[0]);
      StepCases(v, ts[0]);
      CreateFindsExisting(Child(s.container, s.at), ts[1..]);
      SetSame(s.container, s.at);
    }
  }

  /** Some "-" token meets an array and appends to it. */
  predicate Appends(v: GenericValue, ts: seq<Token>)
    decreases |ts|
  {
    ts != [] &&
    ((v.ArrayValue? && IsDash(ts[0])) ||
     var s := StepInto(v, ts[0]); Appends(Child(s.container, s.at), ts[1..]))
  }

  lemma {:induction false} FindSet(members: seq<Member>, k: nat, name: seq<byte>, c: GenericValue)
    requires k < |members|
    ensures FindMember(members[k := Member(members[k].name, c)], name) == FindMember(members, name)
    decreases |members|
  {
    var members' := members[k := Member(members[k].name, c)];
    if k > 0 && members[0].name != StringValue(name) {
      assert members'[1..] == members[1..][k - 1 := Member(members[1..][k - 1].name, c)];
      FindSet(members[1..], k - 1, name, c);
    } else if k == 0 && members[0].name != StringValue(name) {
      assert members'[1..] == members[1..];
    }
  }

  lemma {:induction false} FindAppended(members: seq<Member>, name: seq<byte>)
    requires FindMember(members, name) == |members|
    ensures FindMember(members + [Member(StringValue(name), NullValue)], name) == |members|
    decreases |members|
  {
    if members != [] {
      assert (members + [Member(StringValue(name), NullValue)])[1..]
        == members[1..] + [Member(StringValue(name), NullValue)];
      FindAppended(members[1..], name);
    }
  }

  /** After a step, and whatever is then put there, the token resolves to that place unless it appended. */
  lemma StepResolves(v: GenericValue, t: Token, c: GenericValue)
    requires Bare(t)
    ensures var s := StepInto(v, t);
      Resolve(SetChild(s.container, s.at, c), t) == if v.ArrayValue? && IsDash(t) then None else Some(s.at)
  {
    var s := StepInto(v, t);
    if s.container.ObjectValue? {
      ObjectStepResolves(v, t);
      FindSet(s.container.members, s.at, t.name, c);
    }
  }

  lemma ObjectStepResolves(v: GenericValue, t: Token)
    requires StepInto(v, t).container.ObjectValue?
    ensures var s := StepInto(v, t); FindMember(s.container.members, t.name) == s.at
  {
    var s := StepInto(v, t);
    var members := if v.ObjectValue? then v.members else [];
    if FindMember(members, t.name) == |members| { FindAppended(members, t.name); }
  }

  /** After Create, Get resolves to the new Null or to the value that was there; only where a "-" token
      met an array it does not, since "-" names the element after the last. */
  predicate GetsCreated(v: GenericValue, ts: seq<Token>)
  {
    Get(Create(v, ts).0, ts) ==
      if Appends(v, ts) then None else if Get(v, ts).Some? then Get(v, ts) else Some(NullValue)
  }

  /** It does so whenever no "-" token carries an index. */
  lemma {:induction false} CreateThenGet(v: GenericValue, ts: seq<Token>)
    requires AllBare(ts)
    ensures GetsCreated(v, ts)
    decreases |ts|
  {
    hide StepInto, Resolve, SetChild;
    if ts != [] {
      var s := StepInto(v, ts[0]);
      var before := Child(s.container, s.at);
      var c := Create(before, ts[1..]).0;
      StepCases(v, ts[0]);
      StepResolves(v, ts[0], c);
      CreateThenGet(before, ts[1..]);
      if !s.existed { NullGet(ts[1..]); }
    }
  }

  /** Nothing resolves below Null. */
  lemma NullGet(ts: seq<Token>)
    ensures Get(NullValue, ts).Some? ==> Get(NullValue, ts) == Some(NullValue)
  {
  }

  // ----- when a "-" token carries an index

  /** Nested objects in which every token resolves by its name. */
  function ByNames(ts: seq<Token>): GenericValue
    decreases |ts|
  {
    if ts == [] then NullValue else ObjectValue([Member(StringValue(ts[0].name), ByNames(ts[1..]))])
  }

  /** The same, but token k meets an array that has an element at its index. */
  function ByNamesBut(ts: seq<Token>, k: nat): GenericValue
    requires k < |ts|
    decreases |ts|
  {
    if k == 0 then ArrayValue(seq(ts[0].index + 1, _ => ByNames(ts[1..])))
    else ObjectValue([Member(StringValue(ts[0].name), ByNamesBut(ts[1..], k - 1))])
  }

  lemma {:induction false} NamesResolve(ts: seq<Token>)
    ensures Get(ByNames(ts), ts).Some?
    decreases |ts|
  {
    if ts != [] { NamesResolve(ts[1..]); }
  }

  /** An index on a "-" token: Get follows it, Create appends. */
  lemma {:induction false} DashBreaks(ts: seq<Token>, k: nat)
    requires k < |ts| && !Bare(ts[k])
    ensures var v := ByNamesBut(ts, k);
      Get(v, ts).Some? && !Create(v, ts).1 && Appends(v, ts) && Get(Create(v, ts).0, ts).Some?
    decreases |ts|
  {
    if k == 0 {
      NamesResolve(ts[1..]);
      var v := ByNamesBut(ts, 0);
      var v' := Create(v, ts).0;
      assert v'.elements[ts[0].index] == v.elements[ts[0].index];
    } else {
      DashBreaks(ts[1..], k - 1);
    }
  }

  /** Both laws hold of every tree if and only if no "-" token carries an index. */
  lemma LawsExact(ts: seq<Token>)
    ensures (forall v :: FindsExisting(v, ts)) <==> AllBare(ts)
    ensures (forall v :: GetsCreated(v, ts)) <==> AllBare(ts)
  {
    hide Create, Get, Appends, ByNamesBut, Bare;
    if AllBare(ts) {
      forall v ensures FindsExisting(v, ts) && GetsCreated(v, ts) {
        CreateFindsExisting(v, ts);
        CreateThenGet(v, ts);
      }
    } else {
      var k :| 0 <= k < |ts| && !Bare(ts[k]);
      DashBreaks(ts, k);
      assert !FindsExisting(ByNamesBut(ts, k), ts) && !GetsCreated(ByNamesBut(ts, k), ts);
    }
  }

  /** The smallest case: on the array [null], the token ("-", 0) resolves, and Create says it is new. */
  lemma IndexedDash()
    ensures var v, ts := ArrayValue([NullValue]), [Token([MINUS], 0)];
      Get(v, ts) == Some(NullValue) && !Create(v, ts).1 && !FindsExisting(v, ts) && !GetsCreated(v, ts)
  {
    var v, ts := ArrayValue([NullValue]), [Token([MINUS], 0)];
    assert ts[1..] == [];
    assert Create(v, ts).0 == ArrayValue([NullValue, NullValue]);
  }

  // ----- Erase

  function Without(v: GenericValue, k: nat): GenericValue
    requires HasChild(v, k)
  {
    if v.ObjectValue? then ObjectValue(v.members[..k] + v.members[k + 1..])
    else ArrayValue(v.elements[..k] + v.elements[k + 1..])
  }

  /** Erase: the new tree, and whether a value was found and erased. */
  function Erase(v: GenericValue, ts: seq<Token>): (GenericValue, bool)
    decreases |ts|
  {
    if ts == [] then (v, false)
    else
      match Resolve(v, ts[0])
      case None => (v, false)
      case Some(k) =>
        if |ts| == 1 then (Without(v, k), true)
        else
          var (c, erased) := Erase(Child(v, k), ts[1..]);
          (SetChild(v, k, c), erased)
  }

  /** The parent of the value a pointer resolves to, and its place there. */
  function Parent(ts: seq<Token>): seq<Token>
    requires ts != []
  {
    ts[..|ts| - 1]
  }

  lemma ResolveSet(v: GenericValue, t: Token, c: GenericValue)
    requires Resolve(v, t).Some?
    ensures Resolve(SetChild(v, Resolve(v, t).value, c), t) == Resolve(v, t)
  {
    if v.ObjectValue? { FindSet(v.members, Resolve(v, t).value, t.name, c); }
  }

  function Size(v: GenericValue): nat
  {
    if v.ObjectValue? then |v.members| else if v.ArrayValue? then |v.elements| else 0
  }

  /** v' is v without its child k: the children before it stay where they are, those behind it move up, and members
      keep their names. */
  predicate LosesChild(v: GenericValue, v': GenericValue, k: nat)
  {
    && HasChild(v, k) && Size(v') + 1 == Size(v)
    && (v.ObjectValue? ==>
          v'.ObjectValue? &&
          forall i :: 0 <= i < |v'.members| ==> v'.members[i] == v.members[if i < k then i else i + 1])
    && (v.ArrayValue? ==>
          v'.ArrayValue? &&
          forall i :: 0 <= i < |v'.elements| ==> v'.elements[i] == v.elements[if i < k then i else i + 1])
  }

  lemma WithoutLoses(v: GenericValue, k: nat)
    requires HasChild(v, k)
    ensures LosesChild(v, Without(v, k), k)
  {
  }

  /** Erase returns true exactly when the pointer is not empty and Get resolves. Otherwise the tree is
      unchanged; and then the parent has lost that child and nothing else. */
  lemma EraseRemoves(v: GenericValue, ts: seq<Token>)
    ensures Erase(v, ts).1 <==> ts != [] && Get(v, ts).Some?
    ensures !Erase(v, ts).1 ==> Erase(v, ts).0 == v
    ensures Erase(v, ts).1 ==>
      var parent, parent', t := Get(v, Parent(ts)), Get(Erase(v, ts).0, Parent(ts)), ts[|ts| - 1];
      && parent.Some? && parent'.Some? && Resolve(parent.value, t).Some?
      && LosesChild(parent.value, parent'.value, Resolve(parent.value, t).value)
  {
    hide Erase, Get, Resolve, LosesChild;
    EraseAt(v, ts);
    if Erase(v, ts).1 {
      var parent := Get(v, Parent(ts)).value;
      WithoutLoses(parent, Resolve(parent, ts[|ts| - 1]).value);
    }
  }

  lemma {:induction false} EraseAt(v: GenericValue, ts: seq<Token>)
    ensures Erase(v, ts).1 <==> ts != [] && Get(v, ts).Some?
    ensures !Erase(v, ts).1 ==> Erase(v, ts).0 == v
    ensures Erase(v, ts).1 ==>
      var parent, t := Get(v, Parent(ts)), ts[|ts| - 1];
      && parent.Some? && Resolve(parent.value, t).Some?
      && Get(Erase(v, ts).0, Parent(ts)) == Some(Without(parent.value, Resolve(parent.value, t).value))
    decreases |ts|
  {
    hide Resolve, SetChild, Without;
    if ts != [] && Resolve(v, ts[0]).Some? {
      var k := Resolve(v, ts[0]).value;
      if |ts| > 1 {
        EraseAt(Child(v, k), ts[1..]);
        SetSame(v, k);
        ResolveSet(v, ts[0], Erase(Child(v, k), ts[1..]).0);
        assert Parent(ts)[1..] == Parent(ts[1..]) && Parent(ts)[0] == ts[0];
      } else {
        assert Parent(ts) == [] && ts[1..] == [];
      }
    }
  }

  /** The path ps leaves the path ts: at some token it takes another child, which is not one that moves up when the
      child of the last token is erased. */
  predicate Leaves(v: GenericValue, ts: seq<Token>, ps: seq<Token>)
    decreases |ts|
  {
    && ts != [] && ps != [] && Resolve(v, ts[0]).Some? && Resolve(v, ps[0]).Some?
    && var k, l := Resolve(v, ts[0]).value, Resolve(v, ps[0]).value;
      if k != l then |ts| > 1 || v.ObjectValue? || l < k
      else |ts| > 1 && Leaves(Child(v, k), ts[1..], ps[1..])
  }

  /** Another place keeps its child, and a token that leads there still does. */
  lemma ElsewhereSet(v: GenericValue, k: nat, c: GenericValue, t: Token)
    requires HasChild(v, k) && Resolve(v, t).Some? && Resolve(v, t).value != k
    ensures Resolve(SetChild(v, k, c), t) == Resolve(v, t)
    ensures Child(SetChild(v, k, c), Resolve(v, t).value) == Child(v, Resolve(v, t).value)
  {
    if v.ObjectValue? { FindSet(v.members, k, t.name, c); }
  }

  lemma {:induction false} FindRemoved(members: seq<Member>, k: nat, name: seq<byte>)
    requires k < |members| && members[k].name != StringValue(name) && FindMember(members, name) < |members|
    ensures var l := FindMember(members, name);
      FindMember(members[..k] + members[k + 1..], name) == if l < k then l else l - 1
    decreases |members|
  {
    hide FindMember;
    var rest := members[..k] + members[k + 1..];
    FindFirst(members, name);
    if k == 0 {
      assert rest == members[1..];
    } else {
      assert rest[0] == members[0];
      FindFirst(rest, name);
      if members[0].name != StringValue(name) {
        TailRemoved(members, k);
        FindRemoved(members[1..], k - 1, name);
      }
    }
  }

  lemma FindFirst(members: seq<Member>, name: seq<byte>)
    requires members != []
    ensures FindMember(members, name) ==
      if members[0].name == StringValue(name) then 0 else 1 + FindMember(members[1..], name)
  {
  }

  lemma TailRemoved(members: seq<Member>, k: nat)
    requires 0 < k < |members|
    ensures (members[..k] + members[k + 1..])[1..] == members[1..][..k - 1] + members[1..][k..]
  {
  }

  lemma ElsewhereRemoved(v: GenericValue, t: Token, p: Token)
    requires Resolve(v, t).Some? && Resolve(v, p).Some? && Resolve(v, t) != Resolve(v, p)
    requires v.ObjectValue? || Resolve(v, p).value < Resolve(v, t).value
    ensures var w := Without(v, Resolve(v, t).value);
      Resolve(w, p).Some? && Child(w, Resolve(w, p).value) == Child(v, Resolve(v, p).value)
  {
    if v.ObjectValue? {
      var k, l := Resolve(v, t).value, Resolve(v, p).value;
      assert v.members[k].name != v.members[l].name;
      FindRemoved(v.members, k, p.name);
    }
  }

  /** Whatever a path that leaves the erased one got, it still gets. */
  lemma {:induction false} EraseLeavesOthers(v: GenericValue, ts: seq<Token>, ps: seq<Token>)
    requires Leaves(v, ts, ps)
    ensures Get(Erase(v, ts).0, ps) == Get(v, ps)
    decreases |ts|
  {
    hide Resolve, SetChild, Without;
    var k, l := Resolve(v, ts[0]).value, Resolve(v, ps[0]).value;
    if |ts| == 1 {
      ElsewhereRemoved(v, ts[0], ps[0]);
    } else {
      var c := Erase(Child(v, k), ts[1..]).0;
      if k != l {
        ElsewhereSet(v, k, c, ps[0]);
      } else {
        EraseLeavesOthers(Child(v, k), ts[1..], ps[1..]);
        ResolveSet(v, ts[0], c);
        SameToken(v, k, c, ts[0], ps[0]);
      }
    }
  }

  /** Two tokens that lead to the same place still do when its child is replaced. */
  lemma SameToken(v: GenericValue, k: nat, c: GenericValue, t: Token, p: Token)
    requires Resolve(v, t) == Resolve(v, p) == Some(k)
    ensures Resolve(SetChild(v, k, c), p) == Some(k)
  {
    ResolveSet(v, p, c);
  }

  // ----- what Create makes and what it leaves

  /** Where Create goes from a value: an index leads into an array, or an object by its name; any other token into
      an object; "-" behind the last element of an array. A value of another kind gives way to an empty container. */
  lemma CreateShapes(v: GenericValue, ts: seq<Token>) returns (at: nat)
    requires ts != []
    ensures var v', t := Create(v, ts).0, ts[0];
      var appends := v.ArrayValue? && IsDash(t);
      var toObject := !appends && (t.index == INVALID_INDEX || v.ObjectValue?);
      && v'.ObjectValue? == toObject && v'.ArrayValue? == !toObject
      && HasChild(v', at)
      && (appends ==> at == |v.elements| && |v'.elements| == at + 1)
      && (!toObject && !appends ==>
            at == t.index && |v'.elements| == Max(at + 1, if v.ArrayValue? then |v.elements| else 0))
      && (toObject ==>
            v'.members[at].name == StringValue(t.name) &&
            |v'.members| == Max(at + 1, if v.ObjectValue? then |v.members| else 0))
    ensures var v' := Create(v, ts).0;
      && (v'.ObjectValue? ==>
            forall i :: 0 <= i < |v'.members| && i != at ==>
              v.ObjectValue? && i < |v.members| && v'.members[i] == v.members[i])
      && (v'.ArrayValue? ==>
            forall i :: 0 <= i < |v'.elements| && i != at ==>
              v'.elements[i] == if v.ArrayValue? && i < |v.elements| then v.elements[i] else NullValue)
    ensures Child(Create(v, ts).0, at) ==
      Create(if Create(v, ts).0.ObjectValue? == v.ObjectValue? && HasChild(v, at) then Child(v, at) else NullValue,
             ts[1..]).0
  {
    at := StepInto(v, ts[0]).at;
  }

  /** The path ps leaves the path ts on the way that Create goes: it takes another child, of a value that Create
      keeps. */
  predicate Parts(v: GenericValue, ts: seq<Token>, ps: seq<Token>)
    decreases |ts|
  {
    && ts != [] && ps != [] && Resolve(v, ps[0]).Some?
    && (v.ArrayValue? && !IsDash(ts[0]) ==> ts[0].index != INVALID_INDEX)
    && (Resolve(v, ts[0]) == Resolve(v, ps[0]) && !(v.ArrayValue? && IsDash(ts[0])) ==>
          Parts(Child(v, Resolve(v, ts[0]).value), ts[1..], ps[1..]))
  }

  lemma StepKeeps(v: GenericValue, t: Token, p: Token)
    requires Resolve(v, p).Some? && (v.ArrayValue? && !IsDash(t) ==> t.index != INVALID_INDEX)
    ensures var s := StepInto(v, t);
      && Resolve(s.container, p) == Resolve(v, p)
      && Child(s.container, Resolve(v, p).value) == Child(v, Resolve(v, p).value)
      && (Resolve(v, t) == Resolve(v, p) && !(v.ArrayValue? && IsDash(t)) ==> s.at == Resolve(v, p).value)
      && (Resolve(v, t) != Resolve(v, p) || (v.ArrayValue? && IsDash(t)) ==> s.at != Resolve(v, p).value)
  {
    if v.ObjectValue? && FindMember(v.members, t.name) == |v.members| {
      FindInFront(v.members, [Member(StringValue(t.name), NullValue)], p.name);
    }
  }

  lemma {:induction false} FindInFront(members: seq<Member>, more: seq<Member>, name: seq<byte>)
    requires FindMember(members, name) < |members|
    ensures FindMember(members + more, name) == FindMember(members, name)
    decreases |members|
  {
    hide FindMember;
    FindFirst(members, name);
    FindFirst(members + more, name);
    if members[0].name != StringValue(name) {
      assert (members + more)[1..] == members[1..] + more;
      FindInFront(members[1..], more, name);
    }
  }

  /** Whatever a path that leaves the created one got, it still gets. */
  lemma {:induction false} CreateLeavesOthers(v: GenericValue, ts: seq<Token>, ps: seq<Token>)
    requires Parts(v, ts, ps)
    ensures Get(Create(v, ts).0, ps) == Get(v, ps)
    decreases |ts|
  {
    hide Resolve, SetChild, StepInto;
    var s, l := StepInto(v, ts[0]), Resolve(v, ps[0]).value;
    StepKeeps(v, ts[0], ps[0]);
    var c := Create(Child(s.container, s.at), ts[1..]).0;
    if s.at != l {
      ElsewhereSet(s.container, s.at, c, ps[0]);
    } else {
      CreateLeavesOthers(Child(v, l), ts[1..], ps[1..]);
      ResolveSet(s.container, ps[0], c);
    }
  }
}
