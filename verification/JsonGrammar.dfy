/**
  The grammar of the documents RapidJSON's reader accepts, with comments, trailing commas, NaN and infinity as the flags
  allow them, and what each document denotes: the events of its values. The recursive and the iterative parser accept
  exactly these documents and report exactly what they denote.
 */
module JsonGrammar {
  import opened Wrap32
  import opened JsonText
  import opened JsonParse
  import opened JsonEquivalence
  import opened JsonNumbers
  import opened JsonLexemes

  // ----- documents

  /** A value as it is written. */
  datatype Tree =
    | NullWord
    | BoolWord(b: bool)
    | NumberText(n: Numeral)
    | Quotation(cs: seq<Char>)
    | Group(isObject: bool, gap: Gap, items: Items)

  /** A name and the gaps around its colon. */
  datatype Name = Name(cs: seq<Char>, before: Gap, after: Gap)

  /** The members of an object or the elements of an array, each with the gap behind it, then the comma and the gap
      behind that. */
  datatype Items = Over | Item(name: Option<Name>, value: Tree, gap: Gap, comma: Option<Gap>, rest: Items)

  datatype Document = Document(before: Gap, value: Tree, after: Gap, comment: Option<seq<byte>>)

  function Opening(isObject: bool): byte { if isObject then LBRACE else LBRACKET }

  function Closing(isObject: bool): byte { if isObject then RBRACE else RBRACKET }

  // ----- their texts

  function NameText(name: Option<Name>): seq<byte>
  {
    if name == None then []
    else StringText(name.value.cs) + (GapText(name.value.before) + ([COLON] + GapText(name.value.after)))
  }

  function CommaText(comma: Option<Gap>): seq<byte> { if comma == None then [] else [COMMA] + GapText(comma.value) }

  function TreeText(tree: Tree): seq<byte>
    decreases tree, 0
  {
    match tree
    case NullWord => [SMALL_N] + ULL
    case BoolWord(b) => if b then [SMALL_T] + RUE else [SMALL_F] + ALSE
    case NumberText(n) => NumeralText(n)
    case Quotation(cs) => StringText(cs)
    case Group(isObject, gap, items) =>
      [Opening(isObject)] + (GapText(gap) + (ItemsText(items) + [Closing(isObject)]))
  }

  function ItemsText(items: Items): seq<byte>
    decreases items, 0
  {
    match items
    case Over => []
    case Item(name, value, gap, comma, rest) => NameText(name) + (TreeText(value) + TailText(gap, comma, rest))
  }

  /** What stands behind a member or an element. */
  function TailText(gap: Gap, comma: Option<Gap>, rest: Items): seq<byte>
    decreases rest, 1
  {
    GapText(gap) + (CommaText(comma) + ItemsText(rest))
  }

  function DocumentText(d: Document): seq<byte>
  {
    GapText(d.before) + (TreeText(d.value) + (GapText(d.after) + CommentText(d.comment)))
  }

  // ----- what is allowed

  predicate NameFits(g: Grammar, isObject: bool, name: Option<Name>)
  {
    && (name.Some? <==> isObject)
    && (name.Some? ==> AllFit(name.value.cs) && GapFits(g, name.value.before) && GapFits(g, name.value.after))
  }

  predicate TreeFits(g: Grammar, tree: Tree)
    decreases tree, 0
  {
    match tree
    case NullWord => true
    case BoolWord(_) => true
    case NumberText(n) => NumeralFits(g, n)
    case Quotation(cs) => AllFit(cs)
    case Group(isObject, gap, items) => GapFits(g, gap) && ItemsFits(g, isObject, items)
  }

  predicate ItemsFits(g: Grammar, isObject: bool, items: Items)
    decreases items, 0
  {
    match items
    case Over => true
    case Item(name, value, gap, comma, rest) =>
      && NameFits(g, isObject, name) && TreeFits(g, value) && GapFits(g, gap) && CommaFits(g, comma, rest == Over)
      && ItemsFits(g, isObject, rest)
  }

  /** A comma stands between two items, and behind the last one only if trailing commas are allowed. */
  predicate CommaFits(g: Grammar, comma: Option<Gap>, last: bool)
  {
    if comma == None then last else GapFits(g, comma.value) && (last ==> g.trailing)
  }

  predicate DocumentFits(g: Grammar, d: Document)
  {
    GapFits(g, d.before) && TreeFits(g, d.value) && GapFits(g, d.after) && CommentFits(g, d.comment)
  }

  // ----- what they denote

  function NameEvents(name: Option<Name>): seq<Event>
    requires name.Some? ==> AllFit(name.value.cs)
  {
    if name == None then [] else [Key(CharsBytes(name.value.cs))]
  }

  function StartOf(isObject: bool): Event { if isObject then StartObject else StartArray }

  function EndOf(isObject: bool, count: u32): Event { if isObject then EndObject(count) else EndArray(count) }

  function TreeEvents(g: Grammar, tree: Tree): seq<Event>
    requires TreeFits(g, tree)
    decreases tree
  {
    match tree
    case NullWord => [Null]
    case BoolWord(b) => [Bool(b)]
    case NumberText(n) => [NumeralEvent(n)]
    case Quotation(cs) => [String(CharsBytes(cs))]
    case Group(isObject, _, items) =>
      [StartOf(isObject)] + ItemsEvents(g, isObject, items) + [EndOf(isObject, Wrap(Count(items)))]
  }

  function ItemsEvents(g: Grammar, isObject: bool, items: Items): seq<Event>
    requires ItemsFits(g, isObject, items)
    decreases items
  {
    match items
    case Over => []
    case Item(name, value, _, _, rest) =>
      NameEvents(name) + TreeEvents(g, value) + ItemsEvents(g, isObject, rest)
  }

  function Count(items: Items): nat { if items == Over then 0 else 1 + Count(items.rest) }

  // ----- the handler

  /** The handler has agreed, or will, to every event. */
  predicate Agreed(env: Env, ev: seq<Event>) { forall k :: 0 < k <= |ev| ==> env.handler(ev[..k]) }

  lemma AgreedPrefix(env: Env, a: seq<Event>, b: seq<Event>)
    requires Agreed(env, a + b)
    ensures Agreed(env, a)
  {
    forall k | 0 < k <= |a| ensures env.handler(a[..k]) { assert (a + b)[..k] == a[..k]; }
  }

  lemma TellAgreed(env: Env, pos: nat, ev: seq<Event>, e: Event)
    requires Agreed(env, ev)
    ensures Agreed(env, ev + [e]) <==> Tell(env, pos, ev, e) == Ok(pos, ev + [e])
    ensures Tell(env, pos, ev, e).Ok? ==> Tell(env, pos, ev, e) == Ok(pos, ev + [e])
  {
    var w := ev + [e];
    assert w[..|w|] == w;
    forall k | 0 < k <= |ev| ensures env.handler(w[..k]) { assert w[..k] == ev[..k]; }
  }

  // ----- first bytes

  /** A byte at which the reader stops skipping. */
  predicate IsSolid(c: byte) { !IsSpace(c) && c != SLASH }

  /** A byte that begins a value. */
  predicate StartsTree(c: byte)
  {
    c in {SMALL_N, SMALL_T, SMALL_F, QUOTE, LBRACE, LBRACKET} || StartsNumber(c)
  }

  lemma TreeStarts(g: Grammar, tree: Tree)
    requires TreeFits(g, tree)
    ensures TreeText(tree) != [] && StartsTree(TreeText(tree)[0])
  {
    if tree.NumberText? { NumeralStarts(g, tree.n); }
    hide NumeralText, NumeralFits, StartsNumber, CharsText, GapText, ItemsText;
  }

  /** What may stand behind a value: white space, a comment, a comma, a closing bracket or the end. */
  predicate Follows(c: byte)
  {
    IsSpace(c) || c == SLASH || c == COMMA || c == RBRACE || c == RBRACKET || c == 0
  }

  /** The byte c does not continue the value. */
  predicate TreeEnds(tree: Tree, c: byte) { tree.NumberText? ==> Ends(tree.n, c) }

  lemma FollowsEnds(tree: Tree, c: byte)
    requires Follows(c)
    ensures TreeEnds(tree, c)
  {
    if tree.NumberText? { StopsAll(tree.n, c); }
  }

  lemma GapStarts(g: Grammar, gap: Gap)
    requires GapFits(g, gap) && gap != []
    ensures GapText(gap) != [] && Follows(GapText(gap)[0])
  {
    var b := gap[0];
    assert BlankFits(g, b) && BlankText(b) != [] && GapText(gap)[0] == BlankText(b)[0];
  }

  // ----- the reader takes every document

  /** A gap in front of a byte at which skipping stops. */
  lemma GapSkipped(env: Env, t: Text, i: nat, ev: seq<Event>, gap: Gap)
    requires GapFits(GrammarOf(env), gap) && At(t, i, GapText(gap)) && IsSolid(Peek(t, i + |GapText(gap)|))
    ensures Skipped(env, t, i, ev) == Ok(i + |GapText(gap)|, ev)
  {
    hide Skip, GapText, GapFits;
    GapRead(env, t, i, gap);
    SkipNothing(t, env.comments, i + |GapText(gap)|);
  }

  lemma StringRead(env: Env, t: Text, i: nat, ev: seq<Event>, cs: seq<Char>, isKey: bool)
    requires AllFit(cs) && At(t, i, StringText(cs))
    ensures Peek(t, i) == QUOTE
    ensures StringAt(env, t, i, ev, isKey) ==
      Tell(env, i + |StringText(cs)|, ev, if isKey then Key(CharsBytes(cs)) else String(CharsBytes(cs)))
  {
    hide At, Decode, CharsText, CharsBytes, Tell;
    AtPeek(t, i, StringText(cs), 0);
    AtSplit(t, i, [QUOTE], CharsText(cs) + [QUOTE]);
    CharsRead(t, i + 1, cs);
  }

  /** What a scalar is reported as. */
  function ScalarEvent(g: Grammar, tree: Tree): (e: Event)
    requires TreeFits(g, tree) && !tree.Group?
    ensures TreeEvents(g, tree) == [e]
  {
    TreeEvents(g, tree)[0]
  }

  lemma ScalarRead(env: Env, t: Text, i: nat, ev: seq<Event>, tree: Tree)
    requires TreeFits(GrammarOf(env), tree) && !tree.Group? && At(t, i, TreeText(tree))
    requires TreeEnds(tree, Peek(t, i + |TreeText(tree)|))
    ensures Value(env, t, i, ev) == Tell(env, i + |TreeText(tree)|, ev, ScalarEvent(GrammarOf(env), tree))
  {
    hide At, Tell, Literal, StringAt, NumberAt, NumeralText, NumeralFits, Ends, StringText, AllFit;
    match tree
    case NullWord => LiteralRead(env, t, i, ev, SMALL_N, ULL, Null);
    case BoolWord(b) =>
      if b { LiteralRead(env, t, i, ev, SMALL_T, RUE, Bool(true)); }
      else { LiteralRead(env, t, i, ev, SMALL_F, ALSE, Bool(false)); }
    case NumberText(n) =>
      NumeralStarts(GrammarOf(env), n);
      AtPeek(t, i, NumeralText(n), 0);
      NumeralRead(env, t, i, ev, n);
    case Quotation(cs) => StringRead(env, t, i, ev, cs, false);
  }

  // ----- the two loops as one

  /** The member loop or the element loop. */
  function LoopAt(env: Env, t: Text, i: nat, ev: seq<Event>, count: u32, isObject: bool): Result
  {
    if isObject then Members(env, t, i, ev, count) else Elements(env, t, i, ev, count)
  }

  function AfterAt(env: Env, t: Text, i: nat, ev: seq<Event>, count: u32, isObject: bool): Result
  {
    if isObject then AfterMember(env, t, i, ev, count) else AfterElement(env, t, i, ev, count)
  }

  function NamePart(env: Env, t: Text, i: nat, ev: seq<Event>, isObject: bool): (r: Result)
    ensures r.Ok? && i <= |t| ==> i <= r.pos <= |t|
  {
    if isObject then NameAt(env, t, i, ev) else Ok(i, ev)
  }

  /** A turn of a loop. */
  function ItemTurn(env: Env, t: Text, i: nat, ev: seq<Event>, count: u32, isObject: bool): Result
  {
    match NamePart(env, t, i, ev, isObject)
    case Err(code, told) => Err(code, told)
    case Ok(c, ev1) =>
      match Value(env, t, c, ev1)
      case Err(code, told) => Err(code, told)
      case Ok(d, ev2) => AfterAt(env, t, d, ev2, Wrap(count + 1), isObject)
  }

  lemma LoopIs(env: Env, t: Text, i: nat, ev: seq<Event>, count: u32, isObject: bool)
    ensures LoopAt(env, t, i, ev, count, isObject) == ItemTurn(env, t, i, ev, count, isObject)
  {
    hide Value, NameAt, AfterMember, AfterElement;
  }

  /** The end of a turn. */
  function AfterTurn(env: Env, t: Text, i: nat, ev: seq<Event>, count: u32, isObject: bool): Result
  {
    match Skipped(env, t, i, ev)
    case Err(code, told) => Err(code, told)
    case Ok(j, _) =>
      if Peek(t, j) == COMMA then
        match Skipped(env, t, j + 1, ev)
        case Err(code, told) => Err(code, told)
        case Ok(k, _) =>
          if env.trailing && Peek(t, k) == Closing(isObject) then Tell(env, k + 1, ev, EndOf(isObject, count))
          else LoopAt(env, t, k, ev, count, isObject)
      else if Peek(t, j) == Closing(isObject) then Tell(env, j + 1, ev, EndOf(isObject, count))
      else Err(if isObject then ObjectMissCommaOrCurlyBracket else ArrayMissCommaOrSquareBracket, ev)
  }

  lemma AfterIs(env: Env, t: Text, i: nat, ev: seq<Event>, count: u32, isObject: bool)
    ensures AfterAt(env, t, i, ev, count, isObject) == AfterTurn(env, t, i, ev, count, isObject)
  {
    hide Members, Elements, Skipped, Tell;
  }

  function GroupTurn(env: Env, t: Text, i: nat, ev: seq<Event>, isObject: bool): Result
  {
    match Tell(env, i + 1, ev, StartOf(isObject))
    case Err(code, told) => Err(code, told)
    case Ok(_, ev1) =>
      match Skipped(env, t, i + 1, ev1)
      case Err(code, told) => Err(code, told)
      case Ok(j, _) =>
        if Peek(t, j) == Closing(isObject) then Tell(env, j + 1, ev1, EndOf(isObject, 0))
        else LoopAt(env, t, j, ev1, 0, isObject)
  }

  lemma GroupIs(env: Env, t: Text, i: nat, ev: seq<Event>, isObject: bool)
    requires Peek(t, i) == Opening(isObject)
    ensures Value(env, t, i, ev) == GroupTurn(env, t, i, ev, isObject)
  {
    hide Members, Elements, Skipped, Tell;
  }

  // ----- containers are read

  /** Items begin with a byte at which skipping stops and that closes nothing. */
  lemma ItemStarts(g: Grammar, isObject: bool, items: Items)
    requires items.Item? && ItemsFits(g, isObject, items)
    ensures var w := NameText(items.name) + TreeText(items.value);
      w != [] && IsSolid(w[0]) && w[0] != Closing(isObject)
  {
    if items.name == None { TreeStarts(g, items.value); }
    hide TreeText, GapText, CharsText, TreeFits, NumeralText;
  }

  lemma NameRead(env: Env, t: Text, i: nat, ev: seq<Event>, isObject: bool, name: Option<Name>)
    requires NameFits(GrammarOf(env), isObject, name) && At(t, i, NameText(name))
    requires StartsTree(Peek(t, i + |NameText(name)|)) && Agreed(env, ev + NameEvents(name))
    ensures NamePart(env, t, i, ev, isObject) == Ok(i + |NameText(name)|, ev + NameEvents(name))
  {
    hide At, StringText, GapText, Skipped, StringAt, CharsBytes, AllFit, GapFits, Tell, Agreed, IsSolid;
    if name == None {
      assert ev + NameEvents(name) == ev;
    } else {
      var n := name.value;
      var j := i + |StringText(n.cs)|;
      var k := j + |GapText(n.before)|;
      NameSplit(t, i, n);
      AgreedPrefix(env, ev, NameEvents(name));
      TellAgreed(env, j, ev, Key(CharsBytes(n.cs)));
      StringRead(env, t, i, ev, n.cs, true);
      StartIsSolid(Peek(t, i + |NameText(name)|));
      GapSkipped(env, t, j, ev + NameEvents(name), n.before);
      GapSkipped(env, t, k + 1, ev + NameEvents(name), n.after);
    }
  }

  lemma StartIsSolid(c: byte)
    requires StartsTree(c)
    ensures IsSolid(c)
  {
  }

  /** Where the parts of a name stand. */
  lemma NameSplit(t: Text, i: nat, n: Name)
    requires At(t, i, NameText(Some(n)))
    ensures var j := i + |StringText(n.cs)|;
      var k := j + |GapText(n.before)|;
      && At(t, i, StringText(n.cs)) && At(t, j, GapText(n.before)) && Peek(t, k) == COLON && IsSolid(COLON)
      && At(t, k + 1, GapText(n.after)) && k + 1 + |GapText(n.after)| == i + |NameText(Some(n))|
  {
    hide At, StringText, GapText;
    var j := i + |StringText(n.cs)|;
    var k := j + |GapText(n.before)|;
    AtSplit(t, i, StringText(n.cs), GapText(n.before) + ([COLON] + GapText(n.after)));
    AtSplit(t, j, GapText(n.before), [COLON] + GapText(n.after));
    AtSplit(t, k, [COLON], GapText(n.after));
    AtPeek(t, k, [COLON], 0);
  }

  /** Where the parts of an item stand. */
  lemma ItemSplit(t: Text, i: nat, items: Items, close: byte)
    requires items.Item? && At(t, i, ItemsText(items) + [close])
    ensures var a := i + |NameText(items.name)|;
      var b := a + |TreeText(items.value)|;
      var tail := TailText(items.gap, items.comma, items.rest);
      && At(t, i, NameText(items.name)) && At(t, a, TreeText(items.value)) && At(t, b, tail + [close])
      && At(t, i, NameText(items.name) + TreeText(items.value)) && b + |tail| == i + |ItemsText(items)|
  {
    hide At, NameText, TreeText, TailText;
    var n, v, tail := NameText(items.name), TreeText(items.value), TailText(items.gap, items.comma, items.rest);
    assert ItemsText(items) + [close] == n + (v + (tail + [close]));
    AtSplit(t, i, n, v + (tail + [close]));
    AtSplit(t, i + |n|, v, tail + [close]);
    AtJoin(t, i, n, v);
  }

  lemma TailSplit(t: Text, i: nat, gap: Gap, comma: Option<Gap>, rest: Items, close: byte)
    requires At(t, i, TailText(gap, comma, rest) + [close])
    ensures var a := i + |GapText(gap)|;
      var b := a + |CommaText(comma)|;
      && At(t, i, GapText(gap)) && At(t, a, CommaText(comma)) && At(t, b, ItemsText(rest) + [close])
      && b + |ItemsText(rest)| == i + |TailText(gap, comma, rest)|
  {
    hide At, GapText, CommaText, ItemsText;
    assert TailText(gap, comma, rest) + [close] == GapText(gap) + (CommaText(comma) + (ItemsText(rest) + [close]));
    AtSplit(t, i, GapText(gap), CommaText(comma) + (ItemsText(rest) + [close]));
    AtSplit(t, i + |GapText(gap)|, CommaText(comma), ItemsText(rest) + [close]);
  }

  /** What stands behind a value in a container cannot continue it. */
  lemma TailFollows(g: Grammar, t: Text, i: nat, gap: Gap, comma: Option<Gap>, rest: Items, isObject: bool)
    requires GapFits(g, gap) && CommaFits(g, comma, rest == Over)
    requires At(t, i, TailText(gap, comma, rest) + [Closing(isObject)])
    ensures Follows(Peek(t, i))
    ensures IsSolid(Peek(t, i + |GapText(gap)|))
    ensures Peek(t, i + |GapText(gap)|) == if comma.Some? then COMMA else Closing(isObject)
  {
    hide At, GapText, TailText, ItemsText, CommaText, GapFits;
    TailSplit(t, i, gap, comma, rest, Closing(isObject));
    AfterGap(t, i + |GapText(gap)|, comma, rest, isObject);
    GapFollows(g, t, i, gap);
  }

  lemma GapFollows(g: Grammar, t: Text, i: nat, gap: Gap)
    requires GapFits(g, gap) && At(t, i, GapText(gap)) && Follows(Peek(t, i + |GapText(gap)|))
    ensures Follows(Peek(t, i))
  {
    hide At, GapText, GapFits, Follows;
    if gap != [] {
      GapStarts(g, gap);
      AtPeek(t, i, GapText(gap), 0);
    } else {
      EmptyGap();
    }
  }

  lemma EmptyGap()
    ensures GapText([]) == []
  {
  }

  lemma AfterGap(t: Text, i: nat, comma: Option<Gap>, rest: Items, isObject: bool)
    requires At(t, i, CommaText(comma)) && At(t, i + |CommaText(comma)|, ItemsText(rest) + [Closing(isObject)])
    requires comma == None ==> rest == Over
    ensures Peek(t, i) == if comma.Some? then COMMA else Closing(isObject)
  {
    hide At, GapText;
    if comma.Some? {
      AtPeek(t, i, CommaText(comma), 0);
    } else {
      AtPeek(t, i, ItemsText(rest) + [Closing(isObject)], 0);
    }
  }

  // ----- every document is accepted

  lemma {:induction false} TreeRead(env: Env, t: Text, i: nat, ev: seq<Event>, tree: Tree)
    requires TreeFits(GrammarOf(env), tree) && At(t, i, TreeText(tree))
    requires TreeEnds(tree, Peek(t, i + |TreeText(tree)|))
    requires Agreed(env, ev + TreeEvents(GrammarOf(env), tree))
    ensures Value(env, t, i, ev) == Ok(i + |TreeText(tree)|, ev + TreeEvents(GrammarOf(env), tree))
    decreases tree, 1
  {
    hide At, Agreed, Tell, Value, TreeEnds, ScalarEvent;
    if tree.Group? {
      hide TreeFits, TreeText, TreeEvents;
      GroupRead(env, t, i, ev, tree);
    } else {
      AgreedPrefix(env, ev, TreeEvents(GrammarOf(env), tree));
      var e := ScalarEvent(GrammarOf(env), tree);
      hide TreeFits, TreeText, TreeEvents;
      ScalarRead(env, t, i, ev, tree);
      TellAgreed(env, i + |TreeText(tree)|, ev, e);
    }
  }

  /** The brackets of a container. */
  lemma GroupSplit(t: Text, i: nat, tree: Tree)
    requires tree.Group? && At(t, i, TreeText(tree))
    ensures var a := i + 1 + |GapText(tree.gap)|;
      && Peek(t, i) == Opening(tree.isObject) && At(t, i + 1, GapText(tree.gap))
      && At(t, a, ItemsText(tree.items) + [Closing(tree.isObject)])
      && a + |ItemsText(tree.items)| + 1 == i + |TreeText(tree)|
  {
    hide At, GapText, ItemsText;
    var inner := ItemsText(tree.items) + [Closing(tree.isObject)];
    AtPeek(t, i, TreeText(tree), 0);
    AtSplit(t, i, [Opening(tree.isObject)], GapText(tree.gap) + inner);
    AtSplit(t, i + 1, GapText(tree.gap), inner);
  }

  lemma {:induction false} GroupRead(env: Env, t: Text, i: nat, ev: seq<Event>, tree: Tree)
    requires tree.Group? && TreeFits(GrammarOf(env), tree) && At(t, i, TreeText(tree))
    requires Agreed(env, ev + TreeEvents(GrammarOf(env), tree))
    ensures Value(env, t, i, ev) == Ok(i + |TreeText(tree)|, ev + TreeEvents(GrammarOf(env), tree))
    decreases tree, 0
  {
    hide At, Agreed, Tell, Value, Skipped, LoopAt, GapText, ItemsText, TreeText, ItemsEvents;
    var Group(isObject, gap, items) := tree;
    var a := i + 1 + |GapText(gap)|;
    GroupSplit(t, i, tree);
    GroupIs(env, t, i, ev, isObject);
    var start, end := StartOf(isObject), EndOf(isObject, Wrap(Count(items)));
    var inner := ItemsEvents(GrammarOf(env), isObject, items);
    assert ev + TreeEvents(GrammarOf(env), tree) == ev + [start] + inner + [end] == ev + [start] + (inner + [end]);
    AgreedPrefix(env, ev + [start], inner + [end]);
    AgreedPrefix(env, ev, [start]);
    TellAgreed(env, i + 1, ev, start);
    InnerStarts(GrammarOf(env), t, a, isObject, items);
    GapSkipped(env, t, i + 1, ev + [start], gap);
    if items == Over {
      NoItems(GrammarOf(env), isObject);
      assert ev + [start] + inner == ev + [start];
      TellAgreed(env, a + 1, ev + [start], end);
    } else {
      ItemsRead(env, t, a, ev + [start], 0, isObject, items);
    }
  }

  lemma NoItems(g: Grammar, isObject: bool)
    ensures ItemsText(Over) == [] && ItemsEvents(g, isObject, Over) == [] && Wrap(Count(Over)) == 0
  {
  }

  /** What an opening bracket and its gap stand before. */
  lemma InnerStarts(g: Grammar, t: Text, i: nat, isObject: bool, items: Items)
    requires ItemsFits(g, isObject, items) && At(t, i, ItemsText(items) + [Closing(isObject)])
    ensures IsSolid(Peek(t, i)) && (Peek(t, i) == Closing(isObject) <==> items == Over)
  {
    hide At;
    if items == Over {
      NoItems(g, isObject);
      AtPeek(t, i, ItemsText(items) + [Closing(isObject)], 0);
    } else {
      ItemStarts(g, isObject, items);
      ItemSplit(t, i, items, Closing(isObject));
      hide ItemsFits, ItemsText;
      AtPeek(t, i, NameText(items.name) + TreeText(items.value), 0);
    }
  }

  lemma {:induction false} ItemsRead(env: Env, t: Text, i: nat, ev: seq<Event>, count: u32, isObject: bool,
                                     items: Items)
    requires items.Item? && ItemsFits(GrammarOf(env), isObject, items)
    requires At(t, i, ItemsText(items) + [Closing(isObject)])
    requires Agreed(env, ev + ItemsEvents(GrammarOf(env), isObject, items) +
                         [EndOf(isObject, Wrap(count + Count(items)))])
    ensures LoopAt(env, t, i, ev, count, isObject) ==
      Ok(i + |ItemsText(items)| + 1,
         ev + ItemsEvents(GrammarOf(env), isObject, items) + [EndOf(isObject, Wrap(count + Count(items)))])
    decreases items, 2
  {
    hide At, Agreed, Tell, Value, LoopAt, AfterAt, NamePart, NameText, TreeText, TailText, TreeEvents, NameEvents;
    var g := GrammarOf(env);
    var Item(name, value, gap, comma, rest) := items;
    var end := EndOf(isObject, Wrap(count + Count(items)));
    var ns, vs, rs := NameEvents(name), TreeEvents(g, value), ItemsEvents(g, isObject, rest);
    var a := i + |NameText(name)|;
    var b := a + |TreeText(value)|;
    ItemSplit(t, i, items, Closing(isObject));
    LoopIs(env, t, i, ev, count, isObject);
    assert ItemsEvents(g, isObject, items) == ns + vs + rs;
    assert ev + ItemsEvents(g, isObject, items) + [end] == ev + ns + vs + (rs + [end]);
    AgreedPrefix(env, ev + ns + vs, rs + [end]);
    AgreedPrefix(env, ev + ns, vs);
    TreeStarts(g, value);
    AtPeek(t, a, TreeText(value), 0);
    NameRead(env, t, i, ev, isObject, name);
    TailFollows(g, t, b, gap, comma, rest, isObject);
    FollowsEnds(value, Peek(t, b));
    TreeRead(env, t, a, ev + ns, value);
    hide ItemsText, ItemsEvents, ItemsFits, TreeFits, NameFits, TreeEnds;
    CountOn(count, rest);
    assert ev + ns + vs + (rs + [end]) == ev + ns + vs + rs + [end];
    TailRead(env, t, b, ev + ns + vs, Wrap(count + 1), isObject, gap, comma, rest);
  }

  lemma CountOn(count: u32, rest: Items)
    ensures Wrap(Wrap(count + 1) + Count(rest)) == Wrap(count + 1 + Count(rest))
  {
    WrapPlus(count + 1, Count(rest));
  }

  /** Between two items, or behind the last one. */
  lemma TailTurn(env: Env, t: Text, i: nat, ev: seq<Event>, count: u32, isObject: bool, gap: Gap, comma: Option<Gap>,
                 rest: Items)
    requires var g := GrammarOf(env);
      GapFits(g, gap) && CommaFits(g, comma, rest == Over) && ItemsFits(g, isObject, rest)
    requires At(t, i, TailText(gap, comma, rest) + [Closing(isObject)])
    ensures var b := i + |GapText(gap)| + |CommaText(comma)|;
      AfterTurn(env, t, i, ev, count, isObject) ==
      if rest == Over then Tell(env, b + 1, ev, EndOf(isObject, count)) else LoopAt(env, t, b, ev, count, isObject)
  {
    hide At, Tell, LoopAt, GapText, TailText, ItemsText, GapFits, ItemsFits, Skipped, IsSolid, CommaText, AfterTurn;
    var a := i + |GapText(gap)|;
    TailFollows(GrammarOf(env), t, i, gap, comma, rest, isObject);
    TailSplit(t, i, gap, comma, rest, Closing(isObject));
    GapSkipped(env, t, i, ev, gap);
    InnerStarts(GrammarOf(env), t, a + |CommaText(comma)|, isObject, rest);
    if comma.Some? {
      CommaSkipped(env, t, a, ev, comma);
    } else {
      NoComma();
    }
    TurnBy(env, t, i, a, a + |CommaText(comma)|, ev, count, isObject, comma, rest == Over);
  }

  lemma NoComma()
    ensures CommaText(None) == []
  {
  }

  lemma CommaSkipped(env: Env, t: Text, i: nat, ev: seq<Event>, comma: Option<Gap>)
    requires comma.Some? && GapFits(GrammarOf(env), comma.value) && At(t, i, CommaText(comma))
    requires IsSolid(Peek(t, i + |CommaText(comma)|))
    ensures Skipped(env, t, i + 1, ev) == Ok(i + |CommaText(comma)|, ev)
  {
    hide At, GapText, Skipped, IsSolid;
    AtSplit(t, i, [COMMA], GapText(comma.value));
    GapSkipped(env, t, i + 1, ev, comma.value);
  }

  /** The end of a turn, when both gaps have been skipped. */
  lemma TurnBy(env: Env, t: Text, i: nat, a: nat, b: nat, ev: seq<Event>, count: u32, isObject: bool,
               comma: Option<Gap>, last: bool)
    requires Skipped(env, t, i, ev) == Ok(a, ev)
    requires Peek(t, a) == if comma.Some? then COMMA else Closing(isObject)
    requires if comma.Some? then Skipped(env, t, a + 1, ev) == Ok(b, ev) else a == b
    requires CommaFits(GrammarOf(env), comma, last) && (Peek(t, b) == Closing(isObject) <==> last)
    ensures AfterTurn(env, t, i, ev, count, isObject) ==
      if last then Tell(env, b + 1, ev, EndOf(isObject, count)) else LoopAt(env, t, b, ev, count, isObject)
  {
    hide Skipped, Tell, LoopAt;
  }

  lemma {:induction false} TailRead(env: Env, t: Text, i: nat, ev: seq<Event>, count: u32, isObject: bool, gap: Gap,
                                    comma: Option<Gap>, rest: Items)
    requires var g := GrammarOf(env);
      GapFits(g, gap) && CommaFits(g, comma, rest == Over) && ItemsFits(g, isObject, rest)
    requires At(t, i, TailText(gap, comma, rest) + [Closing(isObject)])
    requires Agreed(env, ev + ItemsEvents(GrammarOf(env), isObject, rest) +
                         [EndOf(isObject, Wrap(count + Count(rest)))])
    ensures AfterAt(env, t, i, ev, count, isObject) ==
      Ok(i + |TailText(gap, comma, rest)| + 1,
         ev + ItemsEvents(GrammarOf(env), isObject, rest) + [EndOf(isObject, Wrap(count + Count(rest)))])
    decreases rest, 3
  {
    hide At, Agreed, Tell, LoopAt, AfterAt, GapText, TailText, ItemsText, ItemsEvents, GapFits, ItemsFits, CommaText;
    hide AfterTurn, IsSolid, CommaFits;
    var g := GrammarOf(env);
    var b := i + |GapText(gap)| + |CommaText(comma)|;
    var end := EndOf(isObject, Wrap(count + Count(rest)));
    AfterIs(env, t, i, ev, count, isObject);
    TailSplit(t, i, gap, comma, rest, Closing(isObject));
    TailTurn(env, t, i, ev, count, isObject, gap, comma, rest);
    if rest == Over {
      NoItems(g, isObject);
      assert ev + ItemsEvents(g, isObject, rest) == ev;
      AgreedPrefix(env, ev, [end]);
      TellAgreed(env, b + 1, ev, end);
    } else {
      ItemsRead(env, t, b, ev, count, isObject, rest);
    }
  }

  // ----- everything accepted is a document

  /** What has been skipped in front of a token. */
  lemma SkippedFound(env: Env, t: Text, i: nat, ev: seq<Event>) returns (gap: Gap)
    requires i <= |t| && Skipped(env, t, i, ev).Ok? && Peek(t, Skipped(env, t, i, ev).pos) != 0
    ensures GapFits(GrammarOf(env), gap) && At(t, i, GapText(gap))
    ensures Skipped(env, t, i, ev) == Ok(i + |GapText(gap)|, ev)
  {
    hide At, Skip, GapFits, GapText;
    var g, comment := GapFound(env, t, i);
    gap := g;
    NoComment();
    assert comment == None;
    assert GapText(gap) + CommentText(comment) == GapText(gap);
  }

  lemma WordTreeFound(env: Env, t: Text, i: nat, ev: seq<Event>, rest: seq<byte>, e: Event)
    requires 0 !in rest && rest != [] && Peek(t, i) != 0 && Literal(env, t, i, ev, rest, e).Ok? && Agreed(env, ev)
    ensures At(t, i, [Peek(t, i)] + rest)
    ensures Literal(env, t, i, ev, rest, e) == Ok(i + 1 + |rest|, ev + [e]) && Agreed(env, ev + [e])
  {
    MatchesAt(t, i + 1, rest);
    AtCons(t, i, [Peek(t, i)] + rest);
    assert ([Peek(t, i)] + rest)[1..] == rest;
    hide At, Matches, Tell, Agreed;
    TellAgreed(env, i + 1 + |rest|, ev, e);
  }

  lemma StringFound(env: Env, t: Text, i: nat, ev: seq<Event>, isKey: bool) returns (cs: seq<Char>)
    requires Peek(t, i) == QUOTE && StringAt(env, t, i, ev, isKey).Ok? && Agreed(env, ev)
    ensures AllFit(cs) && At(t, i, StringText(cs))
    ensures var e := if isKey then Key(CharsBytes(cs)) else String(CharsBytes(cs));
      StringAt(env, t, i, ev, isKey) == Ok(i + |StringText(cs)|, ev + [e]) && Agreed(env, ev + [e])
  {
    hide At, Decode, CharsText, CharsBytes, Tell, Agreed, AllFit;
    cs := CharsFound(t, i + 1);
    ByteAt(t, i);
    AtJoin(t, i, [QUOTE], CharsText(cs) + [QUOTE]);
    TellAgreed(env, i + |StringText(cs)|, ev, if isKey then Key(CharsBytes(cs)) else String(CharsBytes(cs)));
  }

  /** What is promised of a value that has been read. */
  predicate Read(env: Env, t: Text, i: nat, ev: seq<Event>, tree: Tree)
  {
    && TreeFits(GrammarOf(env), tree) && At(t, i, TreeText(tree))
    && TreeEnds(tree, Peek(t, i + |TreeText(tree)|))
    && Value(env, t, i, ev) == Ok(i + |TreeText(tree)|, ev + TreeEvents(GrammarOf(env), tree))
    && Agreed(env, ev + TreeEvents(GrammarOf(env), tree))
  }

  lemma WordFoundAs(env: Env, t: Text, i: nat, ev: seq<Event>) returns (tree: Tree)
    requires Value(env, t, i, ev).Ok? && Agreed(env, ev) && Peek(t, i) in {SMALL_N, SMALL_T, SMALL_F}
    ensures Read(env, t, i, ev, tree)
  {
    hide At, Literal, Agreed;
    if Peek(t, i) == SMALL_N {
      tree := NullWord;
      WordTreeFound(env, t, i, ev, ULL, Null);
    } else if Peek(t, i) == SMALL_T {
      tree := BoolWord(true);
      WordTreeFound(env, t, i, ev, RUE, Bool(true));
    } else {
      tree := BoolWord(false);
      WordTreeFound(env, t, i, ev, ALSE, Bool(false));
    }
  }

  lemma NumberFoundAs(env: Env, t: Text, i: nat, ev: seq<Event>) returns (tree: Tree)
    requires i <= |t| && NumberAt(env, t, i, ev).Ok? && Agreed(env, ev)
    requires Value(env, t, i, ev) == NumberAt(env, t, i, ev)
    ensures Read(env, t, i, ev, tree)
  {
    hide At, NumberAt, Agreed, NumeralFits, NumeralText, NumeralEvent, Ends, Value;
    var n := NumeralFound(env, t, i, ev);
    tree := NumberText(n);
    NumberTold(env, t, i, ev, n);
  }

  /** The handler was told of the number. */
  lemma NumberTold(env: Env, t: Text, i: nat, ev: seq<Event>, n: Numeral)
    requires NumeralFits(GrammarOf(env), n) && At(t, i, NumeralText(n)) && Ends(n, Peek(t, i + |NumeralText(n)|))
    requires NumberAt(env, t, i, ev).Ok? && Agreed(env, ev)
    ensures Agreed(env, ev + [NumeralEvent(n)])
  {
    hide At, NumberAt, Agreed, NumeralText, NumeralEvent, Ends, Tell;
    NumeralRead(env, t, i, ev, n);
    TellAgreed(env, i + |NumeralText(n)|, ev, NumeralEvent(n));
  }

  lemma ScalarFound(env: Env, t: Text, i: nat, ev: seq<Event>) returns (tree: Tree)
    requires i <= |t| && Value(env, t, i, ev).Ok? && Agreed(env, ev) && Peek(t, i) !in {LBRACE, LBRACKET}
    ensures Read(env, t, i, ev, tree)
  {
    hide At, Literal, StringAt, NumberAt, StringText, AllFit, Agreed;
    if Peek(t, i) in {SMALL_N, SMALL_T, SMALL_F} {
      hide Value, Read;
      tree := WordFoundAs(env, t, i, ev);
    } else if Peek(t, i) == QUOTE {
      var cs := StringFound(env, t, i, ev, false);
      tree := Quotation(cs);
    } else {
      hide Read;
      tree := NumberFoundAs(env, t, i, ev);
    }
  }

  /** No value stands at the end. */
  lemma NothingAtEnd(env: Env, t: Text, i: nat, ev: seq<Event>)
    ensures Peek(t, i) == 0 ==> !Value(env, t, i, ev).Ok?
  {
  }

  lemma NameFound(env: Env, t: Text, i: nat, ev: seq<Event>, isObject: bool) returns (name: Option<Name>)
    requires i <= |t| && NamePart(env, t, i, ev, isObject).Ok? && Agreed(env, ev)
    requires Peek(t, NamePart(env, t, i, ev, isObject).pos) != 0
    ensures NameFits(GrammarOf(env), isObject, name) && At(t, i, NameText(name))
    ensures NamePart(env, t, i, ev, isObject) == Ok(i + |NameText(name)|, ev + NameEvents(name))
    ensures Agreed(env, ev + NameEvents(name))
  {
    hide At, StringText, GapText, Skipped, StringAt, CharsBytes, AllFit, GapFits, Agreed;
    if !isObject {
      name := None;
      EmptyAt(t, i);
      assert ev + NameEvents(name) == ev;
    } else {
      var cs := StringFound(env, t, i, ev, true);
      var j := i + |StringText(cs)|;
      var ev1 := ev + [Key(CharsBytes(cs))];
      var before := SkippedFound(env, t, j, ev1);
      var k := j + |GapText(before)|;
      ByteAt(t, k);
      var after := SkippedFound(env, t, k + 1, ev1);
      name := Some(Name(cs, before, after));
      AtJoin(t, k, [COLON], GapText(after));
      AtJoin(t, j, GapText(before), [COLON] + GapText(after));
      AtJoin(t, i, StringText(cs), GapText(before) + ([COLON] + GapText(after)));
    }
  }

  lemma {:induction false} TreeFound(env: Env, t: Text, i: nat, ev: seq<Event>) returns (tree: Tree)
    requires i <= |t| && Value(env, t, i, ev).Ok? && Agreed(env, ev)
    ensures Read(env, t, i, ev, tree)
    decreases |t| - i, 1
  {
    hide Value, Read, Agreed;
    if Peek(t, i) == LBRACE {
      tree := GroupFound(env, t, i, ev, true);
    } else if Peek(t, i) == LBRACKET {
      tree := GroupFound(env, t, i, ev, false);
    } else {
      tree := ScalarFound(env, t, i, ev);
    }
  }

  lemma {:induction false} GroupFound(env: Env, t: Text, i: nat, ev: seq<Event>, isObject: bool) returns (tree: Tree)
    requires Value(env, t, i, ev).Ok? && Agreed(env, ev) && Peek(t, i) == Opening(isObject)
    ensures Read(env, t, i, ev, tree)
    decreases |t| - i, 0
  {
    hide At, Agreed, Tell, Value, Skipped, LoopAt, GapText, ItemsText, ItemsEvents, Read;
    var ev1 := ev + [StartOf(isObject)];
    GroupIs(env, t, i, ev, isObject);
    TellAgreed(env, i + 1, ev, StartOf(isObject));
    var a := Skipped(env, t, i + 1, ev1).pos;
    EndOfLoop(env, t, a, ev1, 0, isObject);
    var gap := SkippedFound(env, t, i + 1, ev1);
    if Peek(t, a) == Closing(isObject) {
      tree := Group(isObject, gap, Over);
      NoItems(GrammarOf(env), isObject);
      ByteAt(t, a);
      assert ItemsText(Over) + [Closing(isObject)] == [Closing(isObject)];
      TellAgreed(env, a + 1, ev1, EndOf(isObject, 0));
      assert ev1 + ItemsEvents(GrammarOf(env), isObject, Over) == ev1;
      GroupJoin(env, t, i, ev, tree);
    } else {
      var items := ItemsFound(env, t, a, ev1, 0, isObject);
      tree := Group(isObject, gap, items);
      GroupJoin(env, t, i, ev, tree);
    }
  }

  /** A loop does not start at the end of the text. */
  lemma EndOfLoop(env: Env, t: Text, i: nat, ev: seq<Event>, count: u32, isObject: bool)
    ensures Peek(t, i) == 0 ==> !LoopAt(env, t, i, ev, count, isObject).Ok?
  {
    NothingAtEnd(env, t, i, ev);
    hide Value;
  }

  lemma GroupJoin(env: Env, t: Text, i: nat, ev: seq<Event>, tree: Tree)
    requires tree.Group? && TreeFits(GrammarOf(env), tree) && Peek(t, i) == Opening(tree.isObject)
    requires At(t, i + 1, GapText(tree.gap))
    requires At(t, i + 1 + |GapText(tree.gap)|, ItemsText(tree.items) + [Closing(tree.isObject)])
    requires var told := ev + [StartOf(tree.isObject)] + ItemsEvents(GrammarOf(env), tree.isObject, tree.items) +
                         [EndOf(tree.isObject, Wrap(Count(tree.items)))];
      && Agreed(env, told)
      && Value(env, t, i, ev) == Ok(i + 1 + |GapText(tree.gap)| + |ItemsText(tree.items)| + 1, told)
    ensures Read(env, t, i, ev, tree)
  {
    hide At, Agreed, Value, GapText, ItemsText, ItemsEvents, GapFits, ItemsFits;
    var inner := ItemsText(tree.items) + [Closing(tree.isObject)];
    ByteAt(t, i);
    AtJoin(t, i + 1, GapText(tree.gap), inner);
    AtJoin(t, i, [Opening(tree.isObject)], GapText(tree.gap) + inner);
    assert ev + TreeEvents(GrammarOf(env), tree) ==
      ev + [StartOf(tree.isObject)] + ItemsEvents(GrammarOf(env), tree.isObject, tree.items) +
      [EndOf(tree.isObject, Wrap(Count(tree.items)))];
  }

  /** What is promised of the items that a loop has read. */
  predicate ReadItems(env: Env, t: Text, i: nat, ev: seq<Event>, count: u32, isObject: bool, items: Items)
  {
    && items.Item? && ItemsFits(GrammarOf(env), isObject, items) && At(t, i, ItemsText(items) + [Closing(isObject)])
    && var told := ev + ItemsEvents(GrammarOf(env), isObject, items) +
                   [EndOf(isObject, Wrap(count + Count(items)))];
      Agreed(env, told) && LoopAt(env, t, i, ev, count, isObject) == Ok(i + |ItemsText(items)| + 1, told)
  }

  lemma {:induction false} ItemsFound(env: Env, t: Text, i: nat, ev: seq<Event>, count: u32, isObject: bool)
    returns (items: Items)
    requires i <= |t| && LoopAt(env, t, i, ev, count, isObject).Ok? && Agreed(env, ev)
    ensures ReadItems(env, t, i, ev, count, isObject, items)
    decreases |t| - i, 2
  {
    hide At, Agreed, Tell, Value, LoopAt, AfterAt, NamePart, NameText, TreeText, NameEvents, TreeEvents, ItemsEvents;
    hide ReadItems, ReadTail, TreeEnds;
    LoopIs(env, t, i, ev, count, isObject);
    var a, ev1 := NamePart(env, t, i, ev, isObject).pos, NamePart(env, t, i, ev, isObject).ok;
    NothingAtEnd(env, t, a, ev1);
    var name := NameFound(env, t, i, ev, isObject);
    var value := TreeFound(env, t, a, ev1);
    var b, ev2 := a + |TreeText(value)|, ev1 + TreeEvents(GrammarOf(env), value);
    AtInside(t, a, TreeText(value));
    TreeStarts(GrammarOf(env), value);
    var gap, comma, rest := TailFound(env, t, b, ev2, Wrap(count + 1), isObject);
    items := Item(name, value, gap, comma, rest);
    ItemsJoin(env, t, i, a, b, ev, ev1, ev2, count, isObject, items);
  }

  lemma AtInside(t: Text, i: nat, w: seq<byte>)
    requires At(t, i, w)
    ensures i + |w| <= |t|
  {
  }

  /** What is promised of the rest that a loop has read behind a value. */
  predicate ReadTail(env: Env, t: Text, i: nat, ev: seq<Event>, count: u32, isObject: bool, gap: Gap,
                     comma: Option<Gap>, rest: Items)
  {
    var g := GrammarOf(env);
    && GapFits(g, gap) && CommaFits(g, comma, rest == Over) && ItemsFits(g, isObject, rest)
    && At(t, i, TailText(gap, comma, rest) + [Closing(isObject)])
    && var told := ev + ItemsEvents(g, isObject, rest) + [EndOf(isObject, Wrap(count + Count(rest)))];
      Agreed(env, told) && AfterAt(env, t, i, ev, count, isObject) == Ok(i + |TailText(gap, comma, rest)| + 1, told)
  }

  lemma ItemsJoin(env: Env, t: Text, i: nat, a: nat, b: nat, ev: seq<Event>, ev1: seq<Event>, ev2: seq<Event>,
                  count: u32, isObject: bool, items: Items)
    requires items.Item? && NameFits(GrammarOf(env), isObject, items.name) && At(t, i, NameText(items.name))
    requires a == i + |NameText(items.name)| && ev1 == ev + NameEvents(items.name)
    requires NamePart(env, t, i, ev, isObject) == Ok(a, ev1) && Read(env, t, a, ev1, items.value)
    requires b == a + |TreeText(items.value)| && TreeFits(GrammarOf(env), items.value)
    requires ev2 == ev1 + TreeEvents(GrammarOf(env), items.value)
    requires ReadTail(env, t, b, ev2, Wrap(count + 1), isObject, items.gap, items.comma, items.rest)
    ensures ReadItems(env, t, i, ev, count, isObject, items)
  {
    hide At, Agreed, Value, LoopAt, AfterAt, NamePart, NameText, TreeText, TailText, NameEvents, TreeEvents;
    hide GapFits, CommaFits, TreeFits, TreeEnds, AllFit, ItemsText, ItemsEvents, ItemsFits, NameFits, ItemTurn;
    LoopIs(env, t, i, ev, count, isObject);
    TurnJoin(env, t, i, a, b, ev, ev1, ev2, count, isObject);
    CountOn(count, items.rest);
    ItemFits(GrammarOf(env), isObject, items);
    ItemJoin(t, i, items, Closing(isObject));
    EventsJoin(GrammarOf(env), ev, isObject, items);
  }

  lemma TurnJoin(env: Env, t: Text, i: nat, a: nat, b: nat, ev: seq<Event>, ev1: seq<Event>, ev2: seq<Event>,
                 count: u32, isObject: bool)
    requires NamePart(env, t, i, ev, isObject) == Ok(a, ev1) && Value(env, t, a, ev1) == Ok(b, ev2)
    ensures ItemTurn(env, t, i, ev, count, isObject) == AfterAt(env, t, b, ev2, Wrap(count + 1), isObject)
  {
    hide NamePart, Value, AfterAt;
  }

  lemma ItemFits(g: Grammar, isObject: bool, items: Items)
    requires items.Item? && NameFits(g, isObject, items.name) && TreeFits(g, items.value) && GapFits(g, items.gap)
    requires CommaFits(g, items.comma, items.rest == Over) && ItemsFits(g, isObject, items.rest)
    ensures ItemsFits(g, isObject, items)
  {
  }

  lemma ItemJoin(t: Text, i: nat, items: Items, close: byte)
    requires items.Item? && At(t, i, NameText(items.name))
    requires var a := i + |NameText(items.name)|;
      var tail := TailText(items.gap, items.comma, items.rest);
      At(t, a, TreeText(items.value)) && At(t, a + |TreeText(items.value)|, tail + [close])
    ensures At(t, i, ItemsText(items) + [close])
    ensures |ItemsText(items)| ==
      |NameText(items.name)| + |TreeText(items.value)| + |TailText(items.gap, items.comma, items.rest)|
  {
    hide At, NameText, TreeText, TailText;
    var n, v, tail := NameText(items.name), TreeText(items.value), TailText(items.gap, items.comma, items.rest);
    AtJoin(t, i + |n|, v, tail + [close]);
    AtJoin(t, i, n, v + (tail + [close]));
    assert ItemsText(items) + [close] == n + (v + (tail + [close]));
  }

  lemma EventsJoin(g: Grammar, ev: seq<Event>, isObject: bool, items: Items)
    requires items.Item? && ItemsFits(g, isObject, items)
    ensures ev + ItemsEvents(g, isObject, items) ==
      ev + NameEvents(items.name) + TreeEvents(g, items.value) + ItemsEvents(g, isObject, items.rest)
  {
    hide NameEvents, TreeEvents, TreeFits;
  }

  lemma {:induction false} TailFound(env: Env, t: Text, i: nat, ev: seq<Event>, count: u32, isObject: bool)
    returns (gap: Gap, comma: Option<Gap>, rest: Items)
    requires i <= |t| && AfterAt(env, t, i, ev, count, isObject).Ok? && Agreed(env, ev)
    ensures ReadTail(env, t, i, ev, count, isObject, gap, comma, rest)
    decreases |t| - i, 3
  {
    hide At, Agreed, Tell, LoopAt, AfterAt, GapText, GapFits, ItemsText, ItemsFits, ItemsEvents, Skipped, ReadTail;
    AfterIs(env, t, i, ev, count, isObject);
    gap := SkippedFound(env, t, i, ev);
    var a := i + |GapText(gap)|;
    ByteAt(t, a);
    NoItems(GrammarOf(env), isObject);
    rest := Over;
    if Peek(t, a) == COMMA {
      var b := Skipped(env, t, a + 1, ev).pos;
      EndOfLoop(env, t, b, ev, count, isObject);
      comma := CommaFound(env, t, a, ev);
      if env.trailing && Peek(t, b) == Closing(isObject) {
        TailOver(env, t, i, ev, count, isObject, gap, comma);
      } else {
        rest := ItemsFound(env, t, b, ev, count, isObject);
        TailMore(env, t, i, ev, count, isObject, gap, comma, rest);
      }
    } else {
      comma := None;
      NoComma();
      EmptyAt(t, a);
      TailOver(env, t, i, ev, count, isObject, gap, comma);
    }
  }

  lemma CommaFound(env: Env, t: Text, i: nat, ev: seq<Event>) returns (comma: Option<Gap>)
    requires Peek(t, i) == COMMA && Skipped(env, t, i + 1, ev).Ok?
    requires Peek(t, Skipped(env, t, i + 1, ev).pos) != 0
    ensures comma.Some? && GapFits(GrammarOf(env), comma.value) && At(t, i, CommaText(comma))
    ensures Skipped(env, t, i + 1, ev) == Ok(i + |CommaText(comma)|, ev)
  {
    hide At, GapText, GapFits, Skipped;
    var gap := SkippedFound(env, t, i + 1, ev);
    comma := Some(gap);
    ByteAt(t, i);
    AtJoin(t, i, [COMMA], GapText(gap));
  }

  lemma TailJoin(t: Text, i: nat, gap: Gap, comma: Option<Gap>, rest: Items, isObject: bool)
    requires At(t, i, GapText(gap)) && At(t, i + |GapText(gap)|, CommaText(comma))
    requires At(t, i + |GapText(gap)| + |CommaText(comma)|, ItemsText(rest) + [Closing(isObject)])
    ensures At(t, i, TailText(gap, comma, rest) + [Closing(isObject)])
    ensures i + |GapText(gap)| + |CommaText(comma)| + |ItemsText(rest)| == i + |TailText(gap, comma, rest)|
  {
    hide At, GapText, CommaText, ItemsText;
    var end := ItemsText(rest) + [Closing(isObject)];
    AtJoin(t, i + |GapText(gap)|, CommaText(comma), end);
    AtJoin(t, i, GapText(gap), CommaText(comma) + end);
    assert TailText(gap, comma, rest) + [Closing(isObject)] == GapText(gap) + (CommaText(comma) + end);
  }

  /** Nothing more comes before the closing bracket. */
  lemma TailOver(env: Env, t: Text, i: nat, ev: seq<Event>, count: u32, isObject: bool, gap: Gap, comma: Option<Gap>)
    requires Agreed(env, ev) && GapFits(GrammarOf(env), gap) && CommaFits(GrammarOf(env), comma, true)
    requires At(t, i, GapText(gap)) && At(t, i + |GapText(gap)|, CommaText(comma))
    requires var b := i + |GapText(gap)| + |CommaText(comma)|;
      && Peek(t, b) == Closing(isObject) && Tell(env, b + 1, ev, EndOf(isObject, count)).Ok?
      && AfterAt(env, t, i, ev, count, isObject) == Tell(env, b + 1, ev, EndOf(isObject, count))
    ensures ReadTail(env, t, i, ev, count, isObject, gap, comma, Over)
  {
    hide At, Agreed, Tell, AfterAt, GapText, GapFits, CommaText, CommaFits, ItemsText, ItemsEvents, TailText;
    var b := i + |GapText(gap)| + |CommaText(comma)|;
    NoItems(GrammarOf(env), isObject);
    ByteAt(t, b);
    assert ItemsText(Over) + [Closing(isObject)] == [Closing(isObject)];
    assert ev + ItemsEvents(GrammarOf(env), isObject, Over) == ev;
    TellAgreed(env, b + 1, ev, EndOf(isObject, count));
    TailJoin(t, i, gap, comma, Over, isObject);
  }

  lemma TailMore(env: Env, t: Text, i: nat, ev: seq<Event>, count: u32, isObject: bool, gap: Gap, comma: Option<Gap>,
                 rest: Items)
    requires GapFits(GrammarOf(env), gap) && comma.Some? && GapFits(GrammarOf(env), comma.value)
    requires At(t, i, GapText(gap)) && At(t, i + |GapText(gap)|, CommaText(comma))
    requires var b := i + |GapText(gap)| + |CommaText(comma)|;
      && ReadItems(env, t, b, ev, count, isObject, rest)
      && AfterAt(env, t, i, ev, count, isObject) == LoopAt(env, t, b, ev, count, isObject)
    ensures ReadTail(env, t, i, ev, count, isObject, gap, comma, rest)
  {
    hide At, Agreed, LoopAt, AfterAt, GapText, GapFits, CommaText, ItemsText, ItemsFits, ItemsEvents, TailText;
    TailJoin(t, i, gap, comma, rest, isObject);
  }

  // ----- whole documents

  /** The text w is a document that denotes these events. */
  ghost predicate IsDocument(g: Grammar, w: seq<byte>, ev: seq<Event>)
  {
    exists d :: DocumentFits(g, d) && DocumentText(d) == w && TreeEvents(g, d.value) == ev
  }

  /** A gap and a value that ends before the byte c. */
  predicate LeadFits(g: Grammar, before: Gap, value: Tree, c: byte)
  {
    GapFits(g, before) && TreeFits(g, value) && TreeEnds(value, c)
  }

  /** The text begins with a gap and a value that denotes these events and ends at pos. */
  ghost predicate IsLead(g: Grammar, t: Text, pos: nat, ev: seq<Event>)
  {
    exists before, value ::
      && LeadFits(g, before, value, Peek(t, pos)) && At(t, 0, GapText(before) + TreeText(value))
      && pos == |GapText(before) + TreeText(value)| && ev == TreeEvents(g, value)
  }

  lemma LeadRead(env: Env, t: Text, before: Gap, value: Tree)
    requires var w := GapText(before) + TreeText(value);
      LeadFits(GrammarOf(env), before, value, Peek(t, |w|)) && At(t, 0, w)
    requires Agreed(env, TreeEvents(GrammarOf(env), value))
    ensures Recursive(env, t) ==
      Ending(env, t, |GapText(before) + TreeText(value)|, TreeEvents(GrammarOf(env), value))
  {
    hide At, GapText, GapFits, TreeText, TreeEvents, TreeFits, TreeEnds, Agreed, Skipped, Value, Ending;
    var i := |GapText(before)|;
    AtSplit(t, 0, GapText(before), TreeText(value));
    TreeStarts(GrammarOf(env), value);
    AtPeek(t, i, TreeText(value), 0);
    GapSkipped(env, t, 0, [], before);
    assert [] + TreeEvents(GrammarOf(env), value) == TreeEvents(GrammarOf(env), value);
    TreeRead(env, t, i, [], value);
  }

  lemma LeadFound(env: Env, t: Text) returns (before: Gap, value: Tree)
    requires Recursive(env, t).Ok?
    ensures var w := GapText(before) + TreeText(value);
      LeadFits(GrammarOf(env), before, value, Peek(t, |w|)) && At(t, 0, w)
    ensures Agreed(env, TreeEvents(GrammarOf(env), value))
    ensures Recursive(env, t) ==
      Ending(env, t, |GapText(before) + TreeText(value)|, TreeEvents(GrammarOf(env), value))
  {
    hide At, GapText, GapFits, TreeText, TreeEvents, TreeFits, TreeEnds, Agreed, Skipped, Value, Ending;
    before := SkippedFound(env, t, 0, []);
    var i := |GapText(before)|;
    NobodyAsked(env);
    value := TreeFound(env, t, i, []);
    assert [] + TreeEvents(GrammarOf(env), value) == TreeEvents(GrammarOf(env), value);
    AtJoin(t, 0, GapText(before), TreeText(value));
  }

  lemma NobodyAsked(env: Env)
    ensures Agreed(env, [])
  {
  }

  /** With kParseStopWhenDoneFlag, the reader accepts a text exactly if it begins with a gap and a value; it stops
      where that value ends, having reported what it denotes, if the handler agrees to that. */
  lemma ReadsFirstValue(env: Env, t: Text, pos: nat, ev: seq<Event>)
    requires env.stopWhenDone
    ensures Recursive(env, t) == Ok(pos, ev) <==> IsLead(GrammarOf(env), t, pos, ev) && Agreed(env, ev)
  {
    hide At, GapText, TreeText, TreeEvents, GapFits, TreeFits, TreeEnds, Agreed, Recursive;
    var g := GrammarOf(env);
    if Recursive(env, t) == Ok(pos, ev) {
      var before, value := LeadFound(env, t);
    }
    if IsLead(g, t, pos, ev) && Agreed(env, ev) {
      var before, value :| LeadFits(g, before, value, Peek(t, pos)) && At(t, 0, GapText(before) + TreeText(value)) &&
        pos == |GapText(before) + TreeText(value)| && ev == TreeEvents(g, value);
      LeadRead(env, t, before, value);
    }
  }

  lemma EndingRead(env: Env, t: Text, i: nat, ev: seq<Event>, after: Gap, comment: Option<seq<byte>>)
    requires !env.stopWhenDone && GapFits(GrammarOf(env), after) && CommentFits(GrammarOf(env), comment)
    requires var w := GapText(after) + CommentText(comment);
      At(t, i, w) && Peek(t, i + |w|) == 0
    ensures Ending(env, t, i, ev) == Ok(i + |GapText(after) + CommentText(comment)|, ev)
  {
    hide At, GapText, GapFits, CommentText, CommentFits, Skip;
    AtSplit(t, i, GapText(after), CommentText(comment));
    GapRead(env, t, i, after);
    CommentRead(env, t, i + |GapText(after)|, comment);
  }

  lemma EndingFound(env: Env, t: Text, i: nat, ev: seq<Event>) returns (after: Gap, comment: Option<seq<byte>>)
    requires !env.stopWhenDone && i <= |t| && Ending(env, t, i, ev).Ok?
    ensures GapFits(GrammarOf(env), after) && CommentFits(GrammarOf(env), comment)
    ensures var w := GapText(after) + CommentText(comment);
      At(t, i, w) && Peek(t, i + |w|) == 0 && Ending(env, t, i, ev) == Ok(i + |w|, ev)
  {
    hide At, GapText, GapFits, CommentText, CommentFits, Skip;
    after, comment := GapFound(env, t, i);
  }

  lemma DocumentRead(env: Env, t: Text, pos: nat, d: Document)
    requires !env.stopWhenDone && pos <= |t| && Peek(t, pos) == 0
    requires DocumentFits(GrammarOf(env), d) && DocumentText(d) == t[..pos]
    requires Agreed(env, TreeEvents(GrammarOf(env), d.value))
    ensures Recursive(env, t) == Ok(pos, TreeEvents(GrammarOf(env), d.value))
  {
    hide At, GapText, GapFits, TreeText, TreeEvents, TreeFits, CommentText, CommentFits, Agreed, Recursive, Ending;
    hide DocumentText, TreeEnds, Follows;
    var lead := GapText(d.before) + TreeText(d.value);
    TextAt(t, pos);
    DocumentSplit(t, d);
    LastFollows(env, t, |lead|, d.after, d.comment);
    FollowsEnds(d.value, Peek(t, |lead|));
    LeadRead(env, t, d.before, d.value);
    EndingRead(env, t, |lead|, TreeEvents(GrammarOf(env), d.value), d.after, d.comment);
  }

  lemma TextAt(t: Text, pos: nat)
    requires pos <= |t|
    ensures At(t, 0, t[..pos])
  {
  }

  lemma DocumentSplit(t: Text, d: Document)
    requires At(t, 0, DocumentText(d))
    ensures var lead, last := GapText(d.before) + TreeText(d.value), GapText(d.after) + CommentText(d.comment);
      At(t, 0, lead) && At(t, |lead|, last) && |lead| + |last| == |DocumentText(d)|
  {
    hide At, GapText, TreeText, CommentText;
    var lead, last := GapText(d.before) + TreeText(d.value), GapText(d.after) + CommentText(d.comment);
    assert DocumentText(d) == lead + last;
    AtSplit(t, 0, lead, last);
  }

  /** What stands behind the value of a document cannot continue it. */
  lemma LastFollows(env: Env, t: Text, i: nat, after: Gap, comment: Option<seq<byte>>)
    requires GapFits(GrammarOf(env), after)
    requires var w := GapText(after) + CommentText(comment);
      At(t, i, w) && Peek(t, i + |w|) == 0
    ensures Follows(Peek(t, i))
  {
    hide At, GapText, GapFits;
    var a := i + |GapText(after)|;
    AtSplit(t, i, GapText(after), CommentText(comment));
    if comment.Some? { AtPeek(t, a, CommentText(comment), 0); }
    GapFollows(GrammarOf(env), t, i, after);
  }

  lemma DocumentFound(env: Env, t: Text) returns (d: Document)
    requires !env.stopWhenDone && Recursive(env, t).Ok?
    ensures DocumentFits(GrammarOf(env), d) && At(t, 0, DocumentText(d)) && Peek(t, |DocumentText(d)|) == 0
    ensures Recursive(env, t) == Ok(|DocumentText(d)|, TreeEvents(GrammarOf(env), d.value))
    ensures Agreed(env, TreeEvents(GrammarOf(env), d.value))
  {
    hide At, GapText, GapFits, TreeText, TreeEvents, TreeFits, CommentText, CommentFits, Agreed, Recursive, Ending;
    hide TreeEnds;
    var before, value := LeadFound(env, t);
    var lead := GapText(before) + TreeText(value);
    AtInside(t, 0, lead);
    var after, comment := EndingFound(env, t, |lead|, TreeEvents(GrammarOf(env), value));
    d := Document(before, value, after, comment);
    var last := GapText(after) + CommentText(comment);
    AtJoin(t, 0, lead, last);
    assert DocumentText(d) == lead + last;
  }

  /** The reader accepts a text exactly if what stands before its NUL is a document, and reports exactly what that
      document denotes, provided that the handler agrees to it. */
  lemma ReadsDocuments(env: Env, t: Text, pos: nat, ev: seq<Event>)
    requires !env.stopWhenDone
    ensures Recursive(env, t) == Ok(pos, ev) <==>
      pos <= |t| && Peek(t, pos) == 0 && IsDocument(GrammarOf(env), t[..pos], ev) && Agreed(env, ev)
  {
    hide DocumentText, TreeEvents, GapFits, TreeFits, CommentFits, Agreed, Recursive;
    var g := GrammarOf(env);
    if Recursive(env, t) == Ok(pos, ev) {
      var d := DocumentFound(env, t);
      AtText(t, 0, DocumentText(d));
    }
    if pos <= |t| && Peek(t, pos) == 0 && IsDocument(g, t[..pos], ev) && Agreed(env, ev) {
      var d :| DocumentFits(g, d) && DocumentText(d) == t[..pos] && TreeEvents(g, d.value) == ev;
      DocumentRead(env, t, pos, d);
    }
  }

  /** So does the iterative parser. */
  lemma IterativeReadsDocuments(env: Env, t: Text, pos: nat, ev: seq<Event>)
    requires !env.stopWhenDone
    ensures Iterative(env, t) == Ok(pos, ev) <==>
      pos <= |t| && Peek(t, pos) == 0 && IsDocument(GrammarOf(env), t[..pos], ev) && Agreed(env, ev)
  {
    hide Recursive, Iterative, IsDocument, Agreed;
    ParsersAgree(env, t);
    ReadsDocuments(env, t, pos, ev);
  }

  /** The grammar is unambiguous in what it denotes. */
  lemma OneMeaning(g: Grammar, w: seq<byte>, ev: seq<Event>, ev': seq<Event>)
    requires IsDocument(g, w, ev) && IsDocument(g, w, ev')
    ensures ev == ev'
  {
    hide Recursive, IsDocument;
    var env := Env(g.comments, g.trailing, false, g.nanAndInf, g.huge, ev => true);
    assert w[..|w|] == w;
    ReadsDocuments(env, w, |w|, ev);
    ReadsDocuments(env, w, |w|, ev');
  }
}
