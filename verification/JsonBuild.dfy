/**
  Building a document from a trace: one value is left on the stack, and it replays the trace.
 */
module JsonBuild {
  import opened Wrap32
  import opened JsonText
  import opened JsonParse
  import opened JsonTrace
  import opened JsonWriter
  import opened JsonRoundTrip
  import opened JsonDocument

  /** An open container on the stack: the values pushed since. */
  datatype Layer = Layer(isObject: bool, items: seq<GenericValue>)

  /** The stack seen as open containers above what lies at its bottom. */
  datatype Layers = Layers(root: seq<GenericValue>, open: seq<Layer>)

  function Last(open: seq<Layer>): Layer
    requires open != []
  {
    open[|open| - 1]
  }

  /** The stack itself. */
  function Flat(l: Layers): seq<GenericValue>
    decreases |l.open|
  {
    if l.open == [] then l.root
    else
      Flat(Layers(l.root, l.open[..|l.open| - 1])) + ([Marker(Last(l.open))] + Last(l.open).items)
  }

  function Add(l: Layers, v: GenericValue): Layers
  {
    if l.open == [] then Layers(l.root + [v], [])
    else Layers(l.root, l.open[..|l.open| - 1] + [Layer(Last(l.open).isObject, Last(l.open).items + [v])])
  }

  function Container(layer: Layer): GenericValue
  {
    if layer.isObject then ObjectValue(Pairs(layer.items)) else ArrayValue(layer.items)
  }

  function Step(l: Layers, e: Event): Layers
  {
    if IsStart(e) then Layers(l.root, l.open + [Layer(e.StartObject?, [])])
    else if !IsEnd(e) then Add(l, OfEvent(e))
    else if l.open == [] then l
    else Add(Layers(l.root, l.open[..|l.open| - 1]), Container(Last(l.open)))
  }

  // ----- the stack follows the layers

  function Marker(layer: Layer): GenericValue { if layer.isObject then ObjectValue([]) else ArrayValue([]) }

  lemma FlatOpen(root: seq<GenericValue>, open: seq<Layer>, layer: Layer)
    ensures Flat(Layers(root, open + [layer])) == Flat(Layers(root, open)) + ([Marker(layer)] + layer.items)
  {
    assert (open + [layer])[..|open|] == open;
  }

  lemma AppendLast<T>(a: seq<T>, b: seq<T>, v: T)
    ensures a + (b + [v]) == a + b + [v]
  {
  }

  lemma FlatAdd(l: Layers, v: GenericValue)
    ensures Flat(Add(l, v)) == Flat(l) + [v]
  {
    if l.open != [] {
      var below, top := l.open[..|l.open| - 1], Last(l.open);
      assert l.open == below + [top];
      FlatAddTop(l.root, below, top, v);
    }
  }

  lemma FlatAddTop(root: seq<GenericValue>, below: seq<Layer>, top: Layer, v: GenericValue)
    ensures Flat(Layers(root, below + [Layer(top.isObject, top.items + [v])]))
      == Flat(Layers(root, below + [top])) + [v]
  {
    hide Flat;
    FlatOpen(root, below, top);
    FlatOpen(root, below, Layer(top.isObject, top.items + [v]));
    AppendLast([Marker(top)], top.items, v);
    AppendLast(Flat(Layers(root, below)), [Marker(top)] + top.items, v);
  }

  lemma PopItems(below: seq<GenericValue>, marker: GenericValue, items: seq<GenericValue>)
    ensures var stack := below + ([marker] + items);
      var n := |stack| - |items|;
      stack[n..] == items && stack[..n - 1] == below
  {
  }

  /** Pushing and popping keeps the stack in step with the layers. */
  lemma FlatStep(l: Layers, e: Event)
    requires IsEnd(e) ==> l.open != [] && Last(l.open).isObject == e.EndObject? && |Last(l.open).items| == Taken(e)
    ensures Poppable(Flat(l), e) && Flat(Step(l, e)) == Handle(Flat(l), e)
  {
    if IsStart(e) {
      hide Flat;
      FlatOpen(l.root, l.open, Layer(e.StartObject?, []));
    } else if IsEnd(e) {
      FlatEnd(l, e);
    } else {
      hide Flat, Add, OfEvent;
      FlatAdd(l, OfEvent(e));
    }
  }

  lemma FlatEnd(l: Layers, e: Event)
    requires IsEnd(e) && l.open != [] && Last(l.open).isObject == e.EndObject? && |Last(l.open).items| == Taken(e)
    ensures Poppable(Flat(l), e) && Flat(Step(l, e)) == Handle(Flat(l), e)
  {
    hide Flat, Add, Pairs;
    var open, top := l.open[..|l.open| - 1], Last(l.open);
    assert l.open == open + [top];
    FlatOpen(l.root, open, top);
    FlatAdd(Layers(l.root, open), Container(top));
    PopItems(Flat(Layers(l.root, open)), Marker(top), top.items);
  }

  // ----- the layers stand for the trace

  /** Has this layer the number of items its level gives it? `around` when another one is open inside. */
  predicate Sized(layer: Layer, level: Level, around: bool)
  {
    && layer.isObject == level.isObject
    && (around ==> level.key == level.isObject)
    && (level.key ==> level.isObject)
    && |layer.items| == if level.isObject then 2 * level.children + (if level.key then 1 else 0) else level.children
  }

  predicate Laid(l: Layers, k: Track)
    requires k.Track?
  {
    && |l.open| == |k.open|
    && |l.root| == (if k.done then 1 else 0)
    && (k.done ==> k.open == [])
    && forall i :: 0 <= i < |l.open| ==> Sized(l.open[i], k.open[i], i < |l.open| - 1)
  }

  /** The event's container is closed with the number of its children, below 2^32 as it must be. */
  predicate Uncut(k: Track, e: Event)
    requires k.Track?
  {
    IsEnd(e) && k.open != [] ==> Top(k.open).children < UINT_LIM
  }

  /** The containers around, all with another one open inside. */
  predicate AllAround(open: seq<Layer>, levels: seq<Level>)
  {
    |open| == |levels| && forall i :: 0 <= i < |open| ==> Sized(open[i], levels[i], true)
  }

  /** A value completed inside these containers. */
  lemma LaidComplete(open: seq<Layer>, levels: seq<Level>, v: GenericValue)
    requires AllAround(open, levels)
    ensures Laid(Add(Layers([], open), v), Complete(levels))
  {
    if open != [] {
      var n := |open| - 1;
      assert Sized(open[n], levels[n], true);
    }
  }

  lemma LaidSplits(l: Layers, k: Track)
    requires k.Track? && Laid(l, k)
    ensures !k.done ==> l.root == []
    ensures k.done ==> k.open == []
    ensures l.open == [] <==> k.open == []
    ensures k.open != [] ==> Sized(Last(l.open), Top(k.open), false)
    ensures k.open != [] ==> AllAround(l.open[..|l.open| - 1], k.open[..|k.open| - 1])
    ensures k.open != [] && Top(k.open).key == Top(k.open).isObject ==> AllAround(l.open, k.open)
  {
  }

  lemma LaidInside(open: seq<Layer>, levels: seq<Level>, layer: Layer, level: Level)
    requires AllAround(open, levels) && Sized(layer, level, false)
    ensures Laid(Layers([], open + [layer]), Track(levels + [level], false))
  {
    hide Sized;
  }

  lemma LaidStep(l: Layers, k: Track, e: Event)
    requires k.Track? && Laid(l, k) && Feed(k, e).Track? && Uncut(k, e)
    ensures Laid(Step(l, e), Feed(k, e))
    ensures IsEnd(e) ==> l.open != [] && Last(l.open).isObject == e.EndObject? && |Last(l.open).items| == Taken(e)
  {
    hide Container, OfEvent, Laid, Add, Complete, AllAround;
    LaidSplits(l, k);
    if IsStart(e) {
      if k.open == [] { NoneAround(); }
      LaidInside(l.open, k.open, Layer(e.StartObject?, []), Level(e.StartObject?, 0, false));
    } else if IsEnd(e) {
      LaidComplete(l.open[..|l.open| - 1], k.open[..|k.open| - 1], Container(Last(l.open)));
    } else if e.Key? {
      LaidKey(l, k, e);
    } else {
      if k.open == [] { NoneAround(); }
      LaidComplete(l.open, k.open, OfEvent(e));
    }
  }

  lemma NoneAround()
    ensures AllAround([], [])
  {
  }

  lemma LaidKey(l: Layers, k: Track, e: Event)
    requires k.Track? && Laid(l, k) && Feed(k, e).Track? && e.Key?
    ensures Laid(Step(l, e), Feed(k, e))
  {
    hide Laid, AllAround, OfEvent;
    LaidSplits(l, k);
    var n := |k.open| - 1;
    assert k.open == k.open[..n] + [k.open[n]] && |l.open| == n + 1 by { SameDepth(l, k); }
    LaidInside(l.open[..n], k.open[..n], Layer(Last(l.open).isObject, Last(l.open).items + [OfEvent(e)]),
               k.open[n].(key := true));
    assert k.open[n := k.open[n].(key := true)] == k.open[..n] + [k.open[n].(key := true)];
  }

  lemma SameDepth(l: Layers, k: Track)
    requires k.Track? && Laid(l, k)
    ensures |l.open| == |k.open|
  {
  }

  // ----- what the layers have heard

  /** Items of an open container as events: names at the even places of an object. */
  function ItemEvents(isObject: bool, items: seq<GenericValue>): seq<Event>
  {
    if items == [] then []
    else
      var n := |items| - 1;
      ItemEvents(isObject, items[..n]) + (if isObject && n % 2 == 0 then [NameOf(items[n])] else Replay(items[n]))
  }

  function Heard(l: Layers): seq<Event>
    decreases |l.open|
  {
    if l.open == [] then ItemEvents(false, l.root)
    else Heard(Layers(l.root, l.open[..|l.open| - 1])) + LayerHeard(Last(l.open))
  }

  function LayerHeard(layer: Layer): seq<Event>
  {
    [if layer.isObject then StartObject else StartArray] + ItemEvents(layer.isObject, layer.items)
  }

  lemma {:induction false} ElementItems(items: seq<GenericValue>)
    ensures ItemEvents(false, items) == ElementEvents(items)
  {
    if items != [] { ElementItems(items[..|items| - 1]); }
  }

  lemma ItemsSnoc(isObject: bool, items: seq<GenericValue>, v: GenericValue)
    ensures ItemEvents(isObject, items + [v]) ==
      ItemEvents(isObject, items) + (if isObject && |items| % 2 == 0 then [NameOf(v)] else Replay(v))
  {
    hide Replay;
    assert (items + [v])[..|items|] == items;
  }

  lemma PairsSnoc(items: seq<GenericValue>, n: nat, name: GenericValue, value: GenericValue)
    requires |items| == 2 * n
    ensures Pairs(items + [name, value]) == Pairs(items) + [Member(name, value)]
  {
  }

  lemma MembersSnoc(members: seq<Member>, m: Member)
    ensures MemberEvents(members + [m]) == MemberEvents(members) + MemberEvent(m)
  {
    hide MemberEvent;
    assert (members + [m])[..|members|] == members;
  }

  lemma {:induction false} MemberItems(items: seq<GenericValue>, n: nat)
    requires |items| == 2 * n
    ensures ItemEvents(true, items) == MemberEvents(Pairs(items))
    decreases n
  {
    hide ItemEvents, MemberEvents, Pairs;
    if n == 0 {
      NoMembers();
    } else {
      var init, name, value := items[..2 * n - 2], items[2 * n - 2], items[2 * n - 1];
      MemberItems(init, n - 1);
      OneMemberMore(init, n - 1, name, value);
      assert items == init + [name, value];
    }
  }

  lemma NoMembers()
    ensures ItemEvents(true, []) == [] == MemberEvents(Pairs([]))
  {
  }

  lemma OneMemberMore(items: seq<GenericValue>, n: nat, name: GenericValue, value: GenericValue)
    requires |items| == 2 * n && ItemEvents(true, items) == MemberEvents(Pairs(items))
    ensures ItemEvents(true, items + [name, value]) == MemberEvents(Pairs(items + [name, value]))
  {
    hide ItemEvents, MemberEvents, Pairs, Replay;
    assert items + [name, value] == items + [name] + [value];
    ItemsSnoc(true, items, name);
    ItemsSnoc(true, items + [name], value);
    PairsSnoc(items, n, name, value);
    MembersSnoc(Pairs(items), Member(name, value));
  }

  /** A closed container replays its start, its items and its end. */
  lemma ContainerReplays(layer: Layer, e: Event)
    requires IsEnd(e) && layer.isObject == e.EndObject? && |layer.items| == Taken(e)
    ensures Replay(Container(layer)) ==
      LayerHeard(layer) + [e]
  {
    hide ItemEvents, MemberEvents, ElementEvents;
    if layer.isObject { MemberItems(layer.items, e.members); } else { ElementItems(layer.items); }
  }

  lemma HeardOpen(root: seq<GenericValue>, open: seq<Layer>, layer: Layer)
    ensures Heard(Layers(root, open + [layer])) == Heard(Layers(root, open)) + LayerHeard(layer)
  {
    hide LayerHeard;
    assert (open + [layer])[..|open|] == open;
  }

  lemma HeardAdd(l: Layers, v: GenericValue)
    ensures Heard(Add(l, v)) == Heard(l) +
      if l.open != [] && Last(l.open).isObject && |Last(l.open).items| % 2 == 0 then [NameOf(v)] else Replay(v)
  {
    hide Replay, ItemEvents, LayerHeard;
    if l.open == [] {
      ItemsSnoc(false, l.root, v);
    } else {
      var below, top := l.open[..|l.open| - 1], Last(l.open);
      assert l.open == below + [top];
      HeardAddTop(l.root, below, top, v);
    }
  }

  lemma HeardAddTop(root: seq<GenericValue>, below: seq<Layer>, top: Layer, v: GenericValue)
    ensures Heard(Layers(root, below + [Layer(top.isObject, top.items + [v])])) ==
      Heard(Layers(root, below + [top])) + if top.isObject && |top.items| % 2 == 0 then [NameOf(v)] else Replay(v)
  {
    hide Heard, Replay, ItemEvents;
    ItemsSnoc(top.isObject, top.items, v);
    HeardOpen(root, below, top);
    HeardOpen(root, below, Layer(top.isObject, top.items + [v]));
  }

  /** An event as a document replays it. */
  function Replayed(e: Event): Event
    requires e.Number? ==> InClass(e.n)
  {
    if e.Number? then Number(Classed(ValueOf(e.n))) else e
  }

  lemma ScalarReplays(e: Event)
    requires !IsStart(e) && !IsEnd(e) && (e.Number? ==> InClass(e.n))
    ensures if e.Key? then NameOf(OfEvent(e)) == e else Replay(OfEvent(e)) == [Replayed(e)]
  {
    if e.Number? { AnnouncesValue(e.n); }
    hide OfNumber, Announced;
  }

  /** Every event of a trace adds itself, and nothing else, to what the layers replay. */
  lemma HeardStep(l: Layers, k: Track, e: Event)
    requires k.Track? && Laid(l, k) && Feed(k, e).Track? && Uncut(k, e) && (e.Number? ==> InClass(e.n))
    ensures Heard(Step(l, e)) == Heard(l) + [Replayed(e)]
  {
    hide Laid, Heard, Replayed, Step, Feed;
    LaidStep(l, k, e);
    if IsStart(e) {
      StartHeard(l, e);
    } else if IsEnd(e) {
      EndHeard(l, k, e);
    } else {
      ScalarHeard(l, k, e);
    }
  }

  lemma ScalarHeard(l: Layers, k: Track, e: Event)
    requires k.Track? && Laid(l, k) && Feed(k, e).Track? && !IsStart(e) && !IsEnd(e) && (e.Number? ==> InClass(e.n))
    ensures Heard(Step(l, e)) == Heard(l) + [Replayed(e)]
  {
    hide Laid, Heard, Replay, OfEvent, Add, Complete, Classed;
    TopSized(l, k);
    HeardAdd(l, OfEvent(e));
    ScalarReplays(e);
  }

  lemma StartHeard(l: Layers, e: Event)
    requires IsStart(e)
    ensures Heard(Step(l, e)) == Heard(l) + [Replayed(e)]
  {
    hide Heard;
    HeardOpen(l.root, l.open, Layer(e.StartObject?, []));
  }

  /** The item counts of the innermost layers, by their levels. */
  lemma TopSized(l: Layers, k: Track)
    requires k.Track? && Laid(l, k)
    ensures l.open == [] <==> k.open == []
    ensures k.open != [] ==> Sized(Last(l.open), Top(k.open), false)
    ensures |k.open| > 1 ==> Sized(l.open[|k.open| - 2], k.open[|k.open| - 2], true)
  {
  }

  lemma EndHeard(l: Layers, k: Track, e: Event)
    requires k.Track? && Laid(l, k) && IsEnd(e) && l.open != []
    requires Last(l.open).isObject == e.EndObject? && |Last(l.open).items| == Taken(e)
    ensures Heard(Step(l, e)) == Heard(l) + [Replayed(e)]
  {
    hide Heard, Laid, Replay, Container, ItemEvents, LayerHeard, Sized;
    var open, top := l.open[..|l.open| - 1], Last(l.open);
    assert l.open == open + [top];
    ParentOdd(l, k);
    ContainerReplays(top, e);
    HeardAdd(Layers(l.root, open), Container(top));
    HeardOpen(l.root, open, top);
  }

  /** A container inside an object comes after a name. */
  lemma ParentOdd(l: Layers, k: Track)
    requires k.Track? && Laid(l, k)
    ensures |l.open| > 1 ==> !l.open[|l.open| - 2].isObject || |l.open[|l.open| - 2].items| % 2 == 1
  {
    TopSized(l, k);
    hide Laid;
  }

  // ----- whole traces

  /** Every container of the trace has fewer than 2^32 children, as its count tells. */
  predicate AllUncut(ev: seq<Event>)
  {
    forall i :: 0 <= i < |ev| ==> Fed(ev[..i]).Track? ==> Uncut(Fed(ev[..i]), ev[i])
  }

  function Replayeds(ev: seq<Event>): (r: seq<Event>)
    requires AllInRange(ev)
    ensures |r| == |ev|
  {
    if ev == [] then [] else Replayeds(ev[..|ev| - 1]) + [Replayed(ev[|ev| - 1])]
  }

  lemma {:induction false} ReplayedsAt(ev: seq<Event>)
    requires AllInRange(ev)
    ensures forall i :: 0 <= i < |ev| ==> Replayeds(ev)[i] == Replayed(ev[i])
  {
    hide Replayed;
    if ev != [] { ReplayedsAt(ev[..|ev| - 1]); }
  }

  function LayersOf(ev: seq<Event>): Layers
  {
    if ev == [] then Layers([], []) else Step(LayersOf(ev[..|ev| - 1]), ev[|ev| - 1])
  }

  /** One more event of a trace, for the stack, the layers and what they replay. */
  lemma StepOn(ev: seq<Event>, e: Event)
    requires Fed(ev + [e]).Track? && Fed(ev).Track? && Laid(LayersOf(ev), Fed(ev)) && Uncut(Fed(ev), e)
    requires e.Number? ==> InClass(e.n)
    ensures LayersOf(ev + [e]) == Step(LayersOf(ev), e) && Laid(LayersOf(ev + [e]), Fed(ev + [e]))
    ensures Poppable(Flat(LayersOf(ev)), e) && Flat(LayersOf(ev + [e])) == Handle(Flat(LayersOf(ev)), e)
    ensures Heard(LayersOf(ev + [e])) == Heard(LayersOf(ev)) + [Replayed(e)]
  {
    hide Laid, Step, Heard, Flat, Handle, Feed, Replayed, Poppable, Fed;
    assert (ev + [e])[..|ev|] == ev;
    FedSnoc(ev, e);
    LaidStep(LayersOf(ev), Fed(ev), e);
    FlatStep(LayersOf(ev), e);
    HeardStep(LayersOf(ev), Fed(ev), e);
  }

  lemma {:induction false} LayersHeard(ev: seq<Event>)
    requires Fed(ev).Track? && AllUncut(ev) && AllInRange(ev)
    ensures Laid(LayersOf(ev), Fed(ev)) && Heard(LayersOf(ev)) == Replayeds(ev)
  {
    hide Fed, Laid, Heard, LayersOf, Replayed, Uncut, AllUncut, InClass;
    if ev == [] {
      NothingHeard();
    } else {
      var init, e := ev[..|ev| - 1], ev[|ev| - 1];
      FedPrefix(ev, |init|);
      InitUncut(ev);
      assert init + [e] == ev;
      LayersHeard(init);
      StepOn(init, e);
    }
  }

  lemma NothingHeard()
    ensures Fed([]).Track? && Laid(LayersOf([]), Fed([])) && Heard(LayersOf([])) == []
  {
  }

  lemma InitUncut(ev: seq<Event>)
    requires AllUncut(ev) && ev != [] && Fed(ev[..|ev| - 1]).Track?
    ensures AllUncut(ev[..|ev| - 1]) && Uncut(Fed(ev[..|ev| - 1]), ev[|ev| - 1])
  {
    hide Fed, Uncut;
    var init := ev[..|ev| - 1];
    forall i | 0 <= i < |init| && Fed(init[..i]).Track? ensures Uncut(Fed(init[..i]), init[i]) {
      assert init[..i] == ev[..i];
    }
  }

  /** The trace of one value leaves exactly that value on the stack, and the value replays the trace with
      every integer in the first class that fits and unchanged in value. */
  lemma BuildsOne(ev: seq<Event>)
    requires WellFormed(ev) && AllUncut(ev) && AllInRange(ev)
    ensures var stack := Flat(LayersOf(ev)); |stack| == 1 && Replay(stack[0]) == Replayeds(ev)
  {
    LayersHeard(ev);
    hide Replay, Fed, LayersOf, Replayed;
    var l := LayersOf(ev);
    OneItem(l.root);
  }

  lemma OneItem(items: seq<GenericValue>)
    requires |items| == 1
    ensures ItemEvents(false, items) == Replay(items[0])
  {
    hide Replay;
    assert ItemEvents(false, items[..0]) == [];
  }

  // ----- the document as it runs

  class GenericDocument {
    var stack: seq<GenericValue>
    var root: GenericValue

    constructor ()
      ensures stack == [] && root == NullValue
    {
      stack, root := [], NullValue;
    }

    method Push(v: GenericValue)
      modifies `stack
      ensures stack == old(stack) + [v]
    {
      stack := stack + [v];
    }

    /** Null, Bool, Int, Uint, Int64, Uint64, Double, String, Key, StartObject and StartArray. */
    method Value(e: Event)
      requires !IsEnd(e)
      modifies `stack
      ensures stack == Handle(old(stack), e)
    {
      Push(OfEvent(e));
    }

    method EndObject(memberCount: u32)
      requires Poppable(stack, Event.EndObject(memberCount))
      modifies `stack
      ensures stack == Handle(old(stack), Event.EndObject(memberCount))
    {
      var members := stack[|stack| - 2 * memberCount..];
      stack := stack[..|stack| - 2 * memberCount];
      stack := stack[|stack| - 1 := ObjectValue(Pairs(members))];
    }

    method EndArray(elementCount: u32)
      requires Poppable(stack, Event.EndArray(elementCount))
      modifies `stack
      ensures stack == Handle(old(stack), Event.EndArray(elementCount))
    {
      var elements := stack[|stack| - elementCount..];
      stack := stack[..|stack| - elementCount];
      stack := stack[|stack| - 1 := ArrayValue(elements)];
    }

    /** Populate, from a generator that sends the trace of one value: no assertion fails, one value is
        left on the stack, and it becomes the document. */
    method Populate(ev: seq<Event>)
      requires stack == [] && WellFormed(ev) && AllUncut(ev) && AllInRange(ev)
      modifies this
      ensures stack == [] && [root] == Flat(LayersOf(ev)) && Replay(root) == Replayeds(ev)
    {
      hide Fed, Laid, Handle, Heard, LayersOf, Flat, Uncut, Replayed, Replay, Poppable;
      var i := 0;
      NoLayers(ev);
      while i < |ev|
        invariant 0 <= i <= |ev| && Fed(ev[..i]).Track?
        invariant stack == Flat(LayersOf(ev[..i])) && Laid(LayersOf(ev[..i]), Fed(ev[..i]))
      {
        FedPrefix(ev, i + 1);
        assert ev[..i + 1] == ev[..i] + [ev[i]];
        StepOn(ev[..i], ev[i]);
        match ev[i] {
          case EndObject(n) => EndObject(n);
          case EndArray(n) => EndArray(n);
          case _ => Value(ev[i]);
        }
        i := i + 1;
      }
      assert ev[..|ev|] == ev;
      BuildsOne(ev);
      root := stack[|stack| - 1];
      stack := stack[..|stack| - 1];
    }
  }

  lemma NoLayers(ev: seq<Event>)
    ensures ev[..0] == [] && Fed([]).Track? && Flat(LayersOf([])) == [] && Laid(LayersOf([]), Fed([]))
  {
  }

  // ----- through text and back

  /** Traces that differ only in the classes of their integers build the same value. */
  lemma {:induction false} SameBuild(ev: seq<Event>, ev': seq<Event>)
    requires AllInRange(ev) && AllInRange(ev') && |ev| == |ev'|
    requires forall i :: 0 <= i < |ev| ==> Replayed(ev[i]) == Replayed(ev'[i])
    ensures LayersOf(ev) == LayersOf(ev')
  {
    hide Step, Replayed;
    if ev != [] {
      var n := |ev| - 1;
      SameBuild(ev[..n], ev'[..n]);
      SameStep(LayersOf(ev[..n]), ev[n], ev'[n]);
    }
  }

  lemma SameStep(l: Layers, e: Event, e': Event)
    requires (e.Number? ==> InClass(e.n)) && (e'.Number? ==> InClass(e'.n)) && Replayed(e) == Replayed(e')
    ensures Step(l, e) == Step(l, e')
  {
    hide Add, Container, OfNumber;
    if e.Number? {
      SameNumber(e.n, e'.n);
    }
  }

  lemma SameNumber(n: Num, n': Num)
    requires InClass(n) && InClass(n') && ValueOf(n) == ValueOf(n')
    ensures OfNumber(n) == OfNumber(n')
  {
    FlagsAreRanges(n);
    FlagsAreRanges(n');
    hide OfNumber;
  }

  lemma ReplayedsWellFormed(ev: seq<Event>)
    requires AllInRange(ev) && WellFormed(ev)
    ensures WellFormed(Replayeds(ev)) && AllInRange(Replayeds(ev))
  {
    hide Classed, Replayeds;
    ReplayedsAt(ev);
    SameTrace(ev, Replayeds(ev));
  }

  lemma {:induction false} SameTrace(ev: seq<Event>, ev': seq<Event>)
    requires |ev| == |ev'| && forall i :: 0 <= i < |ev| ==> ev[i] == ev'[i] || (ev[i].Number? && ev'[i].Number?)
    ensures Fed(ev) == Fed(ev')
  {
    if ev != [] { SameTrace(ev[..|ev| - 1], ev'[..|ev| - 1]); }
  }

  lemma BackSame(ev: seq<Event>)
    requires AllInRange(ev)
    ensures AllInRange(Replayeds(ev)) && LayersOf(Normals(Replayeds(ev))) == LayersOf(ev)
  {
    hide LayersOf, Replayeds, Classed, Narrowed;
    ReplayedsAt(ev);
    var back := Normals(Replayeds(ev));
    forall i | 0 <= i < |ev| ensures Replayed(ev[i]) == Replayed(back[i]) {
      assert back[i] == Normal(Replayed(ev[i]));
    }
    SameBuild(ev, back);
  }

  lemma ReplayedsReadable(env: Env, ev: seq<Event>)
    requires AllInRange(ev) && AllReadable(env, ev)
    ensures AllReadable(env, Replayeds(ev))
  {
    hide Floats, Classed, Replayeds;
    ReplayedsAt(ev);
    forall i | 0 <= i < |ev| ensures Readable(env, Replayeds(ev)[i]) { assert Readable(env, ev[i]); }
  }

  /** A document printed by Accept through either writer and parsed again, by either parser, is built
      once more as the identical value. */
  lemma DocumentRoundTrip(env: Env, style: Style, ev: seq<Event>)
    requires WellFormed(ev) && AllUncut(ev) && AllInRange(ev) && AllReadable(env, ev) && style.Valid()
    requires forall told :: env.handler(told)
    ensures var built := Flat(LayersOf(ev));
      && |built| == 1
      && var t := Written(style, Replay(built[0])).out;
      && var back := Iterative(env, t);
      && back.Ok? && Recursive(env, t) == back
      && Flat(LayersOf(back.ok)) == built
  {
    hide LayersOf, Flat, Replay, Replayeds, Iterative, Recursive, Written, Fed, AllUncut, Readable, Normals;
    BackSame(ev);
    BuildsOne(ev);
    ReplayedsWellFormed(ev);
    ReplayedsReadable(env, ev);
    RoundTrip(env, style, Replayeds(ev));
  }
}
