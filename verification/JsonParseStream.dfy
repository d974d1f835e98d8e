/**
  Parsing a text into a document.
 */
module JsonParseStream {
  import opened JsonText
  import opened JsonParse
  import opened JsonEquivalence
  import opened JsonTrace
  import opened JsonRoundTrip
  import opened JsonDocument
  import opened JsonBuild

  // ----- what the reader reports is fit for a document

  /** Every number reported is in its class, and there are no more events than bytes read. */
  predicate Modest(m: Machine) { m.Machine? ==> |m.ev| <= m.pos && AllInRange(m.ev) }

  lemma ScalarModest(env: Env, t: Text, i: nat, ev: seq<Event>)
    requires AllInRange(ev)
    ensures var r := ScalarAt(env, t, i, ev); r.Ok? ==> |r.ok| == |ev| + 1 && AllInRange(r.ok)
  {
    hide Decode, IntegerAt, Matches, DigitsEnd;
    var r := ScalarAt(env, t, i, ev);
    if r.Ok? {
      var e := r.ok[|ev|];
      assert r.ok == ev + [e];
      assert InRange(e);
    }
  }

  lemma TurnModest(env: Env, t: Text, m: Machine)
    requires m.Machine? && MachineOk(m, t) && Modest(m) && Peek(t, m.pos) != 0
    ensures Modest(Turn(env, t, m))
  {
    hide ScalarAt, Tokenize, MachineOk, Decode, ErrorOf;
    TransitOk(env, t, m);
    ScalarModest(env, t, m.pos, m.ev);
  }

  lemma {:induction false} LoopModest(env: Env, t: Text, m: Machine)
    requires MachineOk(m, t) && Modest(m)
    ensures var r := Loop(env, t, m); r.Ok? ==> |r.ok| <= |t| && AllInRange(r.ok)
    decreases if m.Machine? then 1 + |t| - m.pos else 0, 0
  {
    hide Turn, Resume, AllInRange;
    if m.Machine? && Peek(t, m.pos) != 0 {
      TurnModest(env, t, m);
      ResumeModest(env, t, Turn(env, t, m));
    }
  }

  lemma {:induction false} ResumeModest(env: Env, t: Text, m: Machine)
    requires MachineOk(m, t) && Modest(m)
    ensures var r := Resume(env, t, m); r.Ok? ==> |r.ok| <= |t| && AllInRange(r.ok)
    decreases if m.Machine? then 1 + |t| - m.pos else 0, 1
  {
    hide Loop, Skipped, AllInRange;
    if m.Machine? {
      var s := Skipped(env, t, m.pos, m.ev);
      if s.Ok? { LoopModest(env, t, m.(pos := s.pos)); }
    }
  }

  predicate AllBelow(open: seq<Level>, n: nat) { forall i :: 0 <= i < |open| ==> open[i].children <= n }

  /** No container has more children than there are events. */
  lemma {:induction false} FewChildren(ev: seq<Event>)
    ensures Fed(ev).Track? ==> AllBelow(Fed(ev).open, |ev|)
  {
    if ev != [] {
      var init := ev[..|ev| - 1];
      FewChildren(init);
      FeedBelow(Fed(init), ev[|ev| - 1], |init|);
    }
  }

  lemma FeedBelow(k: Track, e: Event, n: nat)
    requires k.Track? ==> AllBelow(k.open, n)
    ensures Feed(k, e).Track? ==> AllBelow(Feed(k, e).open, n + 1)
  {
  }

  lemma ShortIsUncut(ev: seq<Event>)
    requires |ev| < UINT_LIM
    ensures AllUncut(ev)
  {
    hide Fed;
    forall i | 0 <= i < |ev| && Fed(ev[..i]).Track? ensures Uncut(Fed(ev[..i]), ev[i]) {
      FewChildren(ev[..i]);
    }
  }

  /** For every text that either parser accepts, of less than 2^32 bytes, the document's handler finds
      all it asserts: exactly one value is left on its stack, and that value replays what was parsed. */
  lemma ParseBuildsOne(env: Env, t: Text)
    requires |t| < UINT_LIM
    ensures var r := Recursive(env, t);
      r.Ok? ==>
        && r == Iterative(env, t)
        && WellFormed(r.ok) && AllUncut(r.ok) && AllInRange(r.ok)
        && |Flat(LayersOf(r.ok))| == 1
        && Replay(Flat(LayersOf(r.ok))[0]) == Replayeds(r.ok)
  {
    hide Recursive, Loop, Skipped, Fed, AllUncut, Flat, LayersOf, Replay, Replayeds;
    ParsersAgree(env, t);
    ReportsAreWellFormed(env, t);
    var r := Iterative(env, t);
    if r.Ok? {
      LoopModest(env, t, Machine(Start, [], Skipped(env, t, 0, []).pos, []));
      ShortIsUncut(r.ok);
      BuildsOne(r.ok);
    }
  }
}
