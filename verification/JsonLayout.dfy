/**
  How the writers lay out a document: where they break lines, how far they indent, and how they spell strings.
 */
module JsonLayout {
  import opened Wrap32
  import opened JsonText
  import opened JsonParse
  import opened JsonTrace
  import opened JsonLexemes
  import opened JsonWriter
  import opened JsonRoundTrip

  // ----- strings

  /** A byte is written as it is, unless it is a control character, a quotation mark or a backslash; of those, the
      ones with a one-letter escape get it, and the others their number in two upper-case digits. */
  lemma EscapesChosen(c: byte)
    ensures var w := EscapeOf(c);
      if c >= 32 && c != 34 && c != 92 then w == [c]
      else if c in MEANINGS then exists e :: e in LETTERS && Meaning(e) == c && w == [92, e]
      else w == Codes("\\u00") + [UPPER[c / 16], UPPER[c % 16]]
  {
    MeaningTable(c);
    hide Meaning, Codes;
    if EscapeLetter(c) == SMALL_U {
      NumberTable(c / 16);
      NumberTable(c % 16);
      assert Codes("\\u00") == [92, 117, 48, 48] by { UnitPrefix(); }
    }
  }

  lemma UnitPrefix()
    ensures Codes("\\u00") == [92, 117, 48, 48]
  {
  }

  lemma NumberTable(d: nat)
    requires d < 16
    ensures UPPER[d] == HEX_DIGITS[d]
  {
  }

  /** The writer's letter for a byte, but for the solidus, which needs none. */
  lemma MeaningTable(c: byte)
    ensures var e := EscapeLetter(c);
      && (e == 0 <==> c >= 32 && c != 34 && c != 92)
      && (e != 0 && e != SMALL_U ==> c in MEANINGS && e in LETTERS && Meaning(e) == c)
      && (e == SMALL_U ==> c !in MEANINGS)
  {
    assert LETTERS[0] == 34 && LETTERS[1] == 92 && LETTERS[2] == 47 && LETTERS[3] == 98;
    assert LETTERS[4] == 102 && LETTERS[5] == 110 && LETTERS[6] == 114 && LETTERS[7] == 116;
    hide Codes;
  }

  // ----- lines

  /** So many times the indentation. */
  predicate IsPad(style: Style, w: seq<byte>, depth: nat)
    requires style.Pretty?
  {
    |w| == depth * style.indentCount && forall i :: 0 <= i < |w| ==> w[i] == style.indentChar
  }

  /** A line break and the indentation of a depth. */
  predicate IsLine(style: Style, w: seq<byte>, depth: nat)
    requires style.Pretty?
  {
    w != [] && w[0] == 10 && IsPad(style, w[1..], depth)
  }

  function CommaIf(more: bool): seq<byte> { if more then Codes(",") else [] }

  /** What a writer puts before an event inside these open containers. A value follows its name on the line, behind
      a colon; a name, and an element unless arrays stay on one line, has a line of its own, indented by the number
      of containers open; so has the end of a container that is not empty, indented by one less. Commas stand behind
      all items but the last. The plain writer puts the commas and colons only. */
  predicate LaidOut(style: Style, open: seq<Level>, e: Event, w: seq<byte>)
  {
    if open == [] then w == []
    else
      var top := open[|open| - 1];
      var inLine := style.Plain? || (!top.isObject && style.singleLine);
      if IsEnd(e) then (if top.children == 0 || inLine then w == [] else IsLine(style, w, |open| - 1))
      else if top.isObject && top.key then w == if style.Plain? then Codes(":") else Codes(": ")
      else if inLine then w == if top.children > 0 then (if style.Plain? then Codes(",") else Codes(", ")) else []
      else
        var comma := CommaIf(top.children > 0);
        comma <= w && IsLine(style, w[|comma|..], |open|)
  }

  lemma {:induction false} LevelsMatch(style: Style, ev: seq<Event>, k: nat)
    requires Fed(ev).Track? && k <= |ev|
    ensures Fed(ev[..k]).Track? && Matched(Written(style, ev[..k]), Fed(ev[..k]))
    decreases k
  {
    hide Fed, Written, Matched;
    if k == 0 {
      assert ev[..0] == [];
      Unstarted();
    } else {
      LevelsMatch(style, ev, k - 1);
      Continues(style, ev, k - 1);
    }
  }

  lemma LeadLaidOut(style: Style, w: Printed, k: Track, e: Event)
    requires k.Track? && Matched(w, k) && Feed(k, e).Track?
    ensures LaidOut(style, k.open, e, Lead(style, w.levels, e))
  {
    hide Matched;
    TopCounts(w, k);
    if k.open != [] {
      var level := w.levels[|w.levels| - 1];
      MatchedDepth(w, k);
      if style.Pretty? {
        LineOf(style, |k.open|);
        LineOf(style, |k.open| - 1);
      }
      hide Indent, IsLine;
      assert Codes(",") == [44] && Codes(":") == [58] && Codes(": ") == [58, 32] && Codes(", ") == [44, 32];
    }
  }

  lemma MatchedDepth(w: Printed, k: Track)
    requires k.Track? && Matched(w, k)
    ensures |w.levels| == |k.open|
  {
  }

  lemma LineOf(style: Style, depth: nat)
    requires style.Pretty?
    ensures IsLine(style, [NEWLINE] + Indent(style, depth), depth)
  {
    assert ([NEWLINE] + Indent(style, depth))[1..] == Indent(style, depth);
  }

  /** The printed text has, at the place of every event, its layout and then its spelling, with nothing in between. */
  lemma EveryEventLaidOut(style: Style, ev: seq<Event>, k: nat) returns (lead: seq<byte>)
    requires Fed(ev).Track? && k < |ev|
    ensures Fed(ev[..k]).Track? && LaidOut(style, Fed(ev[..k]).open, ev[k], lead)
    ensures var before, after := |Written(style, ev[..k]).out|, |Written(style, ev[..k + 1]).out|;
      At(Written(style, ev).out, before, lead + Spelling(ev[k])) && after == before + |lead| + |Spelling(ev[k])|
  {
    hide Fed, Written, Matched, At, Spelling, Lead, LaidOut, Feed;
    LevelsMatch(style, ev, k);
    Continues(style, ev, k);
    var w := Written(style, ev[..k]);
    lead := Lead(style, w.levels, ev[k]);
    LeadLaidOut(style, w, Fed(ev[..k]), ev[k]);
    SpellingAt(style, ev, k);
  }
}
