/**
  What stands between the tokens of a JSON text, and its strings, as a grammar: white space and comments, and strings
  of plain bytes and escapes. The reader's SkipWhitespaceAndComments and ParseStringToStream read exactly these.
 */
module JsonLexemes {
  import opened Wrap32
  import opened JsonText
  import opened JsonParse
  import opened JsonNumbers

  // ----- tables

  const SPACES := Codes(" \t\n\r")
  const UPPER := Codes("0123456789ABCDEF")
  const LOWER := Codes("0123456789abcdef")

  /** The letters of one-letter escapes and what they stand for: the last five are backspace, form feed, line feed,
      carriage return and tab. */
  const LETTERS := Codes("\"\\/bfnrt")
  const MEANINGS: seq<byte> := [34, 92, 47, 8, 12, 10, 13, 9]

  predicate IsHexDigit(c: byte) { c in UPPER || c in LOWER }

  /** The value of a hexadecimal digit is its place among the sixteen, in either case. */
  function DigitValue(c: byte): (d: nat)
    requires IsHexDigit(c)
    ensures d < 16
  {
    if c in UPPER then Place(UPPER, c) else Place(LOWER, c)
  }

  function Meaning(e: byte): byte
    requires e in LETTERS
  {
    MEANINGS[Place(LETTERS, e)]
  }

  // ----- white space and comments

  /** A byte of white space, or what a comment says. */
  datatype Blank = Space(c: byte) | Block(body: seq<byte>) | Line(body: seq<byte>)

  const OPEN_BLOCK := [SLASH, STAR]
  const CLOSE_BLOCK := [STAR, SLASH]
  const OPEN_LINE := [SLASH, SLASH]

  function BlankText(b: Blank): seq<byte>
  {
    match b
    case Space(c) => [c]
    case Block(body) => OPEN_BLOCK + (body + CLOSE_BLOCK)
    case Line(body) => OPEN_LINE + (body + [NEWLINE])
  }

  /** No end of a block comment. */
  predicate Unclosed(body: seq<byte>)
  {
    forall k :: 0 <= k < |body| ==> body[k] != 0 && (body[k] == STAR ==> k + 1 == |body| || body[k + 1] != SLASH)
  }

  /** No end of a line. */
  predicate OneLine(body: seq<byte>) { forall k :: 0 <= k < |body| ==> !EndsLine(body[k]) }

  predicate EndsLine(c: byte) { c == 0 || c == NEWLINE }

  predicate BlankFits(g: Grammar, b: Blank)
  {
    match b
    case Space(c) => c in SPACES
    case Block(body) => g.comments && Unclosed(body)
    case Line(body) => g.comments && OneLine(body)
  }

  type Gap = seq<Blank>

  function GapText(gap: Gap): seq<byte> { if gap == [] then [] else BlankText(gap[0]) + GapText(gap[1..]) }

  predicate GapFits(g: Grammar, gap: Gap) { forall i :: 0 <= i < |gap| ==> BlankFits(g, gap[i]) }

  /** A line comment at the end of the document. */
  function CommentText(comment: Option<seq<byte>>): seq<byte>
  {
    if comment.Some? then OPEN_LINE + comment.value else []
  }

  predicate CommentFits(g: Grammar, comment: Option<seq<byte>>)
  {
    comment.Some? ==> g.comments && OneLine(comment.value)
  }

  // ----- the reader's tables

  /** The reader's white space is this and no other. */
  lemma SpaceTable(c: byte)
    ensures IsSpace(c) <==> c in SPACES
  {
    assert SPACES == [32, 9, 10, 13];
  }

  /** The reader gives every hexadecimal digit, of either case, its value, and takes no other byte for one. */
  lemma HexTable(c: byte)
    ensures HexValue(c) == if IsHexDigit(c) then DigitValue(c) else -1
  {
    if 0x30 <= c <= 0x39 {
      assert UPPER[c - 0x30] == c;
    } else if 0x41 <= c <= 0x46 {
      assert UPPER[c - 0x41 + 10] == c;
    } else if 0x61 <= c <= 0x66 {
      assert LOWER[c - 0x61 + 10] == c;
    }
    if c in UPPER { UpperAt(Place(UPPER, c)); }
    if c in LOWER { LowerAt(Place(LOWER, c)); }
  }

  lemma UpperAt(d: nat)
    requires d < 16
    ensures UPPER[d] == if d < 10 then 0x30 + d else 0x41 + d - 10
  {
  }

  lemma LowerAt(d: nat)
    requires d < 16
    ensures LOWER[d] == if d < 10 then 0x30 + d else 0x61 + d - 10
  {
  }

  /** The reader's one-letter escapes are these and no others, and stand for what they should. */
  lemma EscapeTable(e: byte)
    ensures Unescape(e) == if e in LETTERS then Meaning(e) else 0
    ensures e in LETTERS ==> Meaning(e) != 0
  {
    assert LETTERS[0] == 34 && LETTERS[1] == 92 && LETTERS[2] == 47 && LETTERS[3] == 98;
    assert LETTERS[4] == 102 && LETTERS[5] == 110 && LETTERS[6] == 114 && LETTERS[7] == 116;
    if e in LETTERS { var k := Place(LETTERS, e); }
  }

  lemma {:induction false} BlockRead(t: Text, i: nat, body: seq<byte>)
    requires Unclosed(body) && At(t, i, body + CLOSE_BLOCK)
    ensures BlockEnd(t, i) == Some(i + |body| + 2)
    decreases |body|
  {
    AtPeek(t, i, body + CLOSE_BLOCK, 0);
    AtPeek(t, i, body + CLOSE_BLOCK, 1);
    if body != [] {
      var rest := body[1..];
      assert body + CLOSE_BLOCK == [body[0]] + (rest + CLOSE_BLOCK);
      AtSplit(t, i, [body[0]], rest + CLOSE_BLOCK);
      hide At;
      BlockRead(t, i + 1, rest);
    }
  }

  lemma {:induction false} BlockFound(t: Text, i: nat) returns (body: seq<byte>)
    requires BlockEnd(t, i).Some?
    ensures Unclosed(body) && At(t, i, body + CLOSE_BLOCK) && BlockEnd(t, i) == Some(i + |body| + 2)
    decreases |t| - i
  {
    if Peek(t, i) == STAR && Peek(t, i + 1) == SLASH {
      body := [];
      assert body + CLOSE_BLOCK == CLOSE_BLOCK;
    } else {
      var rest := BlockFound(t, i + 1);
      ByteAt(t, i);
      AtPeek(t, i + 1, rest + CLOSE_BLOCK, 0);
      hide At;
      AtJoin(t, i, [Peek(t, i)], rest + CLOSE_BLOCK);
      body := [Peek(t, i)] + rest;
      assert body + CLOSE_BLOCK == [Peek(t, i)] + (rest + CLOSE_BLOCK);
    }
  }

  /** A line comment, up to the end of its line or of the document. */
  lemma {:induction false} LineRead(t: Text, i: nat, body: seq<byte>)
    requires OneLine(body) && At(t, i, body) && EndsLine(Peek(t, i + |body|))
    ensures LineEnd(t, i) == i + |body| + if Peek(t, i + |body|) == 0 then 0 else 1
    decreases |body|
  {
    if body != [] {
      AtPeek(t, i, body, 0);
      assert body == [body[0]] + body[1..];
      AtSplit(t, i, [body[0]], body[1..]);
      hide At;
      LineRead(t, i + 1, body[1..]);
    }
  }

  lemma {:induction false} LineFound(t: Text, i: nat) returns (body: seq<byte>)
    requires i <= |t|
    ensures OneLine(body) && At(t, i, body) && EndsLine(Peek(t, i + |body|))
    ensures LineEnd(t, i) == i + |body| + if Peek(t, i + |body|) == 0 then 0 else 1
    decreases |t| - i
  {
    if EndsLine(Peek(t, i)) {
      body := [];
    } else {
      var rest := LineFound(t, i + 1);
      ByteAt(t, i);
      hide At;
      AtJoin(t, i, [Peek(t, i)], rest);
      body := [Peek(t, i)] + rest;
    }
  }

  lemma SkipSpaces(t: Text, comments: bool, i: nat)
    requires IsSpace(Peek(t, i))
    ensures Skip(t, comments, i) == Skip(t, comments, i + 1)
  {
    hide CommentEnd;
  }

  lemma SkipComment(t: Text, i: nat)
    requires Peek(t, i) == SLASH
    ensures Skip(t, true, i) == match CommentEnd(t, i + 1) case None => None case Some(k) => Skip(t, true, k)
  {
    hide CommentEnd;
  }

  lemma SkipNothing(t: Text, comments: bool, i: nat)
    requires !IsSpace(Peek(t, i)) && !(comments && Peek(t, i) == SLASH)
    ensures Skip(t, comments, i) == Some(i)
  {
    hide CommentEnd;
  }

  lemma BlankRead(env: Env, t: Text, i: nat, b: Blank)
    requires BlankFits(GrammarOf(env), b) && At(t, i, BlankText(b))
    ensures Skip(t, env.comments, i) == Skip(t, env.comments, i + |BlankText(b)|)
  {
    hide At, Skip, Unclosed, OneLine;
    match b
    case Space(c) =>
      SpaceTable(c);
      AtPeek(t, i, [c], 0);
      SkipSpaces(t, env.comments, i);
    case Block(body) => BlockSkipped(t, i, body);
    case Line(body) => LineSkipped(t, i, body);
  }

  lemma BlockSkipped(t: Text, i: nat, body: seq<byte>)
    requires Unclosed(body) && At(t, i, OPEN_BLOCK + (body + CLOSE_BLOCK))
    ensures Skip(t, true, i) == Skip(t, true, i + 2 + |body| + 2)
  {
    hide At, Skip, Unclosed, BlockEnd;
    AtSplit(t, i, OPEN_BLOCK, body + CLOSE_BLOCK);
    AtPeek(t, i, OPEN_BLOCK, 0);
    AtPeek(t, i, OPEN_BLOCK, 1);
    BlockRead(t, i + 2, body);
    SkipComment(t, i);
  }

  lemma LineSkipped(t: Text, i: nat, body: seq<byte>)
    requires OneLine(body) && At(t, i, OPEN_LINE + (body + [NEWLINE]))
    ensures Skip(t, true, i) == Skip(t, true, i + 2 + |body| + 1)
  {
    hide At, Skip, OneLine, LineEnd;
    AtSplit(t, i, OPEN_LINE, body + [NEWLINE]);
    AtPeek(t, i, OPEN_LINE, 0);
    AtPeek(t, i, OPEN_LINE, 1);
    AtSplit(t, i + 2, body, [NEWLINE]);
    AtPeek(t, i + 2 + |body|, [NEWLINE], 0);
    LineRead(t, i + 2, body);
    SkipComment(t, i);
  }

  /** The reader skips any gap. */
  lemma {:induction false} GapRead(env: Env, t: Text, i: nat, gap: Gap)
    requires GapFits(GrammarOf(env), gap) && At(t, i, GapText(gap))
    ensures Skip(t, env.comments, i) == Skip(t, env.comments, i + |GapText(gap)|)
    decreases |gap|
  {
    hide At, BlankText, BlankFits, Skip;
    if gap != [] {
      AtSplit(t, i, BlankText(gap[0]), GapText(gap[1..]));
      BlankRead(env, t, i, gap[0]);
      GapRead(env, t, i + |BlankText(gap[0])|, gap[1..]);
    }
  }

  /** The reader also skips a line comment that ends the text. */
  lemma CommentRead(env: Env, t: Text, i: nat, comment: Option<seq<byte>>)
    requires CommentFits(GrammarOf(env), comment) && At(t, i, CommentText(comment))
    requires Peek(t, i + |CommentText(comment)|) == 0
    ensures Skip(t, env.comments, i) == Some(i + |CommentText(comment)|)
  {
    hide At, Skip, OneLine;
    SkipNothing(t, env.comments, i + |CommentText(comment)|);
    if comment.Some? {
      AtPeek(t, i, CommentText(comment), 0);
      AtPeek(t, i, CommentText(comment), 1);
      AtSplit(t, i, OPEN_LINE, comment.value);
      LineRead(t, i + 2, comment.value);
      SkipComment(t, i);
    }
  }

  /** What the reader skipped is a gap, with a comment behind it only at the end of the text. */
  lemma {:induction false} GapFound(env: Env, t: Text, i: nat) returns (gap: Gap, comment: Option<seq<byte>>)
    requires i <= |t| && Skip(t, env.comments, i).Some?
    ensures GapFits(GrammarOf(env), gap) && CommentFits(GrammarOf(env), comment)
    ensures At(t, i, GapText(gap) + CommentText(comment))
    ensures Skip(t, env.comments, i) == Some(i + |GapText(gap) + CommentText(comment)|)
    ensures comment.Some? ==> Peek(t, i + |GapText(gap) + CommentText(comment)|) == 0
    decreases |t| - i
  {
    hide At, Skip, BlankText, CommentText, BlankFits;
    if IsSpace(Peek(t, i)) {
      SkipSpaces(t, env.comments, i);
      var b := SpaceFound(env, t, i);
      gap, comment := GapFound(env, t, i + 1);
      gap := GapJoin(env, t, i, b, gap, comment);
    } else if env.comments && Peek(t, i) == SLASH {
      SkipComment(t, i);
      var b, last := BlankFound(env, t, i);
      if last.Some? {
        gap, comment := [], last;
        assert GapText(gap) + CommentText(comment) == CommentText(comment);
        SkipNothing(t, true, i + |CommentText(last)|);
      } else {
        gap, comment := GapFound(env, t, i + |BlankText(b)|);
        gap := GapJoin(env, t, i, b, gap, comment);
      }
    } else {
      SkipNothing(t, env.comments, i);
      NoComment();
      gap, comment := [], None;
      EmptyAt(t, i);
      assert GapText(gap) + CommentText(comment) == [];
    }
  }

  lemma NoComment()
    ensures CommentText(None) == []
  {
  }

  lemma SpaceFound(env: Env, t: Text, i: nat) returns (b: Blank)
    requires IsSpace(Peek(t, i))
    ensures BlankFits(GrammarOf(env), b) && At(t, i, BlankText(b)) && |BlankText(b)| == 1
  {
    b := Space(Peek(t, i));
    SpaceTable(Peek(t, i));
    ByteAt(t, i);
  }

  lemma GapJoin(env: Env, t: Text, i: nat, b: Blank, rest: Gap, comment: Option<seq<byte>>) returns (gap: Gap)
    requires BlankFits(GrammarOf(env), b) && At(t, i, BlankText(b)) && GapFits(GrammarOf(env), rest)
    requires At(t, i + |BlankText(b)|, GapText(rest) + CommentText(comment))
    ensures GapFits(GrammarOf(env), gap) && At(t, i, GapText(gap) + CommentText(comment))
    ensures |GapText(gap) + CommentText(comment)| == |BlankText(b)| + |GapText(rest) + CommentText(comment)|
  {
    hide At, BlankText, CommentText, BlankFits;
    AtJoin(t, i, BlankText(b), GapText(rest) + CommentText(comment));
    gap := [b] + rest;
    assert gap[1..] == rest;
    assert BlankText(b) + (GapText(rest) + CommentText(comment)) == GapText(gap) + CommentText(comment);
  }

  /** A comment, or the last one of the text. */
  lemma BlankFound(env: Env, t: Text, i: nat) returns (b: Blank, last: Option<seq<byte>>)
    requires env.comments && Peek(t, i) == SLASH && CommentEnd(t, i + 1).Some?
    ensures last.Some? ==>
      && CommentFits(GrammarOf(env), last) && At(t, i, CommentText(last))
      && CommentEnd(t, i + 1) == Some(i + |CommentText(last)|) && Peek(t, i + |CommentText(last)|) == 0
    ensures last == None ==>
      && BlankFits(GrammarOf(env), b) && At(t, i, BlankText(b)) && CommentEnd(t, i + 1) == Some(i + |BlankText(b)|)
      && BlankText(b) != []
  {
    Opens(t, i);
    hide At, Unclosed, OneLine, BlankText, BlockEnd, LineEnd, CommentText;
    last := None;
    if Peek(t, i + 1) == STAR {
      b := BlockCommentFound(env, t, i);
    } else {
      b, last := LineCommentFound(env, t, i);
    }
  }

  lemma Opens(t: Text, i: nat)
    requires Peek(t, i) == SLASH
    ensures Peek(t, i + 1) == STAR ==> At(t, i, OPEN_BLOCK)
    ensures Peek(t, i + 1) == SLASH ==> At(t, i, OPEN_LINE)
  {
  }

  lemma BlockCommentFound(env: Env, t: Text, i: nat) returns (b: Blank)
    requires env.comments && At(t, i, OPEN_BLOCK) && BlockEnd(t, i + 2).Some?
    ensures BlankFits(GrammarOf(env), b) && At(t, i, BlankText(b)) && BlockEnd(t, i + 2) == Some(i + |BlankText(b)|)
    ensures BlankText(b) != []
  {
    hide At, Unclosed;
    var body := BlockFound(t, i + 2);
    b := Block(body);
    AtJoin(t, i, OPEN_BLOCK, body + CLOSE_BLOCK);
  }

  lemma LineCommentFound(env: Env, t: Text, i: nat) returns (b: Blank, last: Option<seq<byte>>)
    requires env.comments && i + 2 <= |t| && At(t, i, OPEN_LINE)
    ensures var end := LineEnd(t, i + 2);
      if last.Some? then
        && CommentFits(GrammarOf(env), last) && At(t, i, CommentText(last))
        && end == i + |CommentText(last)| && Peek(t, end) == 0
      else BlankFits(GrammarOf(env), b) && At(t, i, BlankText(b)) && end == i + |BlankText(b)|
    ensures BlankText(b) != []
  {
    hide At, OneLine;
    var body := LineFound(t, i + 2);
    b := Line(body);
    if Peek(t, i + 2 + |body|) == 0 {
      last := Some(body);
      AtJoin(t, i, OPEN_LINE, body);
    } else {
      last := None;
      ByteAt(t, i + 2 + |body|);
      AtJoin(t, i + 2, body, [NEWLINE]);
      AtJoin(t, i, OPEN_LINE, body + [NEWLINE]);
    }
  }

  // ----- strings

  /** A byte that stands for itself, a one-letter escape, a UTF-16 unit in hexadecimal or a surrogate pair of them. */
  datatype Char = Plain(c: byte) | Letter(e: byte) | Unit(hex: seq<byte>) | Pair(high: seq<byte>, low: seq<byte>)

  const OPEN_UNIT := [BACKSLASH, SMALL_U]

  predicate IsHex(w: seq<byte>) { |w| == 4 && forall k :: 0 <= k < 4 ==> IsHexDigit(w[k]) }

  function HexOf(w: seq<byte>): (n: nat)
    requires IsHex(w)
    ensures n <= 0xffff
  {
    0x1000 * DigitValue(w[0]) + 0x100 * DigitValue(w[1]) + 0x10 * DigitValue(w[2]) + DigitValue(w[3])
  }

  function CharText(c: Char): seq<byte>
  {
    match c
    case Plain(b) => [b]
    case Letter(e) => [BACKSLASH, e]
    case Unit(hex) => OPEN_UNIT + hex
    case Pair(high, low) => OPEN_UNIT + (high + (OPEN_UNIT + low))
  }

  predicate IsHigh(w: seq<byte>) { IsHex(w) && 0xd800 <= HexOf(w) <= 0xdbff }

  predicate IsLow(w: seq<byte>) { IsHex(w) && 0xdc00 <= HexOf(w) <= 0xdfff }

  /** A high surrogate must be followed by a low one; a low one may stand alone. */
  predicate CharFits(c: Char)
  {
    match c
    case Plain(b) => b >= 0x20 && b != QUOTE && b != BACKSLASH
    case Letter(e) => e in LETTERS
    case Unit(hex) => IsHex(hex) && !IsHigh(hex)
    case Pair(high, low) => IsHigh(high) && IsLow(low)
  }

  /** The bytes a character of the text stands for. */
  function CharBytes(c: Char): seq<byte>
    requires CharFits(c)
  {
    match c
    case Plain(b) => [b]
    case Letter(e) => [Meaning(e)]
    case Unit(hex) => Utf8(HexOf(hex))
    case Pair(high, low) => Utf8((HexOf(high) - 0xd800) * 0x400 + (HexOf(low) - 0xdc00) + 0x1_0000)
  }

  predicate AllFit(cs: seq<Char>) { forall k :: 0 <= k < |cs| ==> CharFits(cs[k]) }

  function CharsText(cs: seq<Char>): seq<byte> { if cs == [] then [] else CharText(cs[0]) + CharsText(cs[1..]) }

  function CharsBytes(cs: seq<Char>): seq<byte>
    requires AllFit(cs)
  {
    if cs == [] then [] else CharBytes(cs[0]) + CharsBytes(cs[1..])
  }

  function StringText(cs: seq<Char>): seq<byte> { [QUOTE] + (CharsText(cs) + [QUOTE]) }

  lemma HexSteps(t: Text, i: nat)
    ensures var a, b, c, d :=
        HexValue(Peek(t, i)), HexValue(Peek(t, i + 1)), HexValue(Peek(t, i + 2)), HexValue(Peek(t, i + 3));
      Hex4(t, i) ==
      if a >= 0 && b >= 0 && c >= 0 && d >= 0 then Some(0x1000 * a + 0x100 * b + 0x10 * c + d) else None
  {
    var a, b, c, d :=
      HexValue(Peek(t, i)), HexValue(Peek(t, i + 1)), HexValue(Peek(t, i + 2)), HexValue(Peek(t, i + 3));
    hide HexValue;
    if a >= 0 {
      HexStep(t, i, 0, 0);
      if b >= 0 {
        HexStep(t, i + 1, 1, a);
        if c >= 0 {
          HexStep(t, i + 2, 2, 16 * a + b);
          HexStep(t, i + 3, 3, 256 * a + 16 * b + c);
        }
      }
    }
  }

  lemma HexStep(t: Text, i: nat, n: nat, acc: nat)
    requires n < 4
    ensures var d := HexValue(Peek(t, i));
      && (d >= 0 ==> Hex(t, i, n, acc) == Hex(t, i + 1, n + 1, 16 * acc + d))
      && (d < 0 ==> Hex(t, i, n, acc) == None)
  {
  }

  lemma HexWordRead(t: Text, i: nat, w: seq<byte>)
    requires IsHex(w) && At(t, i, w)
    ensures Hex4(t, i) == Some(HexOf(w))
  {
    hide At, HexValue, Hex4, IsHex, HexOf, Codes, Place, IsHexDigit, DigitValue;
    HexLength(w);
    HexWordIs(w);
    AtPeek(t, i, w, 0);
    AtPeek(t, i, w, 1);
    AtPeek(t, i, w, 2);
    AtPeek(t, i, w, 3);
    HexSteps(t, i);
  }

  lemma HexLength(w: seq<byte>)
    requires IsHex(w)
    ensures |w| == 4
  {
  }

  lemma HexWordIs(w: seq<byte>)
    requires |w| == 4
    ensures var a, b, c, d := HexValue(w[0]), HexValue(w[1]), HexValue(w[2]), HexValue(w[3]);
      && (IsHex(w) <==> a >= 0 && b >= 0 && c >= 0 && d >= 0)
      && (IsHex(w) ==> HexOf(w) == 0x1000 * a + 0x100 * b + 0x10 * c + d)
  {
    hide HexValue, IsHexDigit, DigitValue;
    HexTable(w[0]);
    HexTable(w[1]);
    HexTable(w[2]);
    HexTable(w[3]);
  }

  lemma HexWordFound(t: Text, i: nat) returns (w: seq<byte>)
    requires Hex4(t, i).Some?
    ensures IsHex(w) && At(t, i, w) && Hex4(t, i) == Some(HexOf(w))
  {
    hide HexValue, Hex4, IsHex, HexOf;
    HexSteps(t, i);
    w := t[i..i + 4];
    assert w[0] == Peek(t, i) && w[1] == Peek(t, i + 1) && w[2] == Peek(t, i + 2) && w[3] == Peek(t, i + 3);
    HexWordIs(w);
  }

  lemma UnitAt(t: Text, i: nat)
    ensures At(t, i, OPEN_UNIT) <==> Peek(t, i) == BACKSLASH && Peek(t, i + 1) == SMALL_U
  {
    if At(t, i, OPEN_UNIT) {
      AtPeek(t, i, OPEN_UNIT, 0);
      AtPeek(t, i, OPEN_UNIT, 1);
    }
  }

  /** What an escape in hexadecimal is read as. */
  lemma UnitPiece(t: Text, i: nat)
    requires At(t, i, OPEN_UNIT)
    ensures PieceAt(t, i) ==
      match Hex4(t, i + 2)
      case None => Bad(StringUnicodeEscapeInvalidHex)
      case Some(high) =>
        if !(0xd800 <= high <= 0xdbff) then Put(Utf8(high), i + 6)
        else if !At(t, i + 6, OPEN_UNIT) then Bad(StringUnicodeSurrogateInvalid)
        else
          match Hex4(t, i + 8)
          case None => Bad(StringUnicodeEscapeInvalidHex)
          case Some(low) =>
            if !(0xdc00 <= low <= 0xdfff) then Bad(StringUnicodeSurrogateInvalid)
            else Put(Utf8((high - 0xd800) * 0x400 + (low - 0xdc00) + 0x1_0000), i + 12)
  {
    hide At, Hex4, Utf8;
    UnitAt(t, i);
    UnitAt(t, i + 6);
  }

  lemma PairRead(t: Text, i: nat, high: seq<byte>, low: seq<byte>)
    requires IsHigh(high) && IsLow(low) && At(t, i, CharText(Pair(high, low)))
    ensures PieceAt(t, i) == Put(CharBytes(Pair(high, low)), i + 12) && |CharText(Pair(high, low))| == 12
  {
    hide At, Hex4, Utf8, PieceAt, HexOf;
    AtSplit(t, i, OPEN_UNIT, high + (OPEN_UNIT + low));
    AtSplit(t, i + 2, high, OPEN_UNIT + low);
    AtSplit(t, i + 6, OPEN_UNIT, low);
    HexWordRead(t, i + 2, high);
    HexWordRead(t, i + 8, low);
    UnitPiece(t, i);
  }

  lemma CharRead(t: Text, i: nat, c: Char)
    requires CharFits(c) && At(t, i, CharText(c))
    ensures PieceAt(t, i) == Put(CharBytes(c), i + |CharText(c)|)
  {
    hide At, Hex4, Utf8, PieceAt, HexOf, IsHex, IsHigh, IsLow, Meaning;
    match c
    case Plain(b) => PlainRead(t, i, b);
    case Letter(e) => LetterRead(t, i, e);
    case Unit(hex) =>
      HexLength(hex);
      UnitRead(t, i, hex);
    case Pair(high, low) => PairRead(t, i, high, low);
  }

  lemma PlainRead(t: Text, i: nat, c: byte)
    requires c >= 0x20 && c != QUOTE && c != BACKSLASH && At(t, i, [c])
    ensures PieceAt(t, i) == Put([c], i + 1)
  {
    AtPeek(t, i, [c], 0);
    hide At, Escaped;
  }

  lemma UnitRead(t: Text, i: nat, hex: seq<byte>)
    requires CharFits(Unit(hex)) && At(t, i, OPEN_UNIT + hex)
    ensures PieceAt(t, i) == Put(CharBytes(Unit(hex)), i + 6)
  {
    hide At, Hex4, Utf8, PieceAt, HexOf, IsHex;
    HexLength(hex);
    AtSplit(t, i, OPEN_UNIT, hex);
    HexWordRead(t, i + 2, hex);
    UnitPiece(t, i);
  }

  lemma LetterRead(t: Text, i: nat, e: byte)
    requires e in LETTERS && At(t, i, [BACKSLASH, e])
    ensures PieceAt(t, i) == Put([Meaning(e)], i + 2)
  {
    hide At, Meaning, Unescape, Hex4;
    EscapeTable(e);
    AtPeek(t, i, [BACKSLASH, e], 0);
    AtPeek(t, i, [BACKSLASH, e], 1);
  }

  lemma UnitFound(t: Text, i: nat) returns (c: Char)
    requires PieceAt(t, i).Put? && At(t, i, OPEN_UNIT)
    ensures CharFits(c) && At(t, i, CharText(c)) && PieceAt(t, i) == Put(CharBytes(c), i + |CharText(c)|)
  {
    hide At, Hex4, Utf8, PieceAt, HexOf;
    UnitPiece(t, i);
    var high := HexWordFound(t, i + 2);
    if !IsHigh(high) {
      c := Unit(high);
      AtJoin(t, i, OPEN_UNIT, high);
    } else {
      var low := HexWordFound(t, i + 8);
      c := Pair(high, low);
      AtJoin(t, i + 6, OPEN_UNIT, low);
      AtJoin(t, i + 2, high, OPEN_UNIT + low);
      AtJoin(t, i, OPEN_UNIT, high + (OPEN_UNIT + low));
    }
  }

  lemma CharFound(t: Text, i: nat) returns (c: Char)
    requires PieceAt(t, i).Put?
    ensures CharFits(c) && At(t, i, CharText(c)) && PieceAt(t, i) == Put(CharBytes(c), i + |CharText(c)|)
  {
    UnitAt(t, i);
    EscapeTable(Peek(t, i + 1));
    hide Meaning, Place, Utf8, Hex4;
    if Peek(t, i) != BACKSLASH {
      c := Plain(Peek(t, i));
    } else if Unescape(Peek(t, i + 1)) != 0 {
      c := Letter(Peek(t, i + 1));
    } else {
      hide At, PieceAt;
      c := UnitFound(t, i);
    }
  }

  lemma Closes(t: Text, i: nat)
    ensures PieceAt(t, i).Close? <==> Peek(t, i) == QUOTE
    ensures PieceAt(t, i).Close? ==> PieceAt(t, i) == Close(i + 1)
  {
  }

  /** The reader decodes any string, behind its opening quote. */
  lemma {:induction false} CharsRead(t: Text, i: nat, cs: seq<Char>)
    requires AllFit(cs) && At(t, i, CharsText(cs) + [QUOTE])
    ensures Decode(t, i) == Str(CharsBytes(cs), i + |CharsText(cs)| + 1)
    decreases |cs|
  {
    hide At, CharText, CharFits, CharBytes, PieceAt;
    if cs == [] {
      AtPeek(t, i, CharsText(cs) + [QUOTE], 0);
      Closes(t, i);
    } else {
      var rest := CharsText(cs[1..]) + [QUOTE];
      assert CharsText(cs) + [QUOTE] == CharText(cs[0]) + rest;
      AtSplit(t, i, CharText(cs[0]), rest);
      CharRead(t, i, cs[0]);
      CharsRead(t, i + |CharText(cs[0])|, cs[1..]);
    }
  }

  /** Whatever string the reader decodes is one. */
  lemma {:induction false} CharsFound(t: Text, i: nat) returns (cs: seq<Char>)
    requires Decode(t, i).Str?
    ensures AllFit(cs) && At(t, i, CharsText(cs) + [QUOTE])
    ensures Decode(t, i) == Str(CharsBytes(cs), i + |CharsText(cs)| + 1)
    decreases |t| - i
  {
    hide At, CharText, CharFits, CharBytes, PieceAt;
    Closes(t, i);
    if PieceAt(t, i).Close? {
      cs := [];
      ByteAt(t, i);
      assert CharsText(cs) + [QUOTE] == [QUOTE];
    } else {
      var c := CharFound(t, i);
      var rest := CharsFound(t, i + |CharText(c)|);
      cs := [c] + rest;
      assert cs[1..] == rest;
      AtJoin(t, i, CharText(c), CharsText(rest) + [QUOTE]);
      assert CharText(c) + (CharsText(rest) + [QUOTE]) == CharsText(cs) + [QUOTE];
    }
  }

  // ----- what is not a string

  function FourAt(t: Text, i: nat): (w: seq<byte>)
    ensures |w| == 4
  {
    [Peek(t, i), Peek(t, i + 1), Peek(t, i + 2), Peek(t, i + 3)]
  }

  /** The error at a place inside a string where neither a character of the grammar nor the closing quote stands. */
  function WrongAt(t: Text, i: nat): Option<Code>
  {
    var c := Peek(t, i);
    if c == 0 then Some(StringMissQuotationMark)
    else if c < 0x20 then Some(StringEscapeInvalid)
    else if c != BACKSLASH || Peek(t, i + 1) in LETTERS then None
    else if Peek(t, i + 1) != SMALL_U then Some(StringEscapeInvalid)
    else if !IsHex(FourAt(t, i + 2)) then Some(StringUnicodeEscapeInvalidHex)
    else if !IsHigh(FourAt(t, i + 2)) then None
    else if Peek(t, i + 6) != BACKSLASH || Peek(t, i + 7) != SMALL_U then Some(StringUnicodeSurrogateInvalid)
    else if !IsHex(FourAt(t, i + 8)) then Some(StringUnicodeEscapeInvalidHex)
    else if !IsLow(FourAt(t, i + 8)) then Some(StringUnicodeSurrogateInvalid)
    else None
  }

  lemma FourHex(t: Text, i: nat)
    ensures var w := FourAt(t, i); Hex4(t, i) == if IsHex(w) then Some(HexOf(w)) else None
  {
    hide HexValue, Hex4, IsHex, HexOf;
    HexSteps(t, i);
    HexWordIs(FourAt(t, i));
  }

  lemma WrongPiece(t: Text, i: nat)
    ensures PieceAt(t, i).Bad? <==> WrongAt(t, i).Some?
    ensures PieceAt(t, i).Bad? ==> PieceAt(t, i) == Bad(WrongAt(t, i).value)
  {
    hide Unescape, Hex4, Meaning, Utf8, IsHex, HexOf, FourAt;
    EscapeTable(Peek(t, i + 1));
    FourHex(t, i + 2);
    FourHex(t, i + 8);
  }

  /** A string fails exactly with the error of the first place where it goes wrong: behind any characters of the
      grammar, that error is the result. */
  lemma {:induction false} CharsWrong(t: Text, i: nat, cs: seq<Char>)
    requires AllFit(cs) && At(t, i, CharsText(cs)) && WrongAt(t, i + |CharsText(cs)|).Some?
    ensures Decode(t, i) == StrErr(WrongAt(t, i + |CharsText(cs)|).value)
    decreases |cs|
  {
    hide At, CharText, CharFits, CharBytes, PieceAt, WrongAt;
    if cs == [] {
      WrongPiece(t, i);
    } else {
      AtSplit(t, i, CharText(cs[0]), CharsText(cs[1..]));
      CharRead(t, i, cs[0]);
      CharsWrong(t, i + |CharText(cs[0])|, cs[1..]);
    }
  }

  /** And every error comes about that way. */
  lemma {:induction false} WrongFound(t: Text, i: nat) returns (cs: seq<Char>)
    requires i <= |t| && Decode(t, i).StrErr?
    ensures AllFit(cs) && At(t, i, CharsText(cs))
    ensures WrongAt(t, i + |CharsText(cs)|).Some? && Decode(t, i) == StrErr(WrongAt(t, i + |CharsText(cs)|).value)
    decreases |t| - i
  {
    hide At, CharText, CharFits, CharBytes, PieceAt, WrongAt;
    WrongPiece(t, i);
    if PieceAt(t, i).Bad? {
      cs := [];
      EmptyAt(t, i);
    } else {
      Closes(t, i);
      var c := CharFound(t, i);
      var rest := WrongFound(t, i + |CharText(c)|);
      cs := [c] + rest;
      assert cs[1..] == rest;
      AtJoin(t, i, CharText(c), CharsText(rest));
    }
  }
}
