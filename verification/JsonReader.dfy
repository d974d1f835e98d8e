/**
  RapidJSON's GenericReader as it runs: a stream cursor that advances, a stack that is pushed and
  popped, a parse result that is set, and strings decoded either onto a stack or into the text itself.
 */
module JsonReader {
  import opened Wrap32
  import opened JsonText
  import opened JsonParse
  import opened JsonStream

  /** The strings of a trace, keys among them. */
  function Strings(ev: seq<Event>): (ss: seq<seq<byte>>)
  {
    if ev == [] then []
    else
      var e := ev[|ev| - 1];
      Strings(ev[..|ev| - 1]) + if e.String? then [e.s] else if e.Key? then [e.k] else []
  }

  lemma StringsSnoc(ev: seq<Event>, e: Event)
    ensures Strings(ev + [e]) == Strings(ev) + if e.String? then [e.s] else if e.Key? then [e.k] else []
  {
    assert (ev + [e])[..|ev|] == ev;
  }

  /** What a decoding that goes on elsewhere amounts to. */
  function Behind(acc: seq<byte>, d: Decoded): Decoded
  {
    match d
    case Str(bytes, next) => Str(acc + bytes, next)
    case StrErr(code) => StrErr(code)
  }

  lemma BehindPut(acc: seq<byte>, t: Text, i: nat, whole: Decoded)
    requires whole == Behind(acc, Decode(t, i))
    ensures match PieceAt(t, i)
      case Put(bytes, next) => whole == Behind(acc + bytes, Decode(t, next))
      case Close(next) => whole == Str(acc, next)
      case Bad(code) => whole == StrErr(code)
  {
    hide PieceAt;
    match PieceAt(t, i)
    case Put(bytes, next) =>
      var d := Decode(t, next);
      if d.Str? { assert acc + (bytes + d.bytes) == acc + bytes + d.bytes; }
    case Close(_) => assert acc + [] == acc;
    case Bad(_) =>
  }

  /** A string handed over in place lies in what has been read, with its NUL. */
  predicate Lies(b: seq<byte>, src: nat, at: nat, s: seq<byte>)
  {
    at + |s| < src <= |b| && b[at..at + |s|] == s && b[at + |s|] == 0
  }

  predicate AllLie(b: seq<byte>, src: nat, spans: seq<nat>, strings: seq<seq<byte>>)
  {
    |spans| == |strings| && forall i :: 0 <= i < |spans| ==> Lies(b, src, spans[i], strings[i])
  }

  lemma AllLieMore(b: seq<byte>, src: nat, spans: seq<nat>, strings: seq<seq<byte>>, at: nat, s: seq<byte>)
    requires AllLie(b, src, spans, strings) && Lies(b, src, at, s)
    ensures AllLie(b, src, spans + [at], strings + [s])
  {
    hide Lies;
  }

  /** Writing from `head` on leaves alone what lies before it. */
  lemma AllLieLater(b: seq<byte>, src: nat, b': seq<byte>, src': nat, head: nat, spans: seq<nat>,
                    strings: seq<seq<byte>>)
    requires AllLie(b, src, spans, strings) && src <= head <= src' <= |b'| == |b| && b[..head] == b'[..head]
    ensures AllLie(b', src', spans, strings)
  {
    hide Lies;
    forall i | 0 <= i < |spans| ensures Lies(b', src', spans[i], strings[i]) {
      LiesLater(b, src, b', src', head, spans[i], strings[i]);
    }
  }

  lemma LiesLater(b: seq<byte>, src: nat, b': seq<byte>, src': nat, head: nat, at: nat, s: seq<byte>)
    requires Lies(b, src, at, s) && src <= head <= src' <= |b'| == |b| && b[..head] == b'[..head]
    ensures Lies(b', src', at, s)
  {
    SliceOfPrefix(b, b', head, at, at + |s|);
    assert b'[at + |s|] == b'[..head][at + |s|] && b[at + |s|] == b[..head][at + |s|];
  }

  lemma SliceOfPrefix(b: seq<byte>, b': seq<byte>, head: nat, i: nat, j: nat)
    requires i <= j <= head <= |b| == |b'| && b[..head] == b'[..head]
    ensures b'[i..j] == b[i..j]
  {
    assert b'[i..j] == b'[..head][i..j] && b[i..j] == b[..head][i..j];
  }

  lemma OutputLies(b: seq<byte>, head: nat, dst: nat, src: nat, bytes: seq<byte>)
    requires head <= dst <= src <= |b| && b[head..dst] == bytes + [0]
    ensures Lies(b, src, head, bytes)
  {
    assert b[head + |bytes|] == b[head..dst][|bytes|];
    assert b[head..head + |bytes|] == b[head..dst][..|bytes|];
  }

  /** What the digit loops keep of an integer part: of one beyond 64 bits, that it has all the digits that count. */
  predicate Counted(whole: nat, count: nat, value: nat, significant: nat, big: bool)
  {
    if big then whole >= SIGNIFICAND_LIM && count >= SIGNIFICANT_DIGITS && significant >= SIGNIFICANT_DIGITS
    else value == whole && significant == count
  }

  lemma BigIsLarge(m: Magnitude)
    ensures !Fits64(m) ==> m.value >= SIGNIFICAND_LIM
  {
  }

  lemma ScaleDone(digits: seq<byte>, value: nat, significant: nat)
    requires (forall c :: c in digits ==> IsDigit(c)) && value >= SIGNIFICAND_LIM
    ensures significant >= SIGNIFICANT_DIGITS ==> Scale(digits, value, significant) == 0
  {
  }

  lemma DigitsEndPast(t: Text, i: nat)
    ensures DigitsEnd(t, i) > i <==> IsDigit(Peek(t, i))
  {
  }

  /** One digit of a fraction. */
  lemma ScaleStep(t: Text, i: nat, end: nat, value: nat, significant: nat)
    requires i <= end <= |t| && (forall k :: i <= k < end ==> IsDigit(Peek(t, k))) && (i < |t| ==> t[i] == Peek(t, i))
    ensures i == end ==> Scale(Between(t, i, end), value, significant) == 0
    ensures i < end ==>
      var more := 10 * value + (Peek(t, i) - ZERO);
      Scale(Between(t, i, end), value, significant) ==
      if value < SIGNIFICAND_LIM then
        1 + Scale(Between(t, i + 1, end), more, if more != 0 then significant + 1 else significant)
      else if significant < SIGNIFICANT_DIGITS then 1 + Scale(Between(t, i + 1, end), value, significant + 1)
      else 0
  {
    if i < end { assert Between(t, i, end)[1..] == Between(t, i + 1, end); }
  }

  class Reader {
    const env: Env
    const insitu: bool            // kParseInsituFlag
    const input: InsituStringStream
    ghost const text: Text        // what the buffer held at first
    var decoded: seq<byte>        // stack_ as a stack of bytes
    var frames: seq<Frame>        // stack_ as a stack of pairs
    var error: Option<Code>       // parseResult_
    var told: seq<Event>          // what the handler has received
    ghost var spans: seq<nat>     // where the strings lie that were handed over in place

    ghost predicate Reading()
      reads input, input.buf
    {
      input.Valid() && input.Unread(text)
    }

    /** Every string handed over in place still lies there and will not be written again. */
    ghost predicate Kept()
      reads `told, `spans, input`src, input.buf
    {
      insitu ==> AllLie(input.buf[..], input.src, spans, Strings(told))
    }

    ghost predicate Valid()
      reads `told, `spans, input, input.buf
    {
      Reading() && Kept()
    }

    constructor (env: Env, insitu: bool, input: InsituStringStream)
      requires input.Valid() && input.src == 0
      ensures Valid() && this.env == env && this.insitu == insitu && this.input == input && text == input.buf[..]
      ensures error == None && told == []
    {
      this.env, this.insitu, this.input, this.text := env, insitu, input, input.buf[..];
      decoded, frames, error, told, spans := [], [], None, [], [];
    }

    /** The parse is where `r` says. */
    ghost predicate Reached(r: Result)
      reads `error, `told, input`src
    {
      match r
      case Ok(pos, ev) => error == None && input.src == pos && told == ev
      case Err(code, ev) => error == Some(code) && told == ev
    }

    // ----- white space and comments

    method Consume(wanted: byte) returns (b: bool)
      requires Reading() && wanted != 0
      modifies input`src
      ensures Reading() && b == (JsonText.Peek(text, old(input.src)) == wanted)
      ensures input.src == old(input.src) + (if b then 1 else 0)
    {
      b := input.Peek() == wanted;
      if b { var _ := input.Take(); }
    }

    method SkipWhitespace()
      requires Reading()
      modifies input`src
      ensures Reading() && input.src == SkipSpace(text, old(input.src))
    {
      while IsSpace(input.Peek())
        invariant Reading() && SkipSpace(text, input.src) == SkipSpace(text, old(input.src))
        decreases |text| - input.src
      {
        var _ := input.Take();
      }
    }

    /** Inside a block comment: true when its end was found. */
    method SkipBlock() returns (closed: bool)
      requires Reading()
      modifies input`src
      ensures Reading() && input.src >= old(input.src)
      ensures BlockEnd(text, old(input.src)) == if closed then Some(input.src) else None
    {
      while true
        invariant Reading() && input.src >= old(input.src)
        invariant BlockEnd(text, input.src) == BlockEnd(text, old(input.src))
        decreases |text| - input.src
      {
        if input.Peek() == 0 { return false; }
        var star := Consume(STAR);
        if star {
          var slash := Consume(SLASH);
          if slash { return true; }
        } else {
          var _ := input.Take();
        }
      }
    }

    method SkipLine()
      requires Reading()
      modifies input`src
      ensures Reading() && input.src == LineEnd(text, old(input.src))
    {
      var c: byte := 0;
      while input.Peek() != 0
        invariant Reading() && LineEnd(text, input.src) == LineEnd(text, old(input.src))
        decreases |text| - input.src
      {
        c := input.Take();
        if c == NEWLINE { return; }
      }
    }

    /** A comment whose slash has been read. */
    method SkipComment()
      requires Reading() && error == None
      modifies `error, input`src
      ensures Reading() && input.src >= old(input.src)
      ensures match CommentEnd(text, old(input.src))
        case None => error == Some(UnspecificSyntaxError)
        case Some(k) => error == None && input.src == k
    {
      var star := Consume(STAR);
      if star {
        var closed := SkipBlock();
        if !closed { error := Some(UnspecificSyntaxError); }
      } else {
        var another := Consume(SLASH);
        if another { SkipLine(); } else { error := Some(UnspecificSyntaxError); }
      }
    }

    /** Strings handed over earlier lie before `head` and so stay. */
    twostate lemma KeptBefore(head: nat)
      requires old(Kept()) && old(input.src) <= head <= input.src <= input.buf.Length
      requires input.buf[..head] == old(input.buf[..head]) && told == old(told) && spans == old(spans)
      ensures Kept()
    {
      hide AllLie;
      if insitu {
        assert input.buf[..][..head] == old(input.buf[..])[..head] by {
          assert input.buf[..][..head] == input.buf[..head];
        }
        AllLieLater(old(input.buf[..]), old(input.src), input.buf[..], input.src, head, spans, Strings(told));
      }
    }

    method SkipWhitespaceAndComments()
      requires Valid() && error == None
      modifies `error, input`src
      ensures Valid() && Reached(Skipped(env, text, old(input.src), told))
    {
      hide CommentEnd, SkipSpace, Kept;
      SkipWhitespace();
      if env.comments {
        SkipComments(old(input.src));
      }
      KeptBefore(old(input.src));
    }

    /** The comment loop of SkipWhitespaceAndComments. */
    method SkipComments(ghost from: nat)
      requires Reading() && error == None && input.src == SkipSpace(text, from)
      modifies `error, input`src
      ensures Reading() && input.src >= old(input.src)
      ensures match Skip(text, true, from)
        case None => error == Some(UnspecificSyntaxError)
        case Some(j) => error == None && input.src == j
    {
      hide CommentEnd, SkipSpace, Skip, Kept;
      SkipBySpace(text, from);
      var slash := Consume(SLASH);
      while slash
        invariant Reading() && error == None && input.src >= old(input.src)
        invariant input.src >= (if slash then 1 else 0)
        invariant var j := input.src - (if slash then 1 else 0);
          && SkipSpace(text, j) == j && Skip(text, true, from) == Skip(text, true, j)
          && slash == (JsonText.Peek(text, j) == SLASH)
        decreases |text| - input.src, slash
      {
        SkipTurn(text, input.src - 1);
        SkipComment();
        if error != None { return; }
        SkipBySpace(text, input.src);
        SkipWhitespace();
        slash := Consume(SLASH);
      }
      SkipTurn(text, input.src);
    }

    // ----- strings

    /** What has been put since `head`. */
    ghost function Output(head: nat): seq<byte>
      reads `decoded, input, input.buf
      requires input.Valid() && head <= input.dst
    {
      if insitu then input.buf[head..input.dst] else decoded
    }

    /** Room to write k bytes without touching the unread part. */
    ghost predicate Room(k: nat)
      reads input
    {
      insitu ==> input.dst + k <= input.src
    }

    method Put(c: byte, ghost head: nat)
      requires Reading() && head <= input.dst && Room(1)
      modifies `decoded, input`dst, input.buf
      ensures Reading() && head <= input.dst && Output(head) == old(Output(head)) + [c]
      ensures input.dst <= old(input.dst) + 1
      ensures input.buf[..head] == old(input.buf[..head])
    {
      if insitu { input.Put(c); } else { decoded := decoded + [c]; }
    }

    method PutTwo(c: byte, d: byte, ghost head: nat)
      requires Reading() && head <= input.dst && Room(2)
      modifies `decoded, input`dst, input.buf
      ensures Reading() && head <= input.dst && Output(head) == old(Output(head)) + [c, d]
      ensures input.dst <= old(input.dst) + 2
      ensures input.buf[..head] == old(input.buf[..head])
    {
      Put(c, head);
      Put(d, head);
    }

    /** UTF8::Encode onto the output. */
    method Encode(codepoint: nat, ghost head: nat)
      requires Reading() && head <= input.dst && codepoint <= 0x10ffff && Room(|Utf8(codepoint)|)
      modifies `decoded, input`dst, input.buf
      ensures Reading() && head <= input.dst && Output(head) == old(Output(head)) + Utf8(codepoint)
      ensures input.dst <= old(input.dst) + |Utf8(codepoint)|
      ensures input.buf[..head] == old(input.buf[..head])
    {
      hide Reading, Output;
      if codepoint <= 0x7f {
        Put(codepoint, head);
      } else if codepoint <= 0x7ff {
        PutTwo(0xc0 + codepoint / 0x40, 0x80 + codepoint % 0x40, head);
      } else if codepoint <= 0xffff {
        Put(0xe0 + codepoint / 0x1000, head);
        PutTwo(0x80 + codepoint / 0x40 % 0x40, 0x80 + codepoint % 0x40, head);
      } else {
        PutTwo(0xf0 + codepoint / 0x4_0000, 0x80 + codepoint / 0x1000 % 0x40, head);
        PutTwo(0x80 + codepoint / 0x40 % 0x40, 0x80 + codepoint % 0x40, head);
      }
    }

    method ParseHex4() returns (codepoint: u32)
      requires Reading() && error == None
      modifies `error, input`src
      ensures Reading() && input.src >= old(input.src)
      ensures match Hex4(text, old(input.src))
        case None => error == Some(StringUnicodeEscapeInvalidHex)
        case Some(h) => error == None && codepoint == h && input.src == old(input.src) + 4
    {
      codepoint := 0;
      ghost var from := input.src;
      for i := 0 to 4
        invariant Reading() && error == None && input.src == from + i
        invariant Hex(text, input.src, i, codepoint) == Hex(text, from, 0, 0)
        invariant codepoint <
          if i == 0 then 1 else if i == 1 then 16 else if i == 2 then 256 else if i == 3 then 4096 else 65536
      {
        var c := input.Peek();
        if 0x30 <= c <= 0x39 {
          codepoint := codepoint * 16 + (c - 0x30);
        } else if 0x41 <= c <= 0x46 {
          codepoint := codepoint * 16 + (c - 0x41 + 10);
        } else if 0x61 <= c <= 0x66 {
          codepoint := codepoint * 16 + (c - 0x61 + 10);
        } else {
          error := Some(StringUnicodeEscapeInvalidHex);
          return;
        }
        var _ := input.Take();
      }
    }

    /** An escape, at its backslash. */
    method TakeEscape(ghost head: nat)
      requires Reading() && error == None && head <= input.dst && JsonText.Peek(text, input.src) == BACKSLASH
      modifies `decoded, `error, input, input.buf
      ensures Reading() && input.src >= old(input.src)
      ensures head <= input.dst && input.buf[..head] == old(input.buf[..head])
      ensures match Escaped(text, old(input.src))
        case Put(bytes, next) => error == None && input.src == next && Output(head) == old(Output(head)) + bytes
        case Bad(code) => error == Some(code)
        case _ => false
    {
      hide Unescape, Utf8, Hex4;
      var _ := input.Take();
      var e := input.Peek();
      if Unescape(e) != 0 {
        var _ := input.Take();
        Put(Unescape(e), head);
      } else if e == SMALL_U {
        var _ := input.Take();
        var codepoint := ParseHex4();
        if error != None { return; }
        if 0xd800 <= codepoint <= 0xdbff {
          codepoint := TakeLowSurrogate(codepoint);
          if error != None { return; }
        }
        Encode(codepoint, head);
      } else {
        error := Some(StringEscapeInvalid);
      }
    }

    /** The second half of a surrogate pair. */
    method TakeLowSurrogate(high: u32) returns (codepoint: u32)
      requires Reading() && error == None && 0xd800 <= high <= 0xdbff
      modifies `error, input`src
      ensures Reading() && input.src >= old(input.src)
      ensures var i := old(input.src);
        if JsonText.Peek(text, i) != BACKSLASH || JsonText.Peek(text, i + 1) != SMALL_U then
          error == Some(StringUnicodeSurrogateInvalid)
        else match Hex4(text, i + 2)
          case None => error == Some(StringUnicodeEscapeInvalidHex)
          case Some(low) =>
            if !(0xdc00 <= low <= 0xdfff) then error == Some(StringUnicodeSurrogateInvalid)
            else
              error == None && input.src == i + 6 &&
              codepoint == (high - 0xd800) * 0x400 + (low - 0xdc00) + 0x1_0000 <= 0x10ffff
    {
      hide Hex4;
      codepoint := high;
      var backslash := Consume(BACKSLASH);
      if !backslash { error := Some(StringUnicodeSurrogateInvalid); return; }
      var u := Consume(SMALL_U);
      if !u { error := Some(StringUnicodeSurrogateInvalid); return; }
      var low := ParseHex4();
      if error != None { return; }
      if low < 0xdc00 || low > 0xdfff { error := Some(StringUnicodeSurrogateInvalid); return; }
      codepoint := (high - 0xd800) * 0x400 + (low - 0xdc00) + 0x1_0000;
    }

    /** ParseStringToStream: in place or not, the output is the decoded string and its NUL, nothing before
        it changes, and what has not been read is as it was. */
    method ParseStringToStream(ghost head: nat)
      requires Reading() && error == None && head <= input.dst && Output(head) == []
      modifies `decoded, `error, input, input.buf
      ensures Reading() && input.src >= old(input.src)
      ensures head <= input.dst && input.buf[..head] == old(input.buf[..head])
      ensures match Decode(text, old(input.src))
        case Str(bytes, next) => error == None && input.src == next && Output(head) == bytes + [0]
        case StrErr(code) => error == Some(code)
    {
      hide Decode, Escaped;
      ghost var whole := Decode(text, input.src);
      assert whole == Behind([], whole) by { if whole.Str? { assert [] + whole.bytes == whole.bytes; } }
      while true
        invariant Reading() && error == None && input.src >= old(input.src) && head <= input.dst
        invariant input.buf[..head] == old(input.buf[..head])
        invariant whole == Behind(Output(head), Decode(text, input.src))
        decreases |text| - input.src
      {
        BehindPut(Output(head), text, input.src, whole);
        var c := input.Peek();
        if c == BACKSLASH {
          TakeEscape(head);
          if error != None { return; }
        } else if c == QUOTE {
          var _ := input.Take();
          Put(0, head);
          return;
        } else if c < 0x20 {
          error := Some(if c == 0 then StringMissQuotationMark else StringEscapeInvalid);
          return;
        } else {
          var _ := input.Take();
          Put(c, head);
        }
      }
    }

    // ----- telling the handler

    /** The handler is told of an event that carries no string; its refusal ends the parse. */
    method Notify(e: Event)
      requires Valid() && error == None && !e.String? && !e.Key?
      modifies `told, `error
      ensures Valid() && Reached(Tell(env, input.src, old(told), e))
    {
      StringsSnoc(told, e);
      assert Strings(told + [e]) == Strings(told);
      told := told + [e];
      if !env.handler(told) { error := Some(Termination); }
    }

    method NotifyString(isKey: bool, bytes: seq<byte>, ghost at: nat)
      requires Valid() && error == None && (insitu ==> Lies(input.buf[..], input.src, at, bytes))
      modifies `told, `error, `spans
      ensures Valid() && Reached(Tell(env, input.src, old(told), if isKey then Key(bytes) else String(bytes)))
    {
      hide Lies, AllLie;
      var e := if isKey then Key(bytes) else String(bytes);
      StringsSnoc(told, e);
      if insitu { AllLieMore(input.buf[..], input.src, spans, Strings(told), at, bytes); }
      told, spans := told + [e], if insitu then spans + [at] else spans;
      if !env.handler(told) { error := Some(Termination); }
    }

    /** The two ways of decoding a string whose opening quote has been read. */
    method DecodeString() returns (bytes: seq<byte>, ghost head: nat)
      requires Valid() && error == None
      modifies `decoded, `error, input, input.buf
      ensures Valid()
      ensures match Decode(text, old(input.src))
        case Str(b, next) =>
          error == None && input.src == next && bytes == b && (insitu ==> Lies(input.buf[..], next, head, b))
        case StrErr(code) => error == Some(code)
    {
      hide Decode, Kept, Lies;
      bytes := [];
      var begin := input.PutBegin();
      head := begin;
      decoded := [];
      ParseStringToStream(head);
      KeptBefore(head);
      if error != None { return; }
      if insitu {
        var length := input.PutEnd(begin);
        bytes := input.buf[begin..begin + length - 1];
        assert input.buf[begin..begin + length][..length - 1] == bytes;
        OutputLies(input.buf[..], head, input.dst, input.src, bytes);
      } else {
        bytes := decoded[..|decoded| - 1];
      }
      decoded := [];
    }

    method ParseString(isKey: bool)
      requires Valid() && error == None && JsonText.Peek(text, input.src) == QUOTE
      modifies `decoded, `error, `told, `spans, input, input.buf
      ensures Valid() && Reached(StringAt(env, text, old(input.src), old(told), isKey))
    {
      hide Decode, Lies, AllLie;
      ghost var from := input.src;
      var _ := input.Take();
      KeptBefore(from);
      var bytes, head := DecodeString();
      if error != None { return; }
      NotifyString(isKey, bytes, head);
    }
    // ----- scalars

    /** A literal name: its first letter has been seen, `rest` is what must follow. */
    method ParseNull()
      requires Valid() && error == None && JsonText.Peek(text, input.src) == SMALL_N
      modifies `told, `error, input`src
      ensures Valid() && Reached(Literal(env, text, old(input.src), old(told), ULL, Null))
    {
      hide Kept;
      ghost var from := input.src;
      var _ := input.Take();
      Spelled3(text, input.src, ULL);
      var b := Consume(0x75);
      if b { b := Consume(0x6c); }
      if b { b := Consume(0x6c); }
      KeptBefore(from);
      if b { Notify(Null); } else { error := Some(ValueInvalid); }
    }

    method ParseTrue()
      requires Valid() && error == None && JsonText.Peek(text, input.src) == SMALL_T
      modifies `told, `error, input`src
      ensures Valid() && Reached(Literal(env, text, old(input.src), old(told), RUE, Bool(true)))
    {
      hide Kept;
      ghost var from := input.src;
      var _ := input.Take();
      Spelled3(text, input.src, RUE);
      var b := Consume(0x72);
      if b { b := Consume(0x75); }
      if b { b := Consume(0x65); }
      KeptBefore(from);
      if b { Notify(Bool(true)); } else { error := Some(ValueInvalid); }
    }

    method ParseFalse()
      requires Valid() && error == None && JsonText.Peek(text, input.src) == SMALL_F
      modifies `told, `error, input`src
      ensures Valid() && Reached(Literal(env, text, old(input.src), old(told), ALSE, Bool(false)))
    {
      hide Kept;
      ghost var from := input.src;
      var _ := input.Take();
      MatchesStep(text, input.src, ALSE);
      Spelled3(text, input.src + 1, ALSE[1..]);
      var b := Consume(0x61);
      if b { b := Consume(0x6c); }
      if b { b := Consume(0x73); }
      if b { b := Consume(0x65); }
      KeptBefore(from);
      if b { Notify(Bool(false)); } else { error := Some(ValueInvalid); }
    }

    // ----- numbers

    /** One of the digit loops of ParseNumber: digits are taken while the value stays within
        10 * lim + last, where last is the value of a digit. */
    method TakeDigits(ghost from: nat, acc: nat, count: nat, lim: nat, last: nat)
      returns (value: nat, significant: nat, full: bool)
      requires Reading() && from < input.src && last < 10 && acc <= 10 * lim + last
      requires forall k :: from <= k < input.src ==> IsDigit(JsonText.Peek(text, k))
      requires acc == Decimal(text, from, input.src) && count == input.src - from - 1
      modifies input`src
      ensures Reading() && input.src >= old(input.src) && significant == input.src - from - 1
      ensures forall k :: from <= k < input.src ==> IsDigit(JsonText.Peek(text, k))
      ensures value == Decimal(text, from, input.src)
      ensures value <= 10 * lim + last
      ensures full ==> IsDigit(JsonText.Peek(text, input.src))
      ensures full ==> 10 * value + (JsonText.Peek(text, input.src) - ZERO) > 10 * lim + last
      ensures !full ==> !IsDigit(JsonText.Peek(text, input.src))
    {
      value, significant, full := acc, count, false;
      while IsDigit(input.Peek())
        invariant Reading() && input.src >= old(input.src) && significant == input.src - from - 1
        invariant forall k :: from <= k < input.src ==> IsDigit(JsonText.Peek(text, k))
        invariant value == Decimal(text, from, input.src)
        invariant value <= 10 * lim + last
        decreases |text| - input.src
      {
        if value >= lim {
          if value != lim || input.Peek() - ZERO > last {
            full := true;
            return;
          }
        }
        var c := input.Take();
        value, significant := value * 10 + (c - ZERO), significant + 1;
      }
    }

    /** The integer part of a number behind its first digit: the value and the class it needs, or `big`
        when 64 bits are not enough; then all the digits have been taken. */
    method TakeInteger(minus: bool, ghost from: nat)
      returns (value: nat, significant: nat, use64bit: bool, big: bool)
      requires Reading() && from < |text| && input.src == from && IsDigit(JsonText.Peek(text, from))
      requires JsonText.Peek(text, from) != ZERO
      modifies input`src
      ensures Reading() && input.src == DigitsEnd(text, from)
      ensures var m := Magnitude(minus, Decimal(text, from, input.src), input.src);
        && (big <==> !Fits64(m))
        && (big ==> significant >= SIGNIFICANT_DIGITS && input.src - from - 1 >= SIGNIFICANT_DIGITS)
        && (!big ==> value == m.value && significant == input.src - from - 1)
        && (!big ==> (use64bit <==> m.value > if minus then INT_MIN_ABS else UINT_LIM - 1))
    {
      hide DigitsEnd, IsDigit, Power10;
      OneDigit(text, from);
      var c := input.Take();
      value, use64bit, big := c - ZERO, false, false;
      value, significant, use64bit :=
        TakeDigits(from, value, 0, if minus then 214748364 else 429496729, if minus then 8 else 5);
      if use64bit {
        ghost var at32 := input.src;
        value, significant, big :=
          TakeDigits(from, value, significant, if minus then 0x0CCC_CCCC_CCCC_CCCC else 0x1999_9999_9999_9999,
                     if minus then 8 else 5);
        ghost var at64 := input.src;
        if big {
          ManyDigits(text, from, at64);
          TakeRest(from);
          DigitBeyond(text, from, at64, input.src);
        }
        DigitBeyond(text, from, at32, input.src);
      }
      DigitsEndAt(text, from, input.src);
    }

    /** The digits beyond 64 bits. */
    method TakeRest(ghost from: nat)
      requires Reading() && from <= input.src && forall k :: from <= k < input.src ==> IsDigit(JsonText.Peek(text, k))
      modifies input`src
      ensures Reading() && input.src >= old(input.src) && !IsDigit(JsonText.Peek(text, input.src))
      ensures forall k :: from <= k < input.src ==> IsDigit(JsonText.Peek(text, k))
    {
      while IsDigit(input.Peek())
        invariant Reading() && input.src >= old(input.src)
        invariant forall k :: from <= k < input.src ==> IsDigit(JsonText.Peek(text, k))
        decreases |text| - input.src
      {
        var _ := input.Take();
      }
    }

    /** The integer part of a number, if there is one. */
    method ParseInteger() returns (found: bool, minus: bool, value: nat, significant: nat, use64bit: bool, big: bool)
      requires Reading()
      modifies input`src
      ensures Reading() && input.src >= old(input.src)
      ensures var first := if JsonText.Peek(text, old(input.src)) == MINUS then old(input.src) + 1 else old(input.src);
        match IntegerAt(text, old(input.src))
        case None => !found && input.src == first
        case Some(m) =>
          && found && minus == m.minus && input.src == m.next && (big <==> !Fits64(m))
          && (!big ==> value == m.value && (use64bit <==> m.value > if minus then INT_MIN_ABS else UINT_LIM - 1))
          && Counted(m.value, m.next - first - 1, value, significant, big)
    {
      hide Decimal, DigitsEnd, Fits64;
      found, value, significant, use64bit, big := true, 0, 0, false, false;
      minus := Consume(MINUS);
      if input.Peek() == ZERO {
        var _ := input.Take();
        ZeroFits(Magnitude(minus, 0, input.src));
      } else if IsDigit(input.Peek()) {
        value, significant, use64bit, big := TakeInteger(minus, input.src);
        BigIsLarge(IntegerAt(text, old(input.src)).value);
      } else {
        found := false;
      }
    }

    /** One of the words for NaN and infinity. */
    method TakeWord() returns (found: bool)
      requires Reading()
      modifies input`src
      ensures Reading() && input.src >= old(input.src)
      ensures match WordEnd(text, old(input.src))
        case None => !found
        case Some(end) => found && input.src == end
    {
      hide Reading;
      Spelled3(text, input.src, NAN);
      var nan := Consume(NAN[0]);
      if nan { nan := Consume(NAN[1]); }
      if nan { nan := Consume(NAN[2]); }
      if nan { return true; }
      Spelled3(text, input.src, INF);
      found := Consume(INF[0]);
      if found { found := Consume(INF[1]); }
      if found { found := Consume(INF[2]); }
      if found {
        var c := input.Peek();
        if c == INITY[0] { found := TakeInity(); }
      }
    }

    method TakeInity() returns (found: bool)
      requires Reading()
      modifies input`src
      ensures Reading() && input.src >= old(input.src) && found == Matches(text, old(input.src), INITY)
      ensures found ==> input.src == old(input.src) + 5
    {
      hide Reading;
      MatchesStep(text, input.src, INITY);
      MatchesStep(text, input.src + 1, INITY[1..]);
      Spelled3(text, input.src + 2, INITY[2..]);
      found := Consume(INITY[0]);
      if found { found := Consume(INITY[1]); }
      if found { found := Consume(INITY[2]); }
      if found { found := Consume(INITY[3]); }
      if found { found := Consume(INITY[4]); }
    }

    /** The digits of a fraction: the scale says how many of them count. A significand of more than 64 bits already
        has all the digits that count. */
    method TakeFraction(from: nat, value0: nat, significant0: nat, big: bool, ghost whole: nat, ghost count: nat)
      returns (scale: nat)
      requires Reading() && input.src == from && Counted(whole, count, value0, significant0, big)
      modifies input`src
      ensures Reading() && input.src == DigitsEnd(text, from) <= |text|
      ensures scale == Scale(Between(text, from, input.src), whole, count)
    {
      hide DigitsEnd, Scale, Between;
      var value: nat, significant: nat := value0, significant0;
      ghost var end := DigitsEnd(text, from);
      ghost var total := Scale(Between(text, from, end), whole, count);
      scale := 0;
      if !big {
        while IsDigit(input.Peek()) && value < SIGNIFICAND_LIM
          invariant Reading() && from <= input.src <= end
          invariant total == scale + Scale(Between(text, input.src, end), value, significant)
          decreases |text| - input.src
        {
          ScaleStep(text, input.src, end, value, significant);
          var c := input.Take();
          value, scale := value * 10 + (c - ZERO), scale + 1;
          if value != 0 { significant := significant + 1; }
        }
      }
      ghost var v: nat, s: nat := if big then whole else value, if big then count else significant;
      while IsDigit(input.Peek())
        invariant Reading() && from <= input.src <= end
        invariant input.src < end ==> v >= SIGNIFICAND_LIM
        invariant s == significant || (s >= SIGNIFICANT_DIGITS && significant >= SIGNIFICANT_DIGITS)
        invariant total == scale + Scale(Between(text, input.src, end), v, s)
        decreases |text| - input.src
      {
        ScaleStep(text, input.src, end, v, s);
        ScaleDone(Between(text, input.src + 1, end), v, s);
        var _ := input.Take();
        if significant < SIGNIFICANT_DIGITS {
          scale, significant, s := scale + 1, significant + 1, s + 1;
        }
      }
    }

    /** The digits of a positive exponent. */
    method TakeLimited(limit: nat)
      requires Reading() && error == None && IsDigit(JsonText.Peek(text, input.src)) && limit > 9
      modifies `error, input`src
      ensures Reading() && input.src >= old(input.src)
      ensures error == Some(NumberTooBig) || error == None
      ensures var end := DigitsEnd(text, old(input.src));
        && (error == None <==> Decimal(text, old(input.src), end) <= limit)
        && (error == None ==> input.src == end)
    {
      hide DigitsEnd;
      ghost var from := input.src;
      OneDigit(text, from);
      var c := input.Take();
      var exp: nat := c - ZERO;
      while IsDigit(input.Peek())
        invariant Reading() && from < input.src && forall k :: from <= k < input.src ==> IsDigit(JsonText.Peek(text, k))
        invariant error == None && exp == Decimal(text, from, input.src) <= limit
        decreases |text| - input.src
      {
        c := input.Take();
        exp := exp * 10 + (c - ZERO);
        if exp > limit {
          DigitsEndFrom(text, from, input.src);
          DecimalGrows(text, from, input.src, DigitsEnd(text, from));
          error := Some(NumberTooBig);
          return;
        }
      }
      DigitsEndAt(text, from, input.src);
    }

    /** The exponent, if there is one. */
    method TakeExponent(limit: nat)
      requires Reading() && error == None && limit > 9
      modifies `error, input`src
      ensures Reading() && input.src >= old(input.src)
      ensures match ExponentEnd(text, old(input.src), limit)
        case BadFloat(code) => error == Some(code)
        case FloatTo(end) => error == None && input.src == end
    {
      hide Decimal, DigitsEnd, Reading;
      var e := Consume(SMALL_E);
      if !e { e := Consume(CAPITAL_E); }
      if !e { return; }
      var minus := false;
      var plus := Consume(PLUS);
      if !plus { minus := Consume(MINUS); }
      TakeExponentDigits(minus, limit);
    }

    /** The digits of an exponent, behind its sign. */
    method TakeExponentDigits(minus: bool, limit: nat)
      requires Reading() && error == None && limit > 9
      modifies `error, input`src
      ensures Reading() && input.src >= old(input.src)
      ensures var end := DigitsEnd(text, old(input.src));
        if end == old(input.src) then error == Some(NumberMissExponent)
        else if !minus && Decimal(text, old(input.src), end) > limit then error == Some(NumberTooBig)
        else error == None && input.src == end
    {
      hide Decimal, DigitsEnd;
      ghost var from := input.src;
      DigitsEndPast(text, from);
      if !IsDigit(input.Peek()) {
        error := Some(NumberMissExponent);
      } else if minus {
        TakeRest(from);
        DigitsEndAt(text, from, input.src);
      } else {
        TakeLimited(limit);
      }
    }

    /** Fraction and exponent of a number whose integer part has been taken. */
    method FinishFloat(start: nat, value: nat, significant: nat, big: bool, ghost whole: nat, ghost count: nat)
      requires Valid() && error == None && start < input.src && Counted(whole, count, value, significant, big)
      requires forall k :: start <= k < |text| ==> input.buf[k] == text[k]
      modifies `told, `error, input`src
      ensures Valid() && Reached(FloatAt(env, text, start, old(input.src), whole, count, old(told)))
    {
      hide Kept, ExponentEnd, Scale, Between;
      ghost var from := input.src;
      var limit := MAX_EXPONENT;
      var dot := Consume(DOT);
      if dot {
        if !IsDigit(input.Peek()) {
          DigitsEndAt(text, input.src, input.src);
          KeptBefore(from);
          error := Some(NumberMissFraction);
          return;
        }
        var scale := TakeFraction(input.src, value, significant, big, whole, count);
        limit := limit + scale;
      }
      TakeExponent(limit);
      KeptBefore(from);
      if error != None { return; }
      assert input.buf[start..input.src] == text[start..input.src];
      Notify(Double(input.buf[start..input.src]));
    }

    method ParseNumber()
      requires Valid() && error == None
      modifies `told, `error, input`src
      ensures Valid() && Reached(NumberAt(env, text, old(input.src), old(told)))
    {
      hide Kept, IntegerAt, FloatAt, WordEnd;
      var start := input.src;
      ghost var first := if JsonText.Peek(text, start) == MINUS then start + 1 else start;
      var found, minus, value, significant, use64bit, big := ParseInteger();
      KeptBefore(start);
      if !found {
        if env.nanAndInf { found := TakeWord(); KeptBefore(start); }
        if !found { error := Some(ValueInvalid); return; }
        FinishFloat(start, 0, 0, false, 0, 0);
        return;
      }
      ghost var m := IntegerAt(text, start).value;
      if big {
        assert input.buf[start..input.src] == text[start..input.src];
        if env.huge(input.buf[start..input.src]) { error := Some(NumberTooBig); return; }
      }
      if big || GoesOn(input.Peek()) {
        FinishFloat(start, value, significant, big, m.value, m.next - first - 1);
      } else {
        Notify(Number(if use64bit then (if minus then Int64(Negate64(value)) else Uint64(value))
                      else if minus then Int(Negate32(value)) else Uint(value)));
      }
    }

    // ----- recursive descent

    /** Take and Consume, once the strings handed over are in view. */
    method Advance()
      requires Valid() && input.src < |text|
      modifies input`src
      ensures Valid() && input.src == old(input.src) + 1
    {
      hide Kept;
      ghost var from := input.src;
      var _ := input.Take();
      KeptBefore(from);
    }

    method Accept(wanted: byte) returns (b: bool)
      requires Valid() && wanted != 0
      modifies input`src
      ensures Valid() && b == (JsonText.Peek(text, old(input.src)) == wanted)
      ensures input.src == old(input.src) + (if b then 1 else 0)
    {
      b := input.Peek() == wanted;
      if b { Advance(); }
    }

    method ParseValue()
      requires Valid() && error == None
      modifies `decoded, `error, `told, `spans, input, input.buf
      ensures Valid() && Reached(Value(env, text, old(input.src), old(told)))
      decreases |text| - input.src, 3
    {
      hide Valid, StringAt, NumberAt, Literal, Object, Array;
      var c := PeekByte();
      if c == SMALL_N {
        ParseNull();
      } else if c == SMALL_T {
        ParseTrue();
      } else if c == SMALL_F {
        ParseFalse();
      } else if c == QUOTE {
        ParseString(false);
      } else if c == LBRACE {
        ParseObject();
      } else if c == LBRACKET {
        ParseArray();
      } else {
        ParseNumber();
      }
    }

    method PeekByte() returns (c: byte)
      requires Valid()
      ensures c == JsonText.Peek(text, input.src)
    {
      c := input.Peek();
    }

    /** A name, its colon and the white space around them. */
    method ParseName()
      requires Valid() && error == None
      modifies `decoded, `error, `told, `spans, input, input.buf
      ensures Valid() && Reached(NameAt(env, text, old(input.src), old(told)))
    {
      hide Valid, StringAt, Skipped;
      var c := PeekByte();
      if c != QUOTE { error := Some(ObjectMissName); return; }
      ParseString(true);
      if error != None { return; }
      SkipWhitespaceAndComments();
      if error != None { return; }
      var colon := Accept(COLON);
      if !colon { error := Some(ObjectMissColon); return; }
      SkipWhitespaceAndComments();
    }

    method ParseObject()
      requires Valid() && error == None && JsonText.Peek(text, input.src) == LBRACE
      modifies `decoded, `error, `told, `spans, input, input.buf
      ensures Valid() && Reached(Object(env, text, old(input.src), old(told)))
      decreases |text| - input.src, 2
    {
      hide Valid, NameAt, Skipped, Value, Members, AfterMember, Tell;
      ghost var whole := Object(env, text, input.src, told);
      Advance();
      Notify(StartObject);
      if error != None { return; }
      SkipWhitespaceAndComments();
      if error != None { return; }
      var closed := Accept(RBRACE);
      if closed {
        Notify(EndObject(0));
        return;
      }
      var memberCount: u32 := 0;
      while true
        invariant Valid() && error == None && input.src > old(input.src)
        invariant whole == Members(env, text, input.src, told, memberCount)
        decreases |text| - input.src
      {
        MembersCases(env, text, input.src, told, memberCount);
        ParseName();
        if error != None { return; }
        ParseValue();
        if error != None { return; }
        memberCount := Wrap(memberCount + 1);
        var done := EndMember(memberCount);
        if done { return; }
      }
    }

    /** The end of a turn of the member loop: true when the object or the parse is over. */
    method EndMember(memberCount: u32) returns (done: bool)
      requires Valid() && error == None
      modifies `error, `told, input`src
      ensures Valid()
      ensures done ==> Reached(AfterMember(env, text, old(input.src), old(told), memberCount))
      ensures !done ==> error == None && input.src > old(input.src)
      ensures !done ==>
        AfterMember(env, text, old(input.src), old(told), memberCount) ==
        Members(env, text, input.src, told, memberCount)
    {
      hide Valid, Skipped, Members;
      done := true;
      SkipWhitespaceAndComments();
      if error != None { return; }
      var c := PeekByte();
      if c == COMMA {
        Advance();
        SkipWhitespaceAndComments();
        if error != None { return; }
        c := PeekByte();
        if env.trailing && c == RBRACE {
          Notify(EndObject(memberCount));
          if error != None { return; }
          Advance();
          return;
        }
        done := false;
      } else if c == RBRACE {
        Advance();
        Notify(EndObject(memberCount));
      } else {
        error := Some(ObjectMissCommaOrCurlyBracket);
      }
    }

    method ParseArray()
      requires Valid() && error == None && JsonText.Peek(text, input.src) == LBRACKET
      modifies `decoded, `error, `told, `spans, input, input.buf
      ensures Valid() && Reached(Array(env, text, old(input.src), old(told)))
      decreases |text| - input.src, 2
    {
      hide Valid, Skipped, Value, Elements, AfterElement, Tell;
      ghost var whole := Array(env, text, input.src, told);
      Advance();
      Notify(StartArray);
      if error != None { return; }
      SkipWhitespaceAndComments();
      if error != None { return; }
      var closed := Accept(RBRACKET);
      if closed {
        Notify(EndArray(0));
        return;
      }
      var elementCount: u32 := 0;
      while true
        invariant Valid() && error == None && input.src > old(input.src)
        invariant whole == Elements(env, text, input.src, told, elementCount)
        decreases |text| - input.src
      {
        ElementsCases(env, text, input.src, told, elementCount);
        ParseValue();
        if error != None { return; }
        elementCount := Wrap(elementCount + 1);
        var done := EndElement(elementCount);
        if done { return; }
      }
    }

    method EndElement(elementCount: u32) returns (done: bool)
      requires Valid() && error == None
      modifies `error, `told, input`src
      ensures Valid()
      ensures done ==> Reached(AfterElement(env, text, old(input.src), old(told), elementCount))
      ensures !done ==> error == None && input.src > old(input.src)
      ensures !done ==>
        AfterElement(env, text, old(input.src), old(told), elementCount) ==
        Elements(env, text, input.src, told, elementCount)
    {
      hide Valid, Skipped, Elements;
      done := true;
      SkipWhitespaceAndComments();
      if error != None { return; }
      var comma := Accept(COMMA);
      if comma {
        SkipWhitespaceAndComments();
        if error != None { return; }
        var c := PeekByte();
        if env.trailing && c == RBRACKET {
          Notify(EndArray(elementCount));
          if error != None { return; }
          Advance();
          return;
        }
        done := false;
      } else {
        var close := Accept(RBRACKET);
        if close {
          Notify(EndArray(elementCount));
        } else {
          error := Some(ArrayMissCommaOrSquareBracket);
        }
      }
    }

    /** Parse without kParseIterativeFlag. */
    method Parse()
      requires Valid() && input.src == 0 && told == []
      modifies `decoded, `error, `told, `spans, input, input.buf
      ensures Valid() && Reached(Recursive(env, text))
    {
      hide Valid, Skipped, Value;
      error := None;
      SkipWhitespaceAndComments();
      if error != None { return; }
      var c := PeekByte();
      if c == 0 { error := Some(DocumentEmpty); return; }
      ParseValue();
      if error != None { return; }
      if !env.stopWhenDone {
        SkipWhitespaceAndComments();
        if error != None { return; }
        c := PeekByte();
        if c != 0 { error := Some(DocumentRootNotSingular); }
      }
    }

    // ----- the pushdown machine

    /** The machine in this state of the reader. */
    ghost function Now(state: State): Machine
      reads `frames, `told, input`src
    {
      Machine(state, frames, input.src, told)
    }

    /** The reader is where the machine says; `n` is what Transit returns. An error without a code yet
        is one the table has no entry for. */
    ghost predicate MovedTo(m: Machine, n: State, from: State)
      reads `frames, `told, `error, input`src
    {
      match m
      case Machine(_, _, _, _) => error == None && m == Now(n)
      case Stopped(code, ev) =>
        n == Error && told == ev && (error == Some(code) || (error == None && code == ErrorOf(from)))
    }

    /** The handler is told of a bracket, which is taken if it agrees. */
    method Report(e: Event)
      requires Valid() && error == None && !e.String? && !e.Key? && input.src < |text|
      modifies `told, `error, input`src
      ensures Valid() && Reached(Tell(env, old(input.src) + 1, old(told), e))
    {
      hide Valid, Reading, Kept;
      Notify(e);
      if error == None { Advance(); }
    }

    /** Opening a container: the state to return to and a count are pushed. */
    method Enter(from: State, dst: State) returns (n: State)
      requires Valid() && error == None && dst in {ObjectInitial, ArrayInitial} && input.src < |text|
      modifies `frames, `told, `error, input`src
      ensures Valid() && MovedTo(Transit(env, text, old(Now(from)), dst), n, from)
    {
      hide Valid, Reading, Kept;
      n := from;
      if from == ArrayInitial || from == ElementDelimiter {
        n := Element;
      } else if from == KeyValueDelimiter {
        n := MemberValue;
      }
      frames := frames + [Frame(n, 0)];
      Report(if dst == ObjectInitial then StartObject else StartArray);
      n := if error == None then dst else Error;
    }

    /** Closing a container: the pair is popped and its state returns. */
    method Exit(from: State, isObject: bool) returns (n: State)
      requires Valid() && error == None && frames != [] && input.src < |text|
      modifies `frames, `told, `error, input`src
      ensures Valid() && MovedTo(Leave(env, old(Now(from)), isObject), n, from)
    {
      hide Valid, Wrap, Reading, Kept, Leave, Tell;
      ghost var m := Now(from);
      var top := frames[|frames| - 1];
      frames := frames[..|frames| - 1];
      var c: u32 := top.count;
      if from == (if isObject then MemberValue else Element) { c := Wrap(c + 1); }
      n := if top.saved == Start then Finish else top.saved;
      LeaveIs(env, m, isObject, c, n);
      Report(if isObject then EndObject(c) else EndArray(c));
      if error != None { n := Error; }
    }

    /** A delimiter is taken; one behind a member or an element counts it. */
    method Pass(from: State, dst: State) returns (n: State)
      requires Valid() && error == None && input.src < |text|
      requires dst in {KeyValueDelimiter, MemberDelimiter, ElementDelimiter}
      requires dst != KeyValueDelimiter ==> frames != []
      modifies `frames, input`src
      ensures Valid() && MovedTo(Transit(env, text, old(Now(from)), dst), n, from)
    {
      hide Valid, Reading, Kept, Wrap;
      n := dst;
      Advance();
      if dst != KeyValueDelimiter {
        var top := |frames| - 1;
        frames := frames[top := frames[top].(count := Wrap(frames[top].count + 1))];
      }
    }

    /** A closing bracket, unless it follows a comma that must not trail. */
    method Close(from: State, dst: State) returns (n: State)
      requires Valid() && error == None && input.src < |text| && frames != [] && dst in {ObjectFinish, ArrayFinish}
      modifies `frames, `told, `error, input`src
      ensures Valid() && MovedTo(Transit(env, text, old(Now(from)), dst), n, from)
    {
      hide Valid, Reading, Kept, Leave, ErrorOf;
      if !env.trailing && from == (if dst == ObjectFinish then MemberDelimiter else ElementDelimiter) {
        error := Some(if dst == ObjectFinish then ObjectMissName else ValueInvalid);
        return Error;
      }
      n := Exit(from, dst == ObjectFinish);
    }

    /** A key, a string or another scalar. */
    method Scalar(from: State, dst: State) returns (n: State)
      requires Valid() && error == None && dst in {MemberKey, MemberValue, Element, ValueState}
      requires dst == MemberKey ==> JsonText.Peek(text, input.src) == QUOTE
      requires dst != MemberKey ==>
        ScalarAt(env, text, input.src, told) == Value(env, text, input.src, told)
      modifies this, input, input.buf
      ensures Valid() && MovedTo(Transit(env, text, old(Now(from)), dst), n, from)
    {
      hide Valid, Reading, Kept, StringAt, ScalarAt, Value, ErrorOf;
      n := dst;
      if dst == MemberKey {
        ParseString(true);
      } else {
        ParseValue();
        if dst == ValueState { n := Finish; }
      }
      if error != None { n := Error; }
    }

    /** Transit */
    method Move(from: State, dst: State) returns (n: State)
      requires Valid() && error == None && MachineOk(Now(from), text) && JsonText.Peek(text, input.src) != 0
      requires dst == Predict(from, Tokenize(JsonText.Peek(text, input.src)))
      modifies this, input, input.buf
      ensures Valid() && MovedTo(Turn(env, text, old(Now(from))), n, from)
    {
      hide Valid, Reading, Kept, Tokenize, MachineOk, Transit, ErrorOf, ScalarAt, Value;
      ghost var m := Now(from);
      TransitOk(env, text, m);
      Predicted(from, Tokenize(JsonText.Peek(text, input.src)));
      hide Predict;
      if dst == Error {
        NoTransit(env, text, m);
        n := Error;
      } else if dst in {ObjectInitial, ArrayInitial} {
        n := Enter(from, dst);
      } else if dst == MemberKey {
        QuoteOnly(from, JsonText.Peek(text, input.src));
        n := Scalar(from, dst);
      } else if dst in {MemberValue, Element, ValueState} {
        ScalarOnly(env, text, from, input.src, told);
        n := Scalar(from, dst);
      } else if dst in {ObjectFinish, ArrayFinish} {
        n := Close(from, dst);
      } else {
        n := Pass(from, dst);
      }
    }

    method HandleError(from: State)
      modifies `error
      ensures error == if old(error) == None then Some(ErrorOf(from)) else old(error)
    {
      if error != None { return; }
      error := Some(ErrorOf(from));
    }

    /** Parse with kParseIterativeFlag. */
    method IterativeParse()
      requires Valid() && input.src == 0 && told == []
      modifies this, input, input.buf
      ensures Valid() && Reached(Iterative(env, text))
    {
      hide Valid, Skipped, Loop, Resume, Turn, ErrorOf, Predict, Tokenize;
      error, frames := None, [];
      var state := Start;
      SkipWhitespaceAndComments();
      if error != None { return; }
      var c := PeekByte();
      while c != 0
        invariant Valid() && error == None && c == JsonText.Peek(text, input.src)
        invariant MachineOk(Now(state), text) && Iterative(env, text) == Loop(env, text, Now(state))
        decreases |text| - input.src
      {
        ghost var m := Now(state);
        LoopCases(env, text, m);
        var n := Predict(state, Tokenize(c));
        var d := Move(state, n);
        if d == Error {
          HandleError(state);
          return;
        }
        ResumeCases(env, text, Now(d));
        state := d;
        if env.stopWhenDone && state == Finish { return; }
        SkipWhitespaceAndComments();
        if error != None { return; }
        c := PeekByte();
      }
      LoopCases(env, text, Now(state));
      if state != Finish { HandleError(state); }
    }
  }

  lemma SkipBySpace(t: Text, i: nat)
    ensures var j := SkipSpace(t, i);
      SkipSpace(t, j) == j && Skip(t, true, i) == Skip(t, true, j)
  {
  }

  lemma LeaveIs(env: Env, m: Machine, isObject: bool, c: u32, n: State)
    requires m.Machine? && m.stack != []
    requires var top := m.stack[|m.stack| - 1];
      && c == (if m.state == (if isObject then MemberValue else Element) then Wrap(top.count + 1) else top.count)
      && n == (if top.saved == Start then Finish else top.saved)
    ensures Leave(env, m, isObject)
         == Entered(Tell(env, m.pos + 1, m.ev, if isObject then EndObject(c) else EndArray(c)), n,
                    m.stack[..|m.stack| - 1])
  {
    hide Tell, Entered, Wrap;
  }

  /** A turn of the comment loop, where no white space lies ahead. */
  lemma SkipTurn(t: Text, j: nat)
    ensures SkipSpace(t, j) == j ==>
      Skip(t, true, j) ==
        if JsonText.Peek(t, j) == SLASH then
          (match CommentEnd(t, j + 1) case None => None case Some(k) => Skip(t, true, k))
        else Some(j)
  {
    hide CommentEnd, SkipSpace;
  }

  lemma Spelled3(t: Text, i: nat, word: seq<byte>)
    requires 0 !in word && |word| == 3
    ensures Matches(t, i, word) <==> Peek(t, i) == word[0] && Peek(t, i + 1) == word[1] && Peek(t, i + 2) == word[2]
  {
    MatchesStep(t, i, word);
    MatchesStep(t, i + 1, word[1..]);
    MatchesStep(t, i + 2, word[1..][1..]);
  }

  lemma MembersCases(env: Env, t: Text, i: nat, ev: seq<Event>, count: u32)
    ensures var n := NameAt(env, t, i, ev);
      Members(env, t, i, ev, count) ==
        if n.Err? then n
        else
          var v := Value(env, t, n.pos, n.ok);
          if v.Err? then v else AfterMember(env, t, v.pos, v.ok, Wrap(count + 1))
  {
    hide NameAt, Value, AfterMember;
  }

  lemma ElementsCases(env: Env, t: Text, i: nat, ev: seq<Event>, count: u32)
    ensures var v := Value(env, t, i, ev);
      Elements(env, t, i, ev, count) == if v.Err? then v else AfterElement(env, t, v.pos, v.ok, Wrap(count + 1))
  {
    hide Value, AfterElement;
  }

  lemma NoTransit(env: Env, t: Text, m: Machine)
    requires m.Machine?
    ensures Transit(env, t, m, Error) == Stopped(ErrorOf(m.state), m.ev)
  {
    hide ErrorOf;
  }

  lemma Predicted(from: State, token: Token)
    ensures Predict(from, token) in {Error, ObjectInitial, ArrayInitial, MemberKey, MemberValue, Element, ValueState,
                                     ObjectFinish, ArrayFinish, KeyValueDelimiter, MemberDelimiter, ElementDelimiter}
  {
  }

  lemma QuoteOnly(from: State, c: byte)
    requires Predict(from, Tokenize(c)) == MemberKey
    ensures c == QUOTE
  {
  }

  /** Where the table expects a value that is no container, ParseValue reads one. */
  lemma ScalarOnly(env: Env, t: Text, from: State, i: nat, ev: seq<Event>)
    requires Predict(from, Tokenize(Peek(t, i))) in {MemberValue, Element, ValueState}
    ensures Value(env, t, i, ev) == ScalarAt(env, t, i, ev)
  {
    hide ScalarAt;
  }

  lemma LoopCases(env: Env, t: Text, m: Machine)
    requires m.Machine? && MachineOk(m, t)
    ensures Loop(env, t, m) ==
      if Peek(t, m.pos) == 0 then (if m.state == Finish then Ok(m.pos, m.ev) else Err(ErrorOf(m.state), m.ev))
      else Resume(env, t, Turn(env, t, m))
    ensures Peek(t, m.pos) != 0 && Turn(env, t, m).Stopped? ==>
      Loop(env, t, m) == Err(Turn(env, t, m).code, Turn(env, t, m).told)
  {
    hide Turn, ErrorOf;
  }

  lemma ResumeCases(env: Env, t: Text, m: Machine)
    requires m.Machine? && MachineOk(m, t)
    ensures var s := Skipped(env, t, m.pos, m.ev);
      && (s.Ok? ==> MachineOk(m.(pos := s.pos), t))
      && Resume(env, t, m) ==
        if env.stopWhenDone && m.state == Finish then Ok(m.pos, m.ev)
        else if s.Err? then s
        else Loop(env, t, m.(pos := s.pos))
  {
    hide Loop, Skipped;
  }

  lemma ZeroFits(m: Magnitude)
    requires m.value == 0
    ensures Fits64(m)
  {
  }
}
