/**
  The parser of JSON Pointers as it runs: names are written one after another, each with its NUL, into a
  buffer as long as the source.
 */
module PointerParser {
  import opened Wrap32
  import opened JsonText
  import opened PointerCodec

  lemma DigitsSnoc(a: seq<byte>, b: seq<byte>)
    ensures AllDigits(a + b) <==> AllDigits(a) && AllDigits(b)
  {
    if AllDigits(a + b) {
      assert forall i :: 0 <= i < |a| ==> a[i] == (a + b)[i];
      assert forall i :: 0 <= i < |b| ==> b[i] == (a + b)[|a| + i];
    }
  }

  lemma DigitAlone(c: byte)
    ensures AllDigits([c]) <==> IsDigit(c)
  {
    assert [c][0] == c;
  }

  /** Decoded characters of more than one byte hold no digits. */
  lemma WideChar(t: Text, i: nat)
    requires PercentChar(t, i).Some? && |PercentChar(t, i).value| > 1
    ensures !AllDigits(PercentChar(t, i).value)
  {
    assert !IsDigit(PercentChar(t, i).value[0]);
  }

  class GenericPointer {
    const source: Text
    const nameBuffer: array<byte>
    var name: nat                  // the name cursor
    var i: nat
    var tokens: seq<Token>
    var error: Option<PointerError>

    ghost predicate Valid()
      reads this
    {
      i <= |source| == nameBuffer.Length && name <= i
    }

    constructor (source: Text)
      ensures Valid() && this.source == source && fresh(nameBuffer) && i == name == 0 && tokens == [] && error == None
    {
      this.source := source;
      nameBuffer := new byte[|source|];
      name, i, tokens, error := 0, 0, [], None;
    }

    method Put(c: byte)
      requires name < nameBuffer.Length
      modifies `name, nameBuffer
      ensures name == old(name) + 1 && nameBuffer[..name] == old(nameBuffer[..name]) + [c]
    {
      nameBuffer[name] := c;
      name := name + 1;
    }

    /** A decoded character of several bytes is copied into the buffer. */
    method PutAll(bs: seq<byte>)
      requires name + |bs| <= nameBuffer.Length
      modifies `name, nameBuffer
      ensures name == old(name) + |bs| && nameBuffer[..name] == old(nameBuffer[..name]) + bs
    {
      var k := 0;
      while k < |bs|
        invariant 0 <= k <= |bs| && name == old(name) + k
        invariant nameBuffer[..name] == old(nameBuffer[..name]) + bs[..k]
      {
        Put(bs[k]);
        k := k + 1;
      }
    }

    /** The end of a turn: an escaped or plain byte c, with `next` behind what it was read from. */
    method TakeByte(c: byte, next: nat) returns (digits: bool)
      requires Valid() && error == None && name < i < next <= |source|
      modifies `name, `i, `error, nameBuffer
      ensures Valid()
      ensures match Unescaped(source, c, next)
        case Wrong(e) => error == Some(e)
        case Bytes(bs, after) =>
          && error == None && i == after && name == old(name) + |bs| < i
          && nameBuffer[..name] == old(nameBuffer[..name]) + bs
          && (digits <==> AllDigits(bs))
    {
      digits := false;
      var plain, after := c, next;
      if c == TILDE {
        if next < |source| && source[next] == ZERO {
          plain := TILDE;
        } else if next < |source| && source[next] == ONE {
          plain := SLASH;
        } else {
          error := Some(InvalidEscape);
          return;
        }
        after := next + 1;
      }
      digits := IsDigit(plain);
      DigitAlone(plain);
      Put(plain);
      i := after;
    }

    /** A turn of the inner loop. */
    method TakeChar(uri: bool) returns (digits: bool)
      requires Valid() && error == None && i < |source| && name < i
      modifies `name, `i, `error, nameBuffer
      ensures Valid()
      ensures match OneChar(source, old(i), uri)
        case Wrong(e) => error == Some(e)
        case Bytes(bs, next) =>
          && error == None && i == next && name == old(name) + |bs| < i
          && nameBuffer[..name] == old(nameBuffer[..name]) + bs
          && (digits <==> AllDigits(bs))
    {
      hide PercentChar, Unescaped, AllDigits;
      digits := false;
      if uri {
        if source[i] == PERCENT {
          var bs := PercentChar(source, i);
          if bs == None { error := Some(InvalidPercentEncoding); return; }
          if |bs.value| == 1 {
            digits := TakeByte(bs.value[0], i + 3);
          } else {
            WideChar(source, i);
            PutAll(bs.value);
            i := i + 3 * |bs.value|;
          }
          return;
        } else if NeedPercentEncode(source[i]) {
          error := Some(CharacterMustPercentEncode);
          return;
        }
      }
      digits := TakeByte(source[i], i + 1);
    }

    /** A name, behind its solidus; `isNumber` says that it consists of digits. */
    method TakeName(uri: bool) returns (isNumber: bool)
      requires Valid() && error == None && name < i
      modifies `name, `i, `error, nameBuffer
      ensures Valid()
      ensures match NameAt(source, old(i), uri)
        case Wrong(e) => error == Some(e)
        case Bytes(bs, next) =>
          && error == None && i == next && name == old(name) + |bs| < i
          && nameBuffer[..name] == old(nameBuffer[..name]) + bs
          && (isNumber <==> AllDigits(bs))
    {
      hide OneChar, AllDigits;
      isNumber := true;
      ghost var first, done := name, [];
      assert AllDigits([]) by { NoDigits(); }
      while i < |source| && source[i] != SLASH
        invariant Valid() && error == None && name == first + |done| < i
        invariant nameBuffer[..name] == old(nameBuffer[..name]) + done && (isNumber <==> AllDigits(done))
        invariant NameAt(source, old(i), uri) == Behind(done, NameAt(source, i, uri))
        decreases |source| - i
      {
        ghost var piece := OneChar(source, i, uri);
        ghost var from := i;
        var digits := TakeChar(uri);
        if error != None { return; }
        DigitsSnoc(done, piece.bytes);
        BehindMore(done, piece.bytes, NameAt(source, piece.next, uri));
        isNumber := isNumber && digits;
        done := done + piece.bytes;
      }
      assert done + [] == done;
    }

    /** The conversion of a name of digits; false where it overflows. */
    method ConvertName(start: nat, length: nat) returns (n: u32, fits: bool)
      requires start + length <= nameBuffer.Length && AllDigits(nameBuffer[start..start + length])
      ensures Convert(nameBuffer[start..start + length], 0, 0) == if fits then Some(n) else None
    {
      ghost var text := nameBuffer[start..start + length];
      n, fits := 0, true;
      var j := 0;
      while j < length
        invariant 0 <= j <= length && Convert(text, j, n) == Convert(text, 0, 0)
      {
        assert nameBuffer[start + j] == text[j] && IsDigit(text[j]);
        var m := Wrap(n * 10 + (nameBuffer[start + j] - ZERO));
        if m < n {
          fits := false;
          return;
        }
        n := m;
        j := j + 1;
      }
    }

    /** A token: its name, its NUL and its index. */
    method TakeToken(uri: bool)
      requires Valid() && error == None && i < |source| && source[i] == SLASH
      modifies this, nameBuffer
      ensures Valid()
      ensures match NameAt(source, old(i) + 1, uri)
        case Wrong(e) => error == Some(e)
        case Bytes(bs, next) =>
          error == None && i == next && tokens == old(tokens) + [Token(bs, IndexOf(bs))]
    {
      hide NameAt, OneChar, Convert;
      i := i + 1;
      var start := name;
      var isNumber := TakeName(uri);
      if error != None { return; }
      var length := name - start;
      ghost var bs := NameAt(source, old(i) + 1, uri).bytes;
      assert nameBuffer[start..name] == bs by {
        assert nameBuffer[start..name] == nameBuffer[..name][start..];
      }
      if length == 0 { isNumber := false; }
      Put(0);
      assert nameBuffer[start..start + length] == bs by {
        assert nameBuffer[start..start + length] == nameBuffer[..name][start..start + length];
      }
      if isNumber && length > 1 && nameBuffer[start] == ZERO { isNumber := false; }
      var n: u32 := 0;
      if isNumber { n, isNumber := ConvertName(start, length); }
      var index := if isNumber then n else INVALID_INDEX;
      tokens := tokens + [Token(nameBuffer[start..start + length], index)];
    }

    /** Parse: the tokens or the error, and the name cursor stays within the buffer. */
    method Parse()
      requires Valid() && i == name == 0 && tokens == [] && error == None
      modifies this, nameBuffer
      ensures Valid()
      ensures ParsePointer(source) == match error case None => Tokens(tokens) case Some(e) => Failed(e)
    {
      hide NameAt, OneChar, IndexOf;
      var uri := false;
      if 0 < |source| && source[0] == HASH {
        uri := true;
        i := 1;
      }
      if i != |source| && source[i] != SLASH {
        error := Some(TokenMustBeginWithSolidus);
        return;
      }
      ghost var whole := TokensAt(source, i, uri);
      while i < |source|
        invariant Valid() && error == None && (i < |source| ==> source[i] == SLASH)
        invariant whole == Joined(tokens, TokensAt(source, i, uri))
        decreases |source| - i
      {
        ghost var name := NameAt(source, i + 1, uri);
        ghost var before := tokens;
        TakeToken(uri);
        if error != None { return; }
        JoinedMore(before, Token(name.bytes, IndexOf(name.bytes)), TokensAt(source, name.next, uri));
      }
      assert tokens + [] == tokens;
    }
  }

  lemma NoDigits()
    ensures AllDigits([])
  {
  }

  function Behind(done: seq<byte>, s: Step): Step
  {
    match s
    case Wrong(e) => Wrong(e)
    case Bytes(bs, next) => Bytes(done + bs, next)
  }

  lemma BehindMore(done: seq<byte>, bs: seq<byte>, s: Step)
    ensures s.Bytes? ==> Behind(done, Bytes(bs + s.bytes, s.next)) == Behind(done + bs, s)
  {
    if s.Bytes? { assert done + (bs + s.bytes) == done + bs + s.bytes; }
  }

  function Joined(done: seq<Token>, p: Parsed): Parsed
  {
    match p
    case Failed(e) => Failed(e)
    case Tokens(more) => Tokens(done + more)
  }

  lemma JoinedMore(done: seq<Token>, token: Token, p: Parsed)
    ensures p.Tokens? ==> Joined(done, Tokens([token] + p.tokens)) == Joined(done + [token], p)
  {
    if p.Tokens? { assert done + ([token] + p.tokens) == done + [token] + p.tokens; }
  }
}
