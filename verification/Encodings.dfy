/**
  RapidJSON's UTF-8 and UTF-16: a decoder driven by a table of byte ranges, against the octet grammar of
  section 4 of RFC 3629.
 */
module Encodings {
  import opened Wrap32
  import opened JsonText

  // ----- the grammar

  predicate Tail(c: byte) { 0x80 <= c <= 0xbf }

  /** UTF8-char */
  predicate IsChar(w: seq<byte>)
  {
    match |w|
    case 1 => w[0] <= 0x7f
    case 2 => 0xc2 <= w[0] <= 0xdf && Tail(w[1])
    case 3 =>
      || (w[0] == 0xe0 && 0xa0 <= w[1] <= 0xbf && Tail(w[2]))
      || (0xe1 <= w[0] <= 0xec && Tail(w[1]) && Tail(w[2]))
      || (w[0] == 0xed && 0x80 <= w[1] <= 0x9f && Tail(w[2]))
      || (0xee <= w[0] <= 0xef && Tail(w[1]) && Tail(w[2]))
    case 4 =>
      || (w[0] == 0xf0 && 0x90 <= w[1] <= 0xbf && Tail(w[2]) && Tail(w[3]))
      || (0xf1 <= w[0] <= 0xf3 && Tail(w[1]) && Tail(w[2]) && Tail(w[3]))
      || (w[0] == 0xf4 && 0x80 <= w[1] <= 0x8f && Tail(w[2]) && Tail(w[3]))
    case _ => false
  }

  /** UTF8-octets */
  predicate IsOctets(t: seq<byte>)
    decreases |t|
  {
    t == [] || exists n :: 1 <= n <= |t| && IsChar(t[..n]) && IsOctets(t[n..])
  }

  /** A Unicode scalar value. */
  predicate IsScalarValue(c: nat) { c < 0xd800 || 0xe000 <= c <= 0x10ffff }

  // ----- the decoder

  /** GetRange: the class of a byte; continuation bytes have one bit each, so that a mask tests several. */
  function GetRange(c: byte): bv8
  {
    if c < 0x80 then 0
    else if c < 0x90 then 0x10
    else if c < 0xa0 then 0x40
    else if c < 0xc0 then 0x20
    else if c < 0xc2 then 8
    else if c < 0xe0 then 2
    else if c == 0xe0 then 10
    else if c < 0xed then 3
    else if c == 0xed then 4
    else if c < 0xf0 then 3
    else if c == 0xf0 then 11
    else if c < 0xf4 then 6
    else if c == 0xf4 then 5
    else 8
  }

  predicate Passes(c: byte, mask: bv8) { GetRange(c) & mask != 0 }

  /** The masks by which the bytes behind a first byte are tested; none for a byte that begins nothing. */
  function Masks(kind: bv8): (ms: seq<bv8>)
    ensures |ms| <= 3
  {
    if kind == 2 then [0x70]
    else if kind == 3 then [0x70, 0x70]
    else if kind == 4 then [0x50, 0x70]
    else if kind == 5 then [0x10, 0x70, 0x70]
    else if kind == 6 then [0x70, 0x70, 0x70]
    else if kind == 10 then [0x20, 0x70]
    else if kind == 11 then [0x60, 0x70, 0x70]
    else []
  }

  /** (0xFF >> type) & c, for the types of first bytes. */
  function FirstBits(kind: bv8, c: byte): (b: nat)
    ensures b < 64
  {
    if kind == 2 then c % 64 else if kind == 3 then c % 32 else if kind == 4 then c % 16
    else if kind == 5 then c % 8 else if kind == 6 then c % 4 else 0
  }

  /** c & 0x3F */
  function Low6(c: byte): (b: nat)
    ensures b < 64
    ensures Tail(c) ==> b == c - 0x80
  {
    c % 64
  }

  /** What Decode returns: success, the code point and the position behind the bytes taken. */
  datatype Taken = Taken(ok: bool, codepoint: nat, next: nat)

  function Follow(t: Text, i: nat, masks: seq<bv8>, acc: nat, ok: bool): Taken
    decreases |masks|
  {
    if masks == [] then Taken(ok, acc, i)
    else Follow(t, i + 1, masks[1..], acc * 64 + Low6(Peek(t, i)), ok && Passes(Peek(t, i), masks[0]))
  }

  /** UTF8::Decode; past the end of the text it takes NULs. */
  function Decode8(t: Text, i: nat): Taken
  {
    var c := Peek(t, i);
    var kind := GetRange(c);
    if c < 0x80 then Taken(true, c, i + 1)
    else Follow(t, i + 1, Masks(kind), FirstBits(kind, c), Masks(kind) != [])
  }

  lemma Follow1(t: Text, i: nat, a: bv8, acc: nat, ok: bool)
    ensures Follow(t, i, [a], acc, ok) == Taken(ok && Passes(Peek(t, i), a), acc * 64 + Low6(Peek(t, i)), i + 1)
  {
    assert [a][1..] == [];
  }

  lemma Follow2(t: Text, i: nat, a: bv8, b: bv8, acc: nat, ok: bool)
    ensures Follow(t, i, [a, b], acc, ok) ==
      Taken(ok && Passes(Peek(t, i), a) && Passes(Peek(t, i + 1), b),
            (acc * 64 + Low6(Peek(t, i))) * 64 + Low6(Peek(t, i + 1)), i + 2)
  {
    assert [a, b][1..] == [b];
    Follow1(t, i + 1, b, acc * 64 + Low6(Peek(t, i)), ok && Passes(Peek(t, i), a));
  }

  lemma Follow3(t: Text, i: nat, a: bv8, b: bv8, c: bv8, acc: nat, ok: bool)
    ensures Follow(t, i, [a, b, c], acc, ok) ==
      Taken(ok && Passes(Peek(t, i), a) && Passes(Peek(t, i + 1), b) && Passes(Peek(t, i + 2), c),
            ((acc * 64 + Low6(Peek(t, i))) * 64 + Low6(Peek(t, i + 1))) * 64 + Low6(Peek(t, i + 2)), i + 3)
  {
    assert [a, b, c][1..] == [b, c];
    Follow2(t, i + 1, b, c, acc * 64 + Low6(Peek(t, i)), ok && Passes(Peek(t, i), a));
  }

  /** What the masks used by the decoder let pass. */
  lemma MaskRanges(c: byte)
    ensures Passes(c, 0x70) <==> Tail(c)
    ensures Passes(c, 0x50) <==> 0x80 <= c <= 0x9f
    ensures Passes(c, 0x10) <==> 0x80 <= c <= 0x8f
    ensures Passes(c, 0x20) <==> 0xa0 <= c <= 0xbf
    ensures Passes(c, 0x60) <==> 0x90 <= c <= 0xbf
  {
  }

  /** The number of bytes a first byte asks for. */
  function Length(c: byte): nat
  {
    if c < 0xc2 || c > 0xf4 then 1 else if c < 0xe0 then 2 else if c < 0xf0 then 3 else 4
  }

  /** The code point a character of the grammar stands for. */
  function CodePoint(w: seq<byte>): nat
    requires IsChar(w)
  {
    if |w| == 1 then w[0]
    else
      var second: int := w[1] - 0x80;
      if |w| == 2 then
        var first: int := w[0] - 0xc0;
        first * 64 + second
      else
        var third: int := w[2] - 0x80;
        if |w| == 3 then
          var first: int := w[0] - 0xe0;
          (first * 64 + second) * 64 + third
        else
          var first: int := w[0] - 0xf0;
          ((first * 64 + second) * 64 + third) * 64 + (w[3] - 0x80)
  }

  /** The n bytes at i, NULs past the end of the text. */
  function Look(t: Text, i: nat, n: nat): (w: seq<byte>)
    ensures |w| == n && forall k :: 0 <= k < n ==> w[k] == Peek(t, i + k)
  {
    if n == 0 then [] else Look(t, i, n - 1) + [Peek(t, i + n - 1)]
  }

  lemma FirstBitsOf(c: byte)
    ensures 0xc2 <= c <= 0xdf ==> FirstBits(GetRange(c), c) == c - 0xc0
    ensures 0xe0 <= c <= 0xef ==> FirstBits(GetRange(c), c) == c - 0xe0
    ensures 0xf0 <= c <= 0xf4 ==> FirstBits(GetRange(c), c) == c - 0xf0
  {
  }

  /** The decoder without its tables: the bytes taken, and the code point if they are a character. */
  lemma DecodeCases(t: Text, i: nat)
    ensures var n := Length(Peek(t, i));
      var w := Look(t, i, n);
      && Decode8(t, i).next == i + n
      && (Decode8(t, i).ok <==> IsChar(w))
      && (IsChar(w) ==> Decode8(t, i).codepoint == CodePoint(w))
  {
    hide Passes, Follow, FirstBits, Low6;
    var c := Peek(t, i);
    FirstBitsOf(c);
    MaskRanges(Peek(t, i + 1));
    MaskRanges(Peek(t, i + 2));
    MaskRanges(Peek(t, i + 3));
    var kind := GetRange(c);
    var acc := FirstBits(kind, c);
    if kind == 2 {
      Follow1(t, i + 1, 0x70, acc, true);
    } else if kind == 3 {
      Follow2(t, i + 1, 0x70, 0x70, acc, true);
    } else if kind == 4 {
      Follow2(t, i + 1, 0x50, 0x70, acc, true);
    } else if kind == 5 {
      Follow3(t, i + 1, 0x10, 0x70, 0x70, acc, true);
    } else if kind == 6 {
      Follow3(t, i + 1, 0x70, 0x70, 0x70, acc, true);
    } else if kind == 10 {
      Follow2(t, i + 1, 0x20, 0x70, acc, true);
    } else if kind == 11 {
      Follow3(t, i + 1, 0x60, 0x70, 0x70, acc, true);
    } else if c >= 0x80 {
      assert Masks(kind) == [];
      FollowNone(t, i + 1, acc);
    }
  }

  lemma FollowNone(t: Text, i: nat, acc: nat)
    ensures Follow(t, i, [], acc, false) == Taken(false, acc, i)
  {
  }

  // ----- one character

  /** Bytes that make a character lie within the text. */
  lemma Looked(t: Text, i: nat, n: nat)
    requires i < |t|
    ensures i + n <= |t| ==> Look(t, i, n) == t[i..i + n]
    ensures IsChar(Look(t, i, n)) ==> i + n <= |t|
  {
  }

  /** A character is as long as its first byte says. */
  lemma CharLength(w: seq<byte>)
    requires IsChar(w)
    ensures |w| == Length(w[0])
  {
  }

  /** The decoder accepts exactly the characters of the grammar, takes exactly their bytes, and finds the
      code point they stand for. */
  lemma DecodeIsGrammar(t: Text, i: nat)
    requires i < |t|
    ensures var d := Decode8(t, i);
      && i < d.next
      && (d.ok <==> d.next <= |t| && IsChar(t[i..d.next]))
      && (d.ok ==> d.codepoint == CodePoint(t[i..d.next]))
      && forall n :: i < n <= |t| && IsChar(t[i..n]) ==> d.ok && d.next == n
  {
    hide Decode8, IsChar, CodePoint, Look;
    DecodeCases(t, i);
    Looked(t, i, Length(Peek(t, i)));
    forall n | i < n <= |t| && IsChar(t[i..n]) ensures n == Decode8(t, i).next {
      CharLength(t[i..n]);
    }
  }

  /** Splitting a number into base-64 digits. */
  lemma OneUp(w: nat, z: nat)
    requires z < 64
    ensures (w * 64 + z) / 64 == w && (w * 64 + z) % 64 == z
  {
  }

  lemma Encode3(c: byte, d: byte, e: byte)
    requires IsChar([c, d, e])
    ensures var v := CodePoint([c, d, e]);
      0x800 <= v <= 0xffff && IsScalarValue(v) && Utf8(v) == [c, d, e]
  {
    ThreeDigits(c - 0xe0, d - 0x80, e - 0x80);
  }

  /** The base-64 digits of a number of up to three, and of up to four. */
  lemma ThreeDigits(a: nat, b: nat, c: nat)
    requires b < 64 && c < 64
    ensures var v := (a * 64 + b) * 64 + c; v / 0x1000 == a && v / 64 % 64 == b && v % 64 == c
  {
    OneUp(a * 64 + b, c);
    OneUp(a, b);
    ShiftTwice((a * 64 + b) * 64 + c);
  }

  lemma FourDigits(a: nat, b: nat, c: nat, d: nat)
    requires b < 64 && c < 64 && d < 64
    ensures var v := ((a * 64 + b) * 64 + c) * 64 + d;
      v / 0x4_0000 == a && v / 0x1000 % 64 == b && v / 64 % 64 == c && v % 64 == d
  {
    var v := ((a * 64 + b) * 64 + c) * 64 + d;
    OneUp((a * 64 + b) * 64 + c, d);
    ThreeDigits(a, b, c);
    ShiftTwice(v);
  }

  lemma ShiftTwice(v: nat)
    ensures v / 0x1000 == v / 64 / 64 && v / 0x4_0000 == v / 64 / 64 / 64
  {
  }

  lemma Encode4(c: byte, d: byte, e: byte, f: byte)
    requires IsChar([c, d, e, f])
    ensures var v := CodePoint([c, d, e, f]);
      0x1_0000 <= v <= 0x10_ffff && Utf8(v) == [c, d, e, f]
  {
    FourDigits(c - 0xf0, d - 0x80, e - 0x80, f - 0x80);
  }

  lemma Encode2(c: byte, d: byte)
    requires IsChar([c, d])
    ensures var v := CodePoint([c, d]); 0x80 <= v <= 0x7ff && Utf8(v) == [c, d]
  {
    OneUp(c - 0xc0, d - 0x80);
  }

  /** A character stands for a scalar value, whose encoding it is. */
  lemma CodeEncodes(w: seq<byte>)
    requires IsChar(w)
    ensures IsScalarValue(CodePoint(w)) && Utf8(CodePoint(w)) == w
  {
    if |w| == 2 {
      assert w == [w[0], w[1]];
      Encode2(w[0], w[1]);
    } else if |w| == 3 {
      assert w == [w[0], w[1], w[2]];
      Encode3(w[0], w[1], w[2]);
    } else if |w| == 4 {
      assert w == [w[0], w[1], w[2], w[3]];
      Encode4(w[0], w[1], w[2], w[3]);
    }
  }

  /** The encoding of a scalar value is a character that stands for it. */
  lemma EncodeIsChar(c: nat)
    requires IsScalarValue(c)
    ensures IsChar(Utf8(c)) && CodePoint(Utf8(c)) == c
  {
    ShiftTwice(c);
  }

  /** Encoding what was decoded gives back the bytes. */
  lemma EncodeDecoded(t: Text, i: nat)
    requires i < |t| && Decode8(t, i).ok
    ensures var d := Decode8(t, i);
      IsScalarValue(d.codepoint) && i < d.next <= |t| && Utf8(d.codepoint) == t[i..d.next]
  {
    hide Decode8, Utf8, IsChar, CodePoint;
    DecodeIsGrammar(t, i);
    CodeEncodes(t[i..Decode8(t, i).next]);
  }

  /** Decoding what was encoded gives back the scalar value. */
  lemma DecodeEncoded(c: nat, t: Text, i: nat)
    requires IsScalarValue(c) && i + |Utf8(c)| <= |t| && t[i..i + |Utf8(c)|] == Utf8(c)
    ensures Decode8(t, i) == Taken(true, c, i + |Utf8(c)|)
  {
    hide Decode8, Utf8, IsChar, CodePoint;
    EncodeIsChar(c);
    DecodeIsGrammar(t, i);
  }

  // ----- whole strings

  /** Decode, again and again to the end of the text; None at the first failure. */
  function DecodeAll(t: Text, i: nat): (r: Option<seq<nat>>)
    decreases |t| - i
  {
    if i >= |t| then Some([])
    else
      var d := Decode8(t, i);
      if !d.ok || d.next <= i then None
      else
        match DecodeAll(t, d.next)
        case None => None
        case Some(cs) => Some([d.codepoint] + cs)
  }

  function EncodeAll(cs: seq<nat>): seq<byte>
    requires forall c <- cs :: IsScalarValue(c)
  {
    if cs == [] then []
    else
      assert IsScalarValue(cs[0]);
      Utf8(cs[0]) + EncodeAll(cs[1..])
  }

  lemma OctetsStep(t: Text, i: nat)
    requires i < |t|
    ensures var d := Decode8(t, i);
      IsOctets(t[i..]) <==> d.ok && i < d.next <= |t| && IsOctets(t[d.next..])
  {
    hide Decode8, IsChar, CodePoint;
    DecodeIsGrammar(t, i);
    var d, rest := Decode8(t, i), t[i..];
    if IsOctets(rest) {
      var n :| 1 <= n <= |rest| && IsChar(rest[..n]) && IsOctets(rest[n..]);
      assert rest[..n] == t[i..i + n] && rest[n..] == t[i + n..];
    }
    if d.ok && IsOctets(t[d.next..]) {
      var n := d.next - i;
      assert rest[..n] == t[i..d.next] && rest[n..] == t[d.next..];
    }
  }

  lemma NoOctets()
    ensures IsOctets([])
  {
  }

  /** Decoding to the end succeeds on exactly the octet strings of RFC 3629, and encoding the scalar
      values found reproduces the bytes. */
  lemma {:induction false} DecodeAllIsGrammar(t: Text, i: nat)
    requires i <= |t|
    ensures var r := DecodeAll(t, i);
      && (r.Some? <==> IsOctets(t[i..]))
      && (r.Some? ==> (forall c <- r.value :: IsScalarValue(c)) && EncodeAll(r.value) == t[i..])
    decreases |t| - i
  {
    hide Decode8, Utf8, IsOctets, IsScalarValue;
    if i == |t| {
      NoOctets();
      assert t[i..] == [];
    } else {
      OctetsStep(t, i);
      var d := Decode8(t, i);
      if d.ok {
        EncodeDecoded(t, i);
        DecodeAllIsGrammar(t, d.next);
        var r := DecodeAll(t, d.next);
        if r.Some? {
          assert ([d.codepoint] + r.value)[1..] == r.value;
          assert t[i..] == t[i..d.next] + t[d.next..];
        }
      }
    }
  }

  // ----- Validate

  /** What Validate returns: the verdict, the bytes copied and the position behind them. */
  datatype Copied = Copied(ok: bool, out: seq<byte>, next: nat)

  function CopyOn(t: Text, i: nat, masks: seq<bv8>, out: seq<byte>, ok: bool): Copied
    decreases |masks|
  {
    if masks == [] then Copied(ok, out, i)
    else CopyOn(t, i + 1, masks[1..], out + [Peek(t, i)], ok && Passes(Peek(t, i), masks[0]))
  }

  /** UTF8::Validate */
  function Validate8(t: Text, i: nat): Copied
  {
    var c := Peek(t, i);
    var kind := GetRange(c);
    if c < 0x80 then Copied(true, [c], i + 1)
    else CopyOn(t, i + 1, Masks(kind), [c], Masks(kind) != [])
  }

  lemma {:induction false} CopyFollows(t: Text, i: nat, j: nat, masks: seq<bv8>, acc: nat, ok: bool)
    requires i <= j
    ensures var d, v := Follow(t, j, masks, acc, ok), CopyOn(t, j, masks, Look(t, i, j - i), ok);
      d.next >= j && v == Copied(d.ok, Look(t, i, d.next - i), d.next)
    decreases |masks|
  {
    hide Passes, Low6;
    if masks != [] {
      CopyFollows(t, i, j + 1, masks[1..], acc * 64 + Low6(Peek(t, j)), ok && Passes(Peek(t, j), masks[0]));
    }
  }

  /** Validate agrees with Decode and copies exactly the bytes that Decode takes. */
  lemma ValidateAgrees(t: Text, i: nat)
    ensures var d := Decode8(t, i); d.next > i && Validate8(t, i) == Copied(d.ok, Look(t, i, d.next - i), d.next)
  {
    hide GetRange, Masks, FirstBits, Follow, CopyOn;
    var c := Peek(t, i);
    assert Look(t, i, 1) == [c] by { assert Look(t, i, 0) == []; }
    CopyFollows(t, i, i + 1, Masks(GetRange(c)), FirstBits(GetRange(c), c), Masks(GetRange(c)) != []);
  }

  // ----- UTF-16

  function PeekUnit(us: seq<u16>, i: nat): u16 { if i < |us| then us[i] else 0 }

  /** UTF16::Encode */
  function Utf16(c: nat): (us: seq<u16>)
    requires IsScalarValue(c)
    ensures 1 <= |us| <= 2
  {
    if c <= 0xffff then [c]
    else [(c - 0x1_0000) / 0x400 + 0xd800, (c - 0x1_0000) % 0x400 + 0xdc00]
  }

  /** UTF16::Decode */
  function Decode16(us: seq<u16>, i: nat): Taken
  {
    var c := PeekUnit(us, i);
    if c < 0xd800 || c > 0xdfff then Taken(true, c, i + 1)
    else if c <= 0xdbff then
      var d := PeekUnit(us, i + 1);
      Taken(0xdc00 <= d <= 0xdfff, c % 0x400 * 0x400 + d % 0x400 + 0x1_0000, i + 2)
    else Taken(false, 0, i + 1)
  }

  lemma Decode16Encoded(c: nat, us: seq<u16>, i: nat)
    requires IsScalarValue(c) && i + |Utf16(c)| <= |us| && us[i..i + |Utf16(c)|] == Utf16(c)
    ensures Decode16(us, i) == Taken(true, c, i + |Utf16(c)|)
  {
    var w := us[i..i + |Utf16(c)|];
    assert us[i] == w[0];
    if c > 0xffff {
      assert us[i + 1] == w[1];
      SurrogateBits(c - 0x1_0000);
    }
  }

  lemma SurrogateBits(v: nat)
    requires v < 0x10_0000
    ensures (v / 0x400 + 0xd800) % 0x400 == v / 0x400 && (v % 0x400 + 0xdc00) % 0x400 == v % 0x400
    ensures v / 0x400 * 0x400 + v % 0x400 == v
  {
  }

  function EncodeAll16(cs: seq<nat>): seq<u16>
    requires forall c <- cs :: IsScalarValue(c)
  {
    if cs == [] then [] else Utf16(cs[0]) + EncodeAll16(cs[1..])
  }

  function DecodeAll16(us: seq<u16>, i: nat): (r: Option<seq<nat>>)
    decreases |us| - i
  {
    if i >= |us| then Some([])
    else
      var d := Decode16(us, i);
      if !d.ok then None
      else
        match DecodeAll16(us, d.next)
        case None => None
        case Some(cs) => Some([d.codepoint] + cs)
  }

  lemma {:induction false} DecodeAll16Encoded(cs: seq<nat>, us: seq<u16>, i: nat)
    requires (forall c <- cs :: IsScalarValue(c)) && i <= |us| && us[i..] == EncodeAll16(cs)
    ensures DecodeAll16(us, i) == Some(cs)
    decreases |cs|
  {
    hide Decode16, Utf16;
    if cs != [] {
      var w, rest := Utf16(cs[0]), EncodeAll16(cs[1..]);
      assert us[i..] == w + rest;
      assert us[i..i + |w|] == us[i..][..|w|] == w && us[i + |w|..] == us[i..][|w|..] == rest;
      Decode16Encoded(cs[0], us, i);
      DecodeAll16Encoded(cs[1..], us, i + |w|);
      assert cs == [cs[0]] + cs[1..];
    }
  }

  /** Transcoding from UTF-8 to UTF-16 and back is the identity on exactly the strings the UTF-8 decoder
      accepts. */
  lemma TranscodingRoundTrip(t: Text)
    ensures var cs := DecodeAll(t, 0);
      && (cs.Some? <==> IsOctets(t))
      && (cs.Some? ==>
            && (forall c <- cs.value :: IsScalarValue(c))
            && DecodeAll16(EncodeAll16(cs.value), 0) == cs
            && EncodeAll(cs.value) == t)
  {
    DecodeAllIsGrammar(t, 0);
    assert t[0..] == t;
    var cs := DecodeAll(t, 0);
    hide DecodeAll, IsOctets;
    if cs.Some? {
      var us := EncodeAll16(cs.value);
      assert us[0..] == us;
      DecodeAll16Encoded(cs.value, us, 0);
    }
  }

  // ----- the decoder as it runs

  class ByteStream {
    const text: Text
    var at: nat

    constructor (text: Text)
      ensures this.text == text && at == 0
    {
      this.text, at := text, 0;
    }

    method Take() returns (c: byte)
      modifies this
      ensures c == Peek(text, old(at)) && at == old(at) + 1
    {
      c := Peek(text, at);
      at := at + 1;
    }

    /** One byte of Decode: shifted into the code point and tested. */
    method TakeTail(codepoint: nat, mask: bv8, result: bool) returns (c: nat, ok: bool)
      modifies this
      ensures at == old(at) + 1
      ensures c == codepoint * 64 + Low6(Peek(text, old(at))) && ok == (result && Passes(Peek(text, old(at)), mask))
    {
      var b := Take();
      c, ok := codepoint * 64 + Low6(b), result && Passes(b, mask);
    }

    method Decode() returns (ok: bool, codepoint: nat)
      modifies this
      ensures Decode8(text, old(at)) == Taken(ok, codepoint, at)
    {
      hide Passes, Follow, Low6, FirstBits;
      var c := Take();
      if c < 0x80 { return true, c; }
      var kind := GetRange(c);
      codepoint, ok := FirstBits(kind, c), true;
      ghost var i, first := at, codepoint;
      if kind == 2 {
        codepoint, ok := TakeTail(codepoint, 0x70, ok);
        Follow1(text, i, 0x70, first, true);
      } else if kind == 3 {
        codepoint, ok := TakeTail(codepoint, 0x70, ok);
        codepoint, ok := TakeTail(codepoint, 0x70, ok);
        Follow2(text, i, 0x70, 0x70, first, true);
      } else if kind == 4 {
        codepoint, ok := TakeTail(codepoint, 0x50, ok);
        codepoint, ok := TakeTail(codepoint, 0x70, ok);
        Follow2(text, i, 0x50, 0x70, first, true);
      } else if kind == 5 {
        codepoint, ok := TakeTail(codepoint, 0x10, ok);
        codepoint, ok := TakeTail(codepoint, 0x70, ok);
        codepoint, ok := TakeTail(codepoint, 0x70, ok);
        Follow3(text, i, 0x10, 0x70, 0x70, first, true);
      } else if kind == 6 {
        codepoint, ok := TakeTail(codepoint, 0x70, ok);
        codepoint, ok := TakeTail(codepoint, 0x70, ok);
        codepoint, ok := TakeTail(codepoint, 0x70, ok);
        Follow3(text, i, 0x70, 0x70, 0x70, first, true);
      } else if kind == 10 {
        codepoint, ok := TakeTail(codepoint, 0x20, ok);
        codepoint, ok := TakeTail(codepoint, 0x70, ok);
        Follow2(text, i, 0x20, 0x70, first, true);
      } else if kind == 11 {
        codepoint, ok := TakeTail(codepoint, 0x60, ok);
        codepoint, ok := TakeTail(codepoint, 0x70, ok);
        codepoint, ok := TakeTail(codepoint, 0x70, ok);
        Follow3(text, i, 0x60, 0x70, 0x70, first, true);
      } else {
        ok := false;
        FollowNone(text, i, first);
      }
    }
  }
}
