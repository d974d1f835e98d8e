/**
  RapidJSON's JSON Pointer (RFC 6901) as text: parsing a string or a URI fragment into tokens, and back.
 */
module PointerCodec {
  import opened Wrap32
  import opened JsonText
  import opened Encodings

  const TILDE := 0x7e
  const PERCENT := 0x25
  const HASH := 0x23
  const ONE := 0x31
  const INVALID_INDEX := 0xffff_ffff   // kPointerInvalidIndex

  datatype PointerError = TokenMustBeginWithSolidus | InvalidEscape | InvalidPercentEncoding
    | CharacterMustPercentEncode

  /** A token: its name and, when that is an array index, the index. */
  datatype Token = Token(name: seq<byte>, index: u32)

  // ----- indexes

  predicate AllDigits(name: seq<byte>) { forall i :: 0 <= i < |name| ==> IsDigit(name[i]) }

  /** Digits without a leading zero, at least one. */
  predicate IsDecimal(name: seq<byte>) { name != [] && AllDigits(name) && (|name| > 1 ==> name[0] != ZERO) }

  /** The conversion loop from position j: None where the overflow test fires. */
  function Convert(name: seq<byte>, j: nat, n: u32): Option<u32>
    requires j <= |name|
    decreases |name| - j
  {
    if j == |name| then Some(n)
    else
      var m := Wrap(n * 10 + (name[j] - ZERO));
      if m < n then None else Convert(name, j + 1, m)
  }

  function IndexOf(name: seq<byte>): u32
  {
    if !IsDecimal(name) then INVALID_INDEX
    else match Convert(name, 0, 0) case None => INVALID_INDEX case Some(n) => n
  }

  function DecimalValue(name: seq<byte>): nat
    requires AllDigits(name)
  {
    if name == [] then 0 else 10 * DecimalValue(name[..|name| - 1]) + (name[|name| - 1] - ZERO)
  }

  lemma {:induction false} ValueGrows(name: seq<byte>, j: nat)
    requires AllDigits(name) && j <= |name|
    ensures DecimalValue(name[..j]) <= DecimalValue(name)
    decreases |name|
  {
    if j < |name| {
      ValueGrows(name[..|name| - 1], j);
      assert name[..|name| - 1][..j] == name[..j];
    } else {
      assert name[..j] == name;
    }
  }

  lemma {:induction false} ConvertsValue(name: seq<byte>, j: nat)
    requires AllDigits(name) && j <= |name| && DecimalValue(name) < M
    ensures DecimalValue(name[..j]) < M && Convert(name, j, DecimalValue(name[..j])) == Some(DecimalValue(name))
    decreases |name| - j
  {
    ValueGrows(name, j);
    if j < |name| {
      ValueGrows(name, j + 1);
      assert name[..j + 1][..j] == name[..j];
      ConvertsValue(name, j + 1);
    } else {
      assert name[..j] == name;
    }
  }

  /** A canonical decimal token below 2^32 - 1 gets its value as index; anything but a canonical decimal
      gets none. */
  lemma IndexIsValue(name: seq<byte>)
    ensures IsDecimal(name) && DecimalValue(name) < INVALID_INDEX ==> IndexOf(name) == DecimalValue(name)
    ensures !IsDecimal(name) ==> IndexOf(name) == INVALID_INDEX
  {
    if IsDecimal(name) && DecimalValue(name) < INVALID_INDEX {
      ConvertsValue(name, 0);
      assert name[..0] == [];
    }
  }

  /** From 2^32 on the overflow test `m < n` does not catch every wrap: 10000000000 becomes an index. */
  lemma OverflowMissed()
    ensures var name := [ONE] + seq(10, _ => ZERO);
      IsDecimal(name) && IndexOf(name) == 1410065408
  {
    var name: seq<byte> := [ONE] + seq(10, _ => ZERO);
    assert Convert(name, 11, 1410065408) == Some(1410065408);
    assert Convert(name, 10, 1000000000) == Convert(name, 11, 1410065408);
    assert Convert(name, 9, 100000000) == Convert(name, 10, 1000000000);
    assert Convert(name, 8, 10000000) == Convert(name, 9, 100000000);
    assert Convert(name, 7, 1000000) == Convert(name, 8, 10000000);
    assert Convert(name, 6, 100000) == Convert(name, 7, 1000000);
    assert Convert(name, 5, 10000) == Convert(name, 6, 100000);
    assert Convert(name, 4, 1000) == Convert(name, 5, 10000);
    assert Convert(name, 3, 100) == Convert(name, 4, 1000);
    assert Convert(name, 2, 10) == Convert(name, 3, 100);
    assert Convert(name, 1, 1) == Convert(name, 2, 10);
    assert Convert(name, 0, 0) == Convert(name, 1, 1);
  }

  /** The value of the digits so far, kept to 32 bits, falls when one of the digits from j on is added:
      what the overflow test looks for. */
  predicate Falls(name: seq<byte>, j: nat)
    requires AllDigits(name) && j <= |name|
    decreases |name| - j
  {
    j < |name| && (Wrap(DecimalValue(name[..j + 1])) < Wrap(DecimalValue(name[..j])) || Falls(name, j + 1))
  }

  lemma WrapDigit(p: nat, d: nat)
    ensures Wrap(Wrap(p) * 10 + d) == Wrap(p * 10 + d)
  {
    assert p == p / M * M + p % M;
    assert p * 10 + d == (p % M * 10 + d) + p / M * 10 * M;
    ModAdd(p % M * 10 + d, p / M * 10);
  }

  lemma ModAdd(x: nat, k: nat)
    ensures (x + k * M) % M == x % M
    decreases k
  {
    if k > 0 { ModAdd(x, k - 1); assert x + k * M == x + (k - 1) * M + M; }
  }

  lemma {:induction false} ConvertExact(name: seq<byte>, j: nat)
    requires AllDigits(name) && j <= |name|
    ensures Convert(name, j, Wrap(DecimalValue(name[..j]))) == if Falls(name, j) then None
      else Some(Wrap(DecimalValue(name)))
    decreases |name| - j
  {
    hide Wrap;
    if j < |name| {
      assert name[..j + 1][..j] == name[..j];
      WrapDigit(DecimalValue(name[..j]), name[j] - ZERO);
      ConvertExact(name, j + 1);
    } else {
      assert name[..j] == name;
    }
  }

  /** The index of a token is what it should be, its value below 2^32 - 1 and none from there on, exactly
      when the value is below 2^32, or the overflow test fires, or the 32-bit value happens to be the
      invalid index itself. */
  lemma IndexExact(name: seq<byte>)
    requires IsDecimal(name)
    ensures var v := DecimalValue(name);
      IndexOf(name) == (if v < INVALID_INDEX then v else INVALID_INDEX) <==>
        v < M || Falls(name, 0) || Wrap(v) == INVALID_INDEX
  {
    hide Falls, Convert;
    assert name[..0] == [];
    ConvertExact(name, 0);
    if DecimalValue(name) < M { ConvertsValue(name, 0); }
  }

  /** Below 10 * 2^32 only the last digit can wrap. */
  lemma {:induction false} FallsAtLast(name: seq<byte>, j: nat)
    requires AllDigits(name) && j < |name| && M <= DecimalValue(name) < 10 * M
    ensures Falls(name, j) <==> DecimalValue(name) % M < DecimalValue(name) / 10
    decreases |name| - j
  {
    var n := |name| - 1;
    assert name[..n + 1] == name;
    DivUnique(DecimalValue(name), 10, DecimalValue(name[..n]));
    if j < n {
      ValueGrows(name[..n], j);
      ValueGrows(name[..n], j + 1);
      ValueGrows(name[..j + 1], j);
      assert name[..n][..j] == name[..j] == name[..j + 1][..j] && name[..n][..j + 1] == name[..j + 1];
      FallsAtLast(name, j + 1);
    }
  }

  /** The index of a decimal token below 10 * 2^32: from 2^32 on it is the 32-bit remainder, unless that is
      below a tenth of the value. */
  lemma IndexByRange(name: seq<byte>)
    requires IsDecimal(name)
    ensures var v := DecimalValue(name);
      v < 10 * M ==> IndexOf(name) == if v >= M && v % M < v / 10 then INVALID_INDEX else v % M
  {
    hide Falls, Convert;
    assert name[..0] == [];
    ConvertExact(name, 0);
    if DecimalValue(name) < M {
      ConvertsValue(name, 0);
    } else if DecimalValue(name) < 10 * M {
      FallsAtLast(name, 0);
    }
  }

  /** The first wrong indices: every token below 4772185884 gets the right one, every token from there up to
      8589934590 a wrong one, and right again up to 9544371767. */
  lemma FirstWrongIndices(name: seq<byte>)
    requires IsDecimal(name)
    ensures var v := DecimalValue(name);
      v < 9544371768 ==>
        (IndexOf(name) == (if v < INVALID_INDEX then v else INVALID_INDEX) <==> v < 4772185884 || v >= 8589934591)
  {
    hide IndexOf, DecimalValue;
    IndexByRange(name);
    Quotients(DecimalValue(name));
  }

  lemma Quotients(v: nat)
    ensures M <= v < 2 * M ==> v % M == v - M && (v % M < v / 10 <==> v < 4772185884)
    ensures 2 * M <= v < 9544371768 ==> v % M == v - 2 * M && v % M < v / 10
  {
  }

  // ----- percent encoding

  /** NeedPercentEncode: everything but the unreserved characters of RFC 3986. */
  predicate NeedPercentEncode(c: byte)
  {
    !(IsDigit(c) || 0x41 <= c <= 0x5a || 0x61 <= c <= 0x7a || c == MINUS || c == 0x2e || c == 0x5f || c == TILDE)
  }

  /** PercentDecodeStream::Take: the byte of a %XY triplet. */
  function Triplet(t: Text, i: nat): (r: Option<byte>)
    ensures r.Some? ==> i + 3 <= |t|
  {
    if Peek(t, i) != PERCENT || i + 3 > |t| then None
    else if HexValue(t[i + 1]) < 0 || HexValue(t[i + 2]) < 0 then None
    else Some(HexValue(t[i + 1]) * 16 + HexValue(t[i + 2]))
  }

  function Triplets(t: Text, i: nat, n: nat): (r: Option<seq<byte>>)
    ensures r.Some? ==> |r.value| == n && (n > 0 ==> i + 3 * n <= |t|)
    decreases n
  {
    if n == 0 then Some([])
    else
      match Triplet(t, i)
      case None => None
      case Some(b) =>
        match Triplets(t, i + 3, n - 1)
        case None => None
        case Some(bs) => Some([b] + bs)
  }

  /** Validate on a stream of triplets: the bytes of one UTF-8 character. */
  function PercentChar(t: Text, i: nat): (r: Option<seq<byte>>)
    ensures r.Some? ==> 1 <= |r.value| <= 4 && i + 3 * |r.value| <= |t|
  {
    match Triplet(t, i)
    case None => None
    case Some(c) =>
      match Triplets(t, i, if c < 0x80 then 1 else 1 + |Masks(GetRange(c))|)
      case None => None
      case Some(bs) => if Validate8(bs, 0).ok then Some(bs) else None
  }

  // ----- parsing

  datatype Step = Bytes(bytes: seq<byte>, next: nat) | Wrong(error: PointerError)

  /** The end of a turn of the inner loop of Parse: a tilde begins an escape. */
  function Unescaped(t: Text, c: byte, next: nat): (s: Step)
    requires next <= |t|
    ensures s.Bytes? ==> next <= s.next <= |t| && |s.bytes| == 1
  {
    if c != TILDE then Bytes([c], next)
    else if next == |t| then Wrong(InvalidEscape)
    else if t[next] == ZERO then Bytes([TILDE], next + 1)
    else if t[next] == ONE then Bytes([SLASH], next + 1)
    else Wrong(InvalidEscape)
  }

  /** A turn of the inner loop of Parse: the bytes it adds to the name. */
  function OneChar(t: Text, i: nat, uri: bool): (s: Step)
    requires i < |t|
    ensures s.Bytes? ==> i < s.next <= |t| && 1 <= |s.bytes| <= s.next - i
  {
    if uri && t[i] == PERCENT then
      match PercentChar(t, i)
      case None => Wrong(InvalidPercentEncoding)
      case Some(bs) => if |bs| == 1 then Unescaped(t, bs[0], i + 3) else Bytes(bs, i + 3 * |bs|)
    else if uri && NeedPercentEncode(t[i]) then Wrong(CharacterMustPercentEncode)
    else Unescaped(t, t[i], i + 1)
  }

  /** The inner loop: a name, up to the next solidus or the end. */
  function NameAt(t: Text, i: nat, uri: bool): (s: Step)
    requires i <= |t|
    ensures s.Bytes? ==> i <= s.next <= |t| && |s.bytes| <= s.next - i && (s.next < |t| ==> t[s.next] == SLASH)
    decreases |t| - i
  {
    if i == |t| || t[i] == SLASH then Bytes([], i)
    else
      match OneChar(t, i, uri)
      case Wrong(e) => Wrong(e)
      case Bytes(bs, next) =>
        match NameAt(t, next, uri)
        case Wrong(e) => Wrong(e)
        case Bytes(more, end) => Bytes(bs + more, end)
  }

  datatype Parsed = Tokens(tokens: seq<Token>) | Failed(error: PointerError)

  function TokensAt(t: Text, i: nat, uri: bool): Parsed
    requires i <= |t| && (i < |t| ==> t[i] == SLASH)
    decreases |t| - i
  {
    if i == |t| then Tokens([])
    else
      match NameAt(t, i + 1, uri)
      case Wrong(e) => Failed(e)
      case Bytes(name, next) =>
        match TokensAt(t, next, uri)
        case Failed(e) => Failed(e)
        case Tokens(more) => Tokens([Token(name, IndexOf(name))] + more)
  }

  /** Parse: a hash sign announces a URI fragment. */
  function ParsePointer(t: Text): Parsed
  {
    var uri := t != [] && t[0] == HASH;
    var i := if uri then 1 else 0;
    if i < |t| && t[i] != SLASH then Failed(TokenMustBeginWithSolidus) else TokensAt(t, i, uri)
  }

  // ----- printing

  /** PercentEncodeStream::Put */
  function Percent(c: byte): seq<byte> { [PERCENT, HEX_DIGITS[c / 16], HEX_DIGITS[c % 16]] }

  function Percents(bs: seq<byte>): (w: seq<byte>)
    ensures |w| == 3 * |bs|
  {
    if bs == [] then [] else Percent(bs[0]) + Percents(bs[1..])
  }

  /** A turn of the inner loop of Stringify: what is put, and where the name goes on. */
  datatype Piece = Piece(text: seq<byte>, next: nat)

  function PieceOf(name: seq<byte>, j: nat, uri: bool): (p: Option<Piece>)
    requires j < |name|
    ensures p.Some? ==> j < p.value.next <= |name| && p.value.text != []
  {
    var c := name[j];
    if c == TILDE then Some(Piece([TILDE, ZERO], j + 1))
    else if c == SLASH then Some(Piece([TILDE, ONE], j + 1))
    else if uri && NeedPercentEncode(c) then
      var v := Validate8(name, j);
      if v.ok && j < v.next <= |name| && v.out != [] then Some(Piece(Percents(v.out), v.next)) else None
    else Some(Piece([c], j + 1))
  }

  /** The inner loop of Stringify from position j; None where the name is not UTF-8. */
  function NameText(name: seq<byte>, j: nat, uri: bool): Option<seq<byte>>
    requires j <= |name|
    decreases |name| - j
  {
    if j == |name| then Some([])
    else
      match PieceOf(name, j, uri)
      case None => None
      case Some(piece) => Prepend(piece.text, NameText(name, piece.next, uri))
  }

  function Prepend(w: seq<byte>, r: Option<seq<byte>>): Option<seq<byte>>
  {
    match r
    case None => None
    case Some(more) => Some(w + more)
  }

  function TokensText(tokens: seq<Token>, uri: bool): Option<seq<byte>>
  {
    if tokens == [] then Some([])
    else
      match NameText(tokens[0].name, 0, uri)
      case None => None
      case Some(w) => Prepend([SLASH] + w, TokensText(tokens[1..], uri))
  }

  /** Stringify and StringifyUriFragment */
  function Stringify(tokens: seq<Token>, uri: bool): Option<seq<byte>>
  {
    Prepend(if uri then [HASH] else [], TokensText(tokens, uri))
  }

  // ----- the characters

  const CAPITALS := Codes("ABCDEFGHIJKLM") + Codes("NOPQRSTUVWXYZ")
  const SMALLS := Codes("abcdefghijklm") + Codes("nopqrstuvwxyz")
  const MARKS := Codes("0123456789-._~")

  /** The unreserved characters of section 2.3 of RFC 3986. */
  predicate Unreserved(c: byte) { c in CAPITALS || c in SMALLS || c in MARKS }

  /** Exactly those stand for themselves in a URI fragment. */
  lemma UnreservedTable(c: byte)
    ensures NeedPercentEncode(c) <==> !Unreserved(c)
  {
    hide Codes;
    Capitals(c);
    Smalls(c);
    Marks(c);
  }

  lemma Capitals(c: byte)
    ensures c in CAPITALS <==> 65 <= c <= 90
  {
    Thirteen("ABCDEFGHIJKLM", 65);
    Thirteen("NOPQRSTUVWXYZ", 78);
    hide Codes;
    if 65 <= c <= 90 { assert CAPITALS[c - 65] == c; }
  }

  lemma Smalls(c: byte)
    ensures c in SMALLS <==> 97 <= c <= 122
  {
    Thirteen("abcdefghijklm", 97);
    Thirteen("nopqrstuvwxyz", 110);
    hide Codes;
    if 97 <= c <= 122 { assert SMALLS[c - 97] == c; }
  }

  lemma Marks(c: byte)
    ensures c in MARKS <==> 48 <= c <= 57 || c in [45, 46, 95, 126]
  {
    if 48 <= c <= 57 { assert MARKS[c - 48] == c; }
    assert MARKS[10] == 45 && MARKS[11] == 46 && MARKS[12] == 95 && MARKS[13] == 126;
    hide Codes;
  }

  /** Thirteen characters in a row have codes in a row. */
  lemma Thirteen(s: string, first: int)
    requires |s| == 13 && forall i :: 0 <= i < 13 ==> s[i] as int == first + i < 128
    ensures forall i :: 0 <= i < 13 ==> Codes(s)[i] == first + i
  {
  }

  /** What a name is written with: a tilde as "~0" and a solidus as "~1" (section 3 of RFC 6901); in a fragment
      anything else that is not unreserved as its UTF-8 character in triplets of a percent sign and two upper-case
      digits; and all the rest as it is. */
  lemma WritesChars(name: seq<byte>, j: nat, uri: bool)
    requires j < |name|
    ensures var c, p := name[j], PieceOf(name, j, uri);
      && (c == 126 ==> p == Some(Piece(Codes("~0"), j + 1)))
      && (c == 47 ==> p == Some(Piece(Codes("~1"), j + 1)))
      && (c != 126 && c != 47 && (!uri || Unreserved(c)) ==> p == Some(Piece([c], j + 1)))
      && (c != 126 && c != 47 && uri && !Unreserved(c) && p.Some? ==>
            p.value.next <= |name| && IsChar(name[j..p.value.next]) && p.value.text == Percents(name[j..p.value.next]))
  {
    hide Validate8, IsChar, NeedPercentEncode;
    UnreservedTable(name[j]);
    ValidatedChar(name, j);
    assert Codes("~0") == [126, 48] && Codes("~1") == [126, 49];
  }

  lemma PercentDigits(c: byte)
    ensures Percent(c) == [37, Codes("0123456789ABCDEF")[c / 16], Codes("0123456789ABCDEF")[c % 16]]
  {
  }

  /** What a name is read from. In a string: "~0" and "~1", any other tilde is an error, and every other byte stands
      for itself. In a fragment: the same of the unreserved characters, other bytes must be percent-encoded. */
  lemma ReadsChars(t: Text, i: nat, uri: bool)
    requires i < |t| && t[i] != 47 && (uri ==> t[i] != 37)
    ensures var c, s := t[i], OneChar(t, i, uri);
      if uri && !Unreserved(c) then s == Wrong(CharacterMustPercentEncode)
      else if c != 126 then s == Bytes([c], i + 1)
      else if Peek(t, i + 1) == 48 && i + 1 < |t| then s == Bytes([126], i + 2)
      else if Peek(t, i + 1) == 49 && i + 1 < |t| then s == Bytes([47], i + 2)
      else s == Wrong(InvalidEscape)
  {
    hide PercentChar, NeedPercentEncode;
    UnreservedTable(t[i]);
  }

  /** A triplet of a fragment that is no UTF-8 character is an error; an encoded tilde begins an escape too. */
  lemma ReadsTriplets(t: Text, i: nat)
    requires i < |t| && t[i] == 37
    ensures PercentChar(t, i) == None ==> OneChar(t, i, true) == Wrong(InvalidPercentEncoding)
    ensures forall c: byte, more: seq<byte> :: PercentChar(t, i) == Some([c] + more) && (more != [] || c != 126) ==>
      OneChar(t, i, true) == Bytes([c] + more, i + 3 + 3 * |more|)
    ensures PercentChar(t, i) == Some([126]) ==>
      OneChar(t, i, true) ==
      if i + 3 < |t| && t[i + 3] == 48 then Bytes([126], i + 4)
      else if i + 3 < |t| && t[i + 3] == 49 then Bytes([47], i + 4)
      else Wrong(InvalidEscape)
  {
    hide PercentChar;
    forall c: byte, more: seq<byte> | PercentChar(t, i) == Some([c] + more) && (more != [] || c != 126)
      ensures OneChar(t, i, true) == Bytes([c] + more, i + 3 + 3 * |more|)
    {
      if more == [] { assert [c] + more == [c]; }
    }
  }

  // ----- parsing what was printed

  lemma TripletRead(t: Text, i: nat, c: byte)
    requires At(t, i, Percent(c))
    ensures Triplet(t, i) == Some(c)
  {
    var w := Percent(c);
    AtPeek(t, i, w, 0); AtPeek(t, i, w, 1); AtPeek(t, i, w, 2);
    assert HexValue(HEX_DIGITS[c / 16]) == c / 16 && HexValue(HEX_DIGITS[c % 16]) == c % 16;
  }

  lemma {:induction false} TripletsRead(t: Text, i: nat, bs: seq<byte>)
    requires At(t, i, Percents(bs))
    ensures Triplets(t, i, |bs|) == Some(bs)
    decreases |bs|
  {
    hide At, Triplet, Percent;
    if bs != [] {
      AtSplit(t, i, Percent(bs[0]), Percents(bs[1..]));
      TripletRead(t, i, bs[0]);
      assert |Percent(bs[0])| == 3 by { ThreeBytes(bs[0]); }
      TripletsRead(t, i + 3, bs[1..]);
      assert [bs[0]] + bs[1..] == bs;
    }
  }

  lemma ThreeBytes(c: byte)
    ensures |Percent(c)| == 3
  {
  }

  lemma MaskCount(bs: seq<byte>)
    requires IsChar(bs)
    ensures |bs| == if bs[0] < 0x80 then 1 else 1 + |Masks(GetRange(bs[0]))|
  {
  }

  lemma CharValid(bs: seq<byte>)
    requires IsChar(bs)
    ensures Validate8(bs, 0).ok
  {
    hide Validate8, Decode8;
    DecodeIsGrammar(bs, 0);
    ValidateAgrees(bs, 0);
    assert bs[0..|bs|] == bs;
  }

  lemma PercentCharRead(t: Text, i: nat, bs: seq<byte>)
    requires IsChar(bs) && At(t, i, Percents(bs))
    ensures PercentChar(t, i) == Some(bs)
  {
    hide At, Triplet, Validate8, Percent, Masks, GetRange;
    assert Percents(bs) == Percent(bs[0]) + Percents(bs[1..]);
    AtSplit(t, i, Percent(bs[0]), Percents(bs[1..]));
    TripletRead(t, i, bs[0]);
    TripletsRead(t, i, bs);
    MaskCount(bs);
    CharValid(bs);
  }

  /** The UTF-8 character at a position of a name, as Stringify validates it. */
  lemma ValidatedChar(name: seq<byte>, j: nat)
    requires j < |name|
    ensures var v := Validate8(name, j);
      && (v.ok ==> j < v.next <= |name| && v.out == name[j..v.next] && IsChar(v.out))
      && (IsOctets(name[j..]) <==> v.ok && IsOctets(name[v.next..]))
  {
    hide Validate8, Decode8, IsChar, CodePoint, Look;
    ValidateAgrees(name, j);
    DecodeIsGrammar(name, j);
    OctetsStep(name, j);
    var next := Decode8(name, j).next;
    Looked(name, j, next - j);
  }

  /** A byte of ASCII is a character by itself. */
  lemma AsciiChar(name: seq<byte>, j: nat)
    requires j < |name| && name[j] < 0x80
    ensures IsOctets(name[j..]) <==> IsOctets(name[j + 1..])
  {
    ValidatedChar(name, j);
  }

  lemma PieceExists(name: seq<byte>, j: nat)
    requires j < |name|
    ensures var p := PieceOf(name, j, true); IsOctets(name[j..]) <==> p.Some? && IsOctets(name[p.value.next..])
  {
    hide Validate8, IsOctets, Percents, IsChar;
    ValidatedChar(name, j);
    if name[j] < 0x80 { AsciiChar(name, j); }
    CharNotEmpty(Validate8(name, j).out);
  }

  lemma CharNotEmpty(bs: seq<byte>)
    ensures IsChar(bs) ==> bs != []
  {
  }

  /** Printing as a URI fragment succeeds on exactly the names that are UTF-8; as a string, always. */
  lemma {:induction false} NameTextExists(name: seq<byte>, j: nat, uri: bool)
    requires j <= |name|
    ensures NameText(name, j, uri).Some? <==> !uri || IsOctets(name[j..])
    decreases |name| - j
  {
    hide IsOctets, PieceOf;
    if j == |name| {
      NoOctets();
      assert name[j..] == [];
    } else {
      if uri { PieceExists(name, j); } else { PlainPiece(name, j); }
      var p := PieceOf(name, j, uri);
      if p.Some? { NameTextExists(name, p.value.next, uri); }
    }
  }

  lemma PlainPiece(name: seq<byte>, j: nat)
    requires j < |name|
    ensures PieceOf(name, j, false).Some?
  {
  }

  /** One turn of Stringify read back. */
  lemma PieceReads(t: Text, i: nat, name: seq<byte>, j: nat, uri: bool)
    requires j < |name| && PieceOf(name, j, uri).Some? && At(t, i, PieceOf(name, j, uri).value.text)
    ensures var p := PieceOf(name, j, uri).value;
      i < |t| && t[i] != SLASH && OneChar(t, i, uri) == Bytes(name[j..p.next], i + |p.text|)
  {
    var c, p := name[j], PieceOf(name, j, uri).value;
    if uri && c != TILDE && c != SLASH && NeedPercentEncode(c) {
      hide At, Validate8, PercentChar, IsOctets, Percent;
      ValidatedChar(name, j);
      var out := Validate8(name, j).out;
      PercentCharRead(t, i, out);
      FirstPercent(t, i, out);
      assert out[0] == c;
      if |out| == 1 { assert out == [c]; }
    } else {
      AtPeek(t, i, p.text, 0);
      if |p.text| == 2 { AtPeek(t, i, p.text, 1); }
      assert name[j..j + 1] == [c];
    }
  }

  lemma FirstPercent(t: Text, i: nat, bs: seq<byte>)
    requires bs != [] && At(t, i, Percents(bs))
    ensures Peek(t, i) == PERCENT
  {
    assert Percents(bs)[0] == PERCENT;
    AtPeek(t, i, Percents(bs), 0);
  }

  lemma {:induction false} NameReads(t: Text, i: nat, name: seq<byte>, j: nat, uri: bool, w: seq<byte>)
    requires j <= |name| && NameText(name, j, uri) == Some(w) && At(t, i, w)
    requires i + |w| < |t| ==> t[i + |w|] == SLASH
    ensures i <= |t| && NameAt(t, i, uri) == Bytes(name[j..], i + |w|)
    decreases |name| - j
  {
    hide At, OneChar, PieceOf, NameAt;
    AtWithin(t, i, w);
    if j == |name| {
      NameEnd(t, i, uri);
      assert name[j..] == [];
    } else {
      var p := PieceOf(name, j, uri).value;
      var rest := NameText(name, p.next, uri).value;
      AtSplit(t, i, p.text, rest);
      PieceReads(t, i, name, j, uri);
      NameReads(t, i + |p.text|, name, p.next, uri, rest);
      NameStep(t, i, uri, name[j..p.next], i + |p.text|);
      assert name[j..] == name[j..p.next] + name[p.next..];
    }
  }

  lemma NameEnd(t: Text, i: nat, uri: bool)
    requires i == |t| || (i < |t| && t[i] == SLASH)
    ensures NameAt(t, i, uri) == Bytes([], i)
  {
  }

  lemma NameStep(t: Text, i: nat, uri: bool, bs: seq<byte>, next: nat)
    requires i < |t| && t[i] != SLASH && OneChar(t, i, uri) == Bytes(bs, next)
    ensures NameAt(t, next, uri).Bytes? ==>
      NameAt(t, i, uri) == Bytes(bs + NameAt(t, next, uri).bytes, NameAt(t, next, uri).next)
  {
    hide OneChar;
  }

  lemma AtWithin(t: Text, i: nat, w: seq<byte>)
    requires At(t, i, w)
    ensures i + |w| <= |t|
  {
  }

  /** The tokens as the parser makes them: the index follows from the name. */
  predicate Indexed(tokens: seq<Token>) { forall i :: 0 <= i < |tokens| ==> tokens[i].index == IndexOf(tokens[i].name) }

  /** The tokens with the indexes the parser gives. */
  function Reindexed(tokens: seq<Token>): (r: seq<Token>)
    ensures Indexed(r) && |r| == |tokens| && forall i :: 0 <= i < |r| ==> r[i].name == tokens[i].name
    ensures Indexed(tokens) ==> r == tokens
  {
    if tokens == [] then []
    else [Token(tokens[0].name, IndexOf(tokens[0].name))] + Reindexed(tokens[1..])
  }

  lemma {:induction false} TokensRead(t: Text, i: nat, tokens: seq<Token>, uri: bool)
    requires i <= |t| && TokensText(tokens, uri) == Some(t[i..])
    ensures (i < |t| ==> t[i] == SLASH) && TokensAt(t, i, uri) == Tokens(Reindexed(tokens))
    decreases |tokens|
  {
    hide At, NameText, NameAt, IndexOf, TokensAt;
    if tokens == [] {
      assert |t[i..]| == 0;
      TokensEnd(t, uri);
    } else {
      var w, rest := NameText(tokens[0].name, 0, uri).value, TokensText(tokens[1..], uri).value;
      FirstToken(t, i, w, rest);
      var next := i + 1 + |w|;
      TokensRead(t, next, tokens[1..], uri);
      NameReads(t, i + 1, tokens[0].name, 0, uri, w);
      assert tokens[0].name[0..] == tokens[0].name;
      TokensStep(t, i, uri, tokens[0].name, next);
    }
  }

  lemma TokensEnd(t: Text, uri: bool)
    ensures TokensAt(t, |t|, uri) == Tokens([])
  {
  }

  lemma TokensStep(t: Text, i: nat, uri: bool, name: seq<byte>, next: nat)
    requires i < |t| && t[i] == SLASH && NameAt(t, i + 1, uri) == Bytes(name, next)
    ensures TokensAt(t, next, uri).Tokens? ==>
      TokensAt(t, i, uri) == Tokens([Token(name, IndexOf(name))] + TokensAt(t, next, uri).tokens)
  {
    hide NameAt, IndexOf;
  }

  lemma FirstToken(t: Text, i: nat, w: seq<byte>, rest: seq<byte>)
    requires i <= |t| && t[i..] == [SLASH] + w + rest
    ensures i < |t| && t[i] == SLASH && At(t, i + 1, w) && i + 1 + |w| <= |t| && t[i + 1 + |w|..] == rest
  {
    AtTail(t, i, [SLASH] + w, rest);
    AtSplit(t, i, [SLASH], w);
    AtPeek(t, i, [SLASH] + w, 0);
    assert t[i + 1 + |w|..] == t[i..][1 + |w|..];
  }

  lemma AtTail(t: Text, i: nat, w: seq<byte>, rest: seq<byte>)
    requires i <= |t| && t[i..] == w + rest
    ensures At(t, i, w)
  {
    assert t[i..i + |w|] == t[i..][..|w|];
  }

  /** Parsing the string form of any tokens, or the URI fragment form of any UTF-8 tokens, gives back the
      same names, each with the index that follows from it; so the same tokens when they came from the
      parser. */
  lemma PointerRoundTrip(tokens: seq<Token>, uri: bool)
    ensures Stringify(tokens, uri).Some? <==> !uri || forall i :: 0 <= i < |tokens| ==> IsOctets(tokens[i].name)
    ensures Stringify(tokens, uri).Some? ==> ParsePointer(Stringify(tokens, uri).value) == Tokens(Reindexed(tokens))
  {
    TextExists(tokens, uri);
    hide TokensAt, IsOctets, TokensText, Reindexed, IndexOf;
    if TokensText(tokens, uri).Some? {
      var body := TokensText(tokens, uri).value;
      var t := Stringify(tokens, uri).value;
      var i := if uri then 1 else 0;
      assert t[i..] == body;
      TokensRead(t, i, tokens, uri);
    }
  }

  lemma {:induction false} TextExists(tokens: seq<Token>, uri: bool)
    ensures TokensText(tokens, uri).Some? <==> !uri || forall i :: 0 <= i < |tokens| ==> IsOctets(tokens[i].name)
    decreases |tokens|
  {
    hide NameText, IsOctets;
    if tokens != [] {
      var name := tokens[0].name;
      NameTextExists(name, 0, uri);
      assert name[0..] == name;
      TextExists(tokens[1..], uri);
      assert forall i :: 1 <= i < |tokens| ==> tokens[i] == tokens[1..][i - 1];
      if forall i :: 0 <= i < |tokens| ==> IsOctets(tokens[i].name) {
        forall i | 0 <= i < |tokens| - 1 ensures IsOctets(tokens[1..][i].name) { assert IsOctets(tokens[i + 1].name); }
      }
    }
  }

  lemma {:induction false} UnreservedText(name: seq<byte>, j: nat)
    requires j <= |name| && forall i :: 0 <= i < |name| ==> Unreserved(name[i]) && name[i] != 126
    ensures NameText(name, j, true) == Some(name[j..])
    decreases |name| - j
  {
    hide PieceOf, Unreserved;
    if j < |name| {
      assert Unreserved(name[j]);
      NotSolidus(name[j]);
      WritesChars(name, j, true);
      UnreservedText(name, j + 1);
      assert name[j..] == [name[j]] + name[j + 1..];
    }
  }

  lemma NotSolidus(c: byte)
    ensures Unreserved(c) ==> c != 47
  {
    UnreservedTable(c);
    hide Unreserved;
  }

  /** A name of unreserved characters but the tilde is its own text: the fragment "#/" and the name leads to it. */
  lemma UnreservedReads(name: seq<byte>)
    requires forall i :: 0 <= i < |name| ==> Unreserved(name[i]) && name[i] != 126
    ensures ParsePointer(Codes("#/") + name) == Tokens([Token(name, IndexOf(name))])
  {
    hide ParsePointer, IndexOf, Unreserved, NameText, Stringify, Codes, Reindexed;
    var token := Token(name, IndexOf(name));
    UnreservedText(name, 0);
    OneText(token, name[0..]);
    PointerRoundTrip([token], true);
    OneIndexed(token);
    HashSolidus();
    assert [HASH, SLASH] + name == [HASH] + ([SLASH] + name[0..]);
  }

  lemma HashSolidus()
    ensures Codes("#/") == [HASH, SLASH]
  {
  }

  lemma OneIndexed(token: Token)
    requires token.index == IndexOf(token.name)
    ensures Reindexed([token]) == [token]
  {
    hide IndexOf;
    assert Indexed([token]);
  }

  lemma OneText(token: Token, w: seq<byte>)
    requires NameText(token.name, 0, true) == Some(w)
    ensures Stringify([token], true) == Some([HASH] + ([SLASH] + w))
  {
    hide NameText;
    assert TokensText([token][1..], true) == Some([]);
    assert [SLASH] + w + [] == [SLASH] + w;
  }

  // ----- errors

  /** Behind the text of a name, an error at the next place is the error of the name. */
  lemma {:induction false} NameFails(t: Text, i: nat, name: seq<byte>, j: nat, uri: bool, w: seq<byte>)
    requires j <= |name| && NameText(name, j, uri) == Some(w) && At(t, i, w)
    requires i + |w| < |t| && t[i + |w|] != SLASH && OneChar(t, i + |w|, uri).Wrong?
    ensures i <= |t| && NameAt(t, i, uri) == OneChar(t, i + |w|, uri)
    decreases |name| - j
  {
    hide At, OneChar, PieceOf, NameAt;
    if j == |name| {
      NameWrong(t, i, uri);
    } else {
      var p := PieceOf(name, j, uri).value;
      var rest := NameText(name, p.next, uri).value;
      AtSplit(t, i, p.text, rest);
      PieceReads(t, i, name, j, uri);
      NameFails(t, i + |p.text|, name, p.next, uri, rest);
      NameStepWrong(t, i, uri, name[j..p.next], i + |p.text|);
    }
  }

  lemma NameWrong(t: Text, i: nat, uri: bool)
    requires i < |t| && t[i] != SLASH && OneChar(t, i, uri).Wrong?
    ensures NameAt(t, i, uri) == OneChar(t, i, uri)
  {
    hide OneChar;
  }

  lemma NameStepWrong(t: Text, i: nat, uri: bool, bs: seq<byte>, next: nat)
    requires i < |t| && t[i] != SLASH && OneChar(t, i, uri) == Bytes(bs, next)
    ensures NameAt(t, next, uri).Wrong? ==> NameAt(t, i, uri) == NameAt(t, next, uri)
  {
    hide OneChar;
  }

  /** Parsing fails with the first error: after the text of any tokens and of the beginning of one more name, with
      the error of the character that comes next; and a pointer that begins with neither a solidus nor a hash sign
      and a solidus is none at all. */
  lemma PointerFails(t: Text, tokens: seq<Token>, name: seq<byte>, uri: bool, body: seq<byte>, w: seq<byte>)
    requires TokensText(tokens, uri) == Some(body) && NameText(name, 0, uri) == Some(w)
    requires At(t, 0, (if uri then [HASH] else []) + (body + ([SLASH] + w)))
    requires var end := (if uri then 1 else 0) + |body| + 1 + |w|;
      end < |t| && t[end] != SLASH && OneChar(t, end, uri).Wrong?
    ensures var end := (if uri then 1 else 0) + |body| + 1 + |w|;
      ParsePointer(t) == Failed(OneChar(t, end, uri).error)
  {
    hide At, OneChar, NameAt, TokensAt, NameText;
    var i := if uri then 1 else 0;
    var text := body + ([SLASH] + w);
    AtSplit(t, 0, if uri then [HASH] else [], text);
    if uri { AtPeek(t, 0, [HASH], 0); }
    TokensFail(t, i, tokens, name, uri, body, w);
    StartsPlain(t, i, text, uri);
  }

  lemma StartsPlain(t: Text, i: nat, text: seq<byte>, uri: bool)
    requires At(t, i, text) && text != [] && text[0] == SLASH && i == if uri then 1 else 0
    requires uri ==> t != [] && t[0] == HASH
    ensures i < |t| && t[i] == SLASH && ParsePointer(t) == TokensAt(t, i, uri)
  {
    AtPeek(t, i, text, 0);
    hide TokensAt;
  }

  lemma {:induction false} TokensFail(t: Text, i: nat, tokens: seq<Token>, name: seq<byte>, uri: bool, body: seq<byte>,
                                      w: seq<byte>)
    requires TokensText(tokens, uri) == Some(body) && NameText(name, 0, uri) == Some(w)
    requires At(t, i, body + ([SLASH] + w)) && (body + ([SLASH] + w))[0] == SLASH
    requires var end := i + |body| + 1 + |w|; end < |t| && t[end] != SLASH && OneChar(t, end, uri).Wrong?
    ensures i < |t| && t[i] == SLASH
    ensures TokensAt(t, i, uri) == Failed(OneChar(t, i + |body| + 1 + |w|, uri).error)
    decreases |tokens|
  {
    hide At, OneChar, NameAt, TokensAt, NameText, IndexOf;
    AtPeek(t, i, body + ([SLASH] + w), 0);
    if tokens == [] {
      assert body + ([SLASH] + w) == [SLASH] + w;
      AtSplit(t, i, [SLASH], w);
      NameFails(t, i + 1, name, 0, uri, w);
      TokensWrong(t, i, uri);
    } else {
      var first, rest := NameText(tokens[0].name, 0, uri).value, TokensText(tokens[1..], uri).value;
      var next := i + 1 + |first|;
      TokenSplit(t, i, first, rest, body, w);
      hide TokensText;
      BeginsToken(tokens[1..], uri, rest, w);
      TokensFail(t, next, tokens[1..], name, uri, rest, w);
      NameReads(t, i + 1, tokens[0].name, 0, uri, first);
      assert tokens[0].name[0..] == tokens[0].name;
      TokensStepWrong(t, i, uri, tokens[0].name, next);
    }
  }

  lemma TokenSplit(t: Text, i: nat, first: seq<byte>, rest: seq<byte>, body: seq<byte>, w: seq<byte>)
    requires body == [SLASH] + first + rest && At(t, i, body + ([SLASH] + w))
    ensures At(t, i + 1, first) && At(t, i + 1 + |first|, rest + ([SLASH] + w))
  {
    hide At;
    assert body + ([SLASH] + w) == [SLASH] + (first + (rest + ([SLASH] + w)));
    AtSplit(t, i, [SLASH], first + (rest + ([SLASH] + w)));
    AtSplit(t, i + 1, first, rest + ([SLASH] + w));
  }

  lemma BeginsToken(tokens: seq<Token>, uri: bool, body: seq<byte>, w: seq<byte>)
    requires TokensText(tokens, uri) == Some(body)
    ensures (body + ([SLASH] + w))[0] == SLASH
  {
    hide NameText;
  }

  lemma TokensWrong(t: Text, i: nat, uri: bool)
    requires i < |t| && t[i] == SLASH && NameAt(t, i + 1, uri).Wrong?
    ensures TokensAt(t, i, uri) == Failed(NameAt(t, i + 1, uri).error)
  {
    hide NameAt;
  }

  lemma TokensStepWrong(t: Text, i: nat, uri: bool, name: seq<byte>, next: nat)
    requires i < |t| && t[i] == SLASH && NameAt(t, i + 1, uri) == Bytes(name, next)
    ensures TokensAt(t, next, uri).Failed? ==> TokensAt(t, i, uri) == TokensAt(t, next, uri)
  {
    hide NameAt, IndexOf;
  }

  /** The first character decides. */
  lemma NoPointer(t: Text)
    ensures t != [] && t[0] != 47 && t[0] != 35 ==> ParsePointer(t) == Failed(TokenMustBeginWithSolidus)
    ensures |t| > 1 && t[0] == 35 && t[1] != 47 ==> ParsePointer(t) == Failed(TokenMustBeginWithSolidus)
    ensures t == [] || t == [35] ==> ParsePointer(t) == Tokens([])
  {
  }
}
