/**
  The lexical level of RapidJSON's reader: what can be read at a position of a NUL-terminated text.
 */
module JsonText {
  import opened Wrap32

  type Text = seq<byte>

  /** Peek: the byte at a position, NUL from the end of the text on. */
  function Peek(t: Text, i: nat): (c: byte)
    ensures c != 0 ==> i < |t| && t[i] == c
  {
    if i < |t| then t[i] else 0
  }

  /** The bytes w stand in the text at i. */
  predicate At(t: Text, i: nat, w: seq<byte>) { i + |w| <= |t| && t[i..i + |w|] == w }

  lemma AtSplit(t: Text, i: nat, a: seq<byte>, b: seq<byte>)
    requires At(t, i, a + b)
    ensures At(t, i, a) && At(t, i + |a|, b)
  {
    assert t[i..i + |a|] == t[i..i + |a + b|][..|a|];
    assert t[i + |a|..i + |a| + |b|] == t[i..i + |a + b|][|a|..];
  }

  lemma AtPeek(t: Text, i: nat, w: seq<byte>, k: nat)
    requires At(t, i, w) && k < |w|
    ensures Peek(t, i + k) == w[k]
  {
    assert t[i + k] == t[i..i + |w|][k];
  }

  function Matches(t: Text, i: nat, word: seq<byte>): (b: bool)
    requires 0 !in word
    ensures b && word != [] ==> i + |word| <= |t|
    decreases |word|
  {
    word == [] || (Peek(t, i) == word[0] && Matches(t, i + 1, word[1..]))
  }

  lemma MatchesStep(t: Text, i: nat, word: seq<byte>)
    requires 0 !in word && word != []
    ensures 0 !in word[1..]
    ensures Matches(t, i, word) <==> Peek(t, i) == word[0] && Matches(t, i + 1, word[1..])
  {
  }

  // ----- characters by name

  /** The ASCII codes of a string. */
  function Codes(s: string): (w: seq<byte>)
    requires forall i :: 0 <= i < |s| ==> s[i] < 128 as char
    ensures |w| == |s| && forall i :: 0 <= i < |s| ==> w[i] == s[i] as int
  {
    seq(|s|, i requires 0 <= i < |s| => s[i] as int)
  }

  /** The first place of a byte in a table. */
  function Place(table: seq<byte>, c: byte): (k: nat)
    requires c in table
    ensures k < |table| && table[k] == c && forall i :: 0 <= i < k ==> table[i] != c
  {
    if table[0] == c then 0 else 1 + Place(table[1..], c)
  }

  // ----- bytes with a meaning

  const QUOTE := 0x22
  const BACKSLASH := 0x5c
  const SLASH := 0x2f
  const COMMA := 0x2c
  const COLON := 0x3a
  const MINUS := 0x2d
  const ZERO := 0x30
  const NINE := 0x39
  const LBRACKET := 0x5b
  const RBRACKET := 0x5d
  const LBRACE := 0x7b
  const RBRACE := 0x7d
  const STAR := 0x2a
  const NEWLINE := 0x0a
  const SMALL_U := 0x75

  const HEX_DIGITS: seq<byte> :=
    [0x30, 0x31, 0x32, 0x33, 0x34, 0x35, 0x36, 0x37, 0x38, 0x39, 0x41, 0x42, 0x43, 0x44, 0x45, 0x46]

  /** ParseErrorCode */
  datatype Code =
    | DocumentEmpty | DocumentRootNotSingular | ValueInvalid
    | ObjectMissName | ObjectMissColon | ObjectMissCommaOrCurlyBracket | ArrayMissCommaOrSquareBracket
    | StringUnicodeEscapeInvalidHex | StringUnicodeSurrogateInvalid | StringEscapeInvalid
    | StringMissQuotationMark | NumberTooBig | NumberMissFraction | NumberMissExponent
    | Termination | UnspecificSyntaxError

  datatype Option<+T> = None | Some(value: T)

  // ----- white space and comments

  predicate IsSpace(c: byte) { c == 0x20 || c == 0x0a || c == 0x0d || c == 0x09 }

  /** SkipWhitespace */
  function SkipSpace(t: Text, i: nat): (j: nat)
    ensures i <= j && (i <= |t| ==> j <= |t|)
    ensures !IsSpace(Peek(t, j))
    decreases |t| - i
  {
    if IsSpace(Peek(t, i)) then SkipSpace(t, i + 1) else i
  }

  /** The end of a block comment whose opening has been read; None when the text ends inside it. */
  function BlockEnd(t: Text, i: nat): (r: Option<nat>)
    ensures r.Some? ==> i < r.value <= |t|
    decreases |t| - i
  {
    if Peek(t, i) == 0 then None
    else if Peek(t, i) == STAR then
      if Peek(t, i + 1) == SLASH then Some(i + 2) else BlockEnd(t, i + 1)
    else BlockEnd(t, i + 1)
  }

  /** The end of a line comment. */
  function LineEnd(t: Text, i: nat): (j: nat)
    ensures i <= j && (i <= |t| ==> j <= |t|)
    decreases |t| - i
  {
    if Peek(t, i) == 0 then i else if Peek(t, i) == NEWLINE then i + 1 else LineEnd(t, i + 1)
  }

  /** The end of a comment whose slash has been read. */
  function CommentEnd(t: Text, i: nat): (r: Option<nat>)
    ensures r.Some? ==> i < r.value <= |t|
  {
    if Peek(t, i) == STAR then BlockEnd(t, i + 1)
    else if Peek(t, i) == SLASH then Some(LineEnd(t, i + 1))
    else None
  }

  /** SkipWhitespaceAndComments: where the next token starts, or None on a malformed comment. */
  function Skip(t: Text, comments: bool, i: nat): (r: Option<nat>)
    ensures r.Some? ==> i <= r.value && (i <= |t| ==> r.value <= |t|)
    decreases |t| - i
  {
    var j := SkipSpace(t, i);
    if comments && Peek(t, j) == SLASH then
      match CommentEnd(t, j + 1)
      case None => None
      case Some(k) => Skip(t, comments, k)
    else Some(j)
  }

  // ----- strings

  /** UTF8::Encode */
  function Utf8(codepoint: nat): (bs: seq<byte>)
    requires codepoint <= 0x10ffff
    ensures 1 <= |bs| <= 4
    ensures |bs| ==
      if codepoint <= 0x7f then 1 else if codepoint <= 0x7ff then 2 else if codepoint <= 0xffff then 3 else 4
  {
    if codepoint <= 0x7f then [codepoint]
    else if codepoint <= 0x7ff then [0xc0 + codepoint / 0x40, 0x80 + codepoint % 0x40]
    else if codepoint <= 0xffff then
      [0xe0 + codepoint / 0x1000, 0x80 + codepoint / 0x40 % 0x40, 0x80 + codepoint % 0x40]
    else
      [0xf0 + codepoint / 0x4_0000, 0x80 + codepoint / 0x1000 % 0x40, 0x80 + codepoint / 0x40 % 0x40,
       0x80 + codepoint % 0x40]
  }

  /** The value of a hexadecimal digit, -1 for other bytes. */
  function HexValue(c: byte): (d: int)
    ensures -1 <= d < 16
    ensures d >= 0 ==> c != 0
  {
    if 0x30 <= c <= 0x39 then c - 0x30
    else if 0x41 <= c <= 0x46 then c - 0x41 + 10
    else if 0x61 <= c <= 0x66 then c - 0x61 + 10
    else -1
  }

  /** ParseHex4, after n digits worth `acc`. */
  function Hex(t: Text, i: nat, n: nat, acc: nat): (r: Option<nat>)
    requires n <= 4
    ensures r.Some? && n < 4 ==> i + (4 - n) <= |t|
    decreases 4 - n
  {
    if n == 4 then Some(acc)
    else if HexValue(Peek(t, i)) < 0 then None
    else Hex(t, i + 1, n + 1, acc * 16 + HexValue(Peek(t, i)))
  }

  lemma {:induction false} HexBound(t: Text, i: nat, n: nat, acc: nat, bound: nat)
    requires n <= 4 && acc < bound
    ensures Hex(t, i, n, acc).Some? ==>
      Hex(t, i, n, acc).value <
      bound * (if n == 4 then 1 else if n == 3 then 16 else if n == 2 then 256 else if n == 1 then 4096 else 65536)
    decreases 4 - n
  {
    if n < 4 && HexValue(Peek(t, i)) >= 0 {
      HexBound(t, i + 1, n + 1, acc * 16 + HexValue(Peek(t, i)), bound * 16);
    }
  }

  function Hex4(t: Text, i: nat): (r: Option<nat>)
    ensures r.Some? ==> i + 4 <= |t| && r.value <= 0xffff
  {
    HexBound(t, i, 0, 0, 1);
    Hex(t, i, 0, 0)
  }

  /** The escape table of the reader: what a one-letter escape stands for, 0 for none. */
  function Unescape(e: byte): (c: byte)
    ensures c != 0 ==> e != 0
  {
    if e == QUOTE || e == SLASH || e == BACKSLASH then e
    else if e == 0x62 then 0x08
    else if e == 0x66 then 0x0c
    else if e == 0x6e then 0x0a
    else if e == 0x72 then 0x0d
    else if e == 0x74 then 0x09
    else 0
  }

  /** What one turn of ParseStringToStream finds: bytes to put and where to go on, the closing quote,
      or an error. */
  datatype Piece = Put(bytes: seq<byte>, next: nat) | Close(next: nat) | Bad(code: Code)

  function Escaped(t: Text, i: nat): (p: Piece)
    ensures p.Put? ==> i < p.next <= |t| && |p.bytes| <= p.next - i
    ensures !p.Close?
  {
    var e := Peek(t, i + 1);
    if Unescape(e) != 0 then Put([Unescape(e)], i + 2)
    else if e != SMALL_U then Bad(StringEscapeInvalid)
    else
      match Hex4(t, i + 2)
      case None => Bad(StringUnicodeEscapeInvalidHex)
      case Some(codepoint) =>
        if !(0xd800 <= codepoint <= 0xdbff) then Put(Utf8(codepoint), i + 6)
        else if Peek(t, i + 6) != BACKSLASH || Peek(t, i + 7) != SMALL_U then Bad(StringUnicodeSurrogateInvalid)
        else
          match Hex4(t, i + 8)
          case None => Bad(StringUnicodeEscapeInvalidHex)
          case Some(low) =>
            if !(0xdc00 <= low <= 0xdfff) then Bad(StringUnicodeSurrogateInvalid)
            else Put(Utf8((codepoint - 0xd800) * 0x400 + (low - 0xdc00) + 0x1_0000), i + 12)
  }

  function PieceAt(t: Text, i: nat): (p: Piece)
    ensures p.Put? ==> i < p.next <= |t| && |p.bytes| <= p.next - i
    ensures p.Close? ==> p.next == i + 1 <= |t|
  {
    var c := Peek(t, i);
    if c == BACKSLASH then Escaped(t, i)
    else if c == QUOTE then Close(i + 1)
    else if c < 0x20 then Bad(if c == 0 then StringMissQuotationMark else StringEscapeInvalid)
    else Put([c], i + 1)
  }

  datatype Decoded = Str(bytes: seq<byte>, next: nat) | StrErr(code: Code)

  /** ParseStringToStream from just behind the opening quote: the decoded bytes and the position behind
      the closing quote. */
  function Decode(t: Text, i: nat): (d: Decoded)
    ensures d.Str? ==> i < d.next <= |t| && |d.bytes| < d.next - i
    decreases |t| - i
  {
    match PieceAt(t, i)
    case Close(next) => Str([], next)
    case Bad(code) => StrErr(code)
    case Put(bytes, next) =>
      match Decode(t, next)
      case StrErr(code) => StrErr(code)
      case Str(more, end) => Str(bytes + more, end)
  }

  // ----- numbers

  predicate IsDigit(c: byte) { ZERO <= c <= NINE }

  function DigitsEnd(t: Text, i: nat): (j: nat)
    ensures i <= j && (i <= |t| ==> j <= |t|)
    ensures forall k :: i <= k < j ==> IsDigit(Peek(t, k))
    ensures !IsDigit(Peek(t, j))
    decreases |t| - i
  {
    if IsDigit(Peek(t, i)) then DigitsEnd(t, i + 1) else i
  }

  /** The value of the digits from i up to j. */
  function Decimal(t: Text, i: nat, j: nat): (n: nat)
    requires i <= j && forall k :: i <= k < j ==> IsDigit(Peek(t, k))
    decreases j
  {
    if i == j then 0
    else
      assert IsDigit(Peek(t, j - 1));
      10 * Decimal(t, i, j - 1) + (Peek(t, j - 1) - ZERO)
  }

  lemma OneDigit(t: Text, i: nat)
    requires IsDigit(Peek(t, i))
    ensures Decimal(t, i, i + 1) == Peek(t, i) - ZERO <= 9
  {
    assert Decimal(t, i, i) == 0;
  }

  lemma {:induction false} DecimalGrows(t: Text, i: nat, j: nat, k: nat)
    requires i <= j <= k && forall n :: i <= n < k ==> IsDigit(Peek(t, n))
    ensures Decimal(t, i, j) <= Decimal(t, i, k)
    decreases k
  {
    if j < k {
      DecimalGrows(t, i, j, k - 1);
      assert IsDigit(Peek(t, k - 1));
    }
  }

  lemma {:induction false} DigitsEndFrom(t: Text, i: nat, j: nat)
    requires i <= j && forall n :: i <= n < j ==> IsDigit(Peek(t, n))
    ensures DigitsEnd(t, i) == DigitsEnd(t, j)
    decreases j
  {
    if i < j {
      DigitsEndFrom(t, i, j - 1);
      assert IsDigit(Peek(t, j - 1));
    }
  }

  /** A digit more makes the value at least ten times as large. */
  lemma DigitBeyond(t: Text, i: nat, j: nat, k: nat)
    requires i <= j < k && forall n :: i <= n < k ==> IsDigit(Peek(t, n))
    ensures Decimal(t, i, k) >= 10 * Decimal(t, i, j) + (Peek(t, j) - ZERO)
  {
    DecimalGrows(t, i, j + 1, k);
  }

  lemma DigitsEndAt(t: Text, i: nat, j: nat)
    requires i <= j && (forall n :: i <= n < j ==> IsDigit(Peek(t, n))) && !IsDigit(Peek(t, j))
    ensures DigitsEnd(t, i) == j
  {
    DigitsEndFrom(t, i, j);
  }

  /** What the integer part of ParseNumber finds: an optional minus, a magnitude, and where it stops. */
  datatype Magnitude = Magnitude(minus: bool, value: nat, next: nat)

  function IntegerAt(t: Text, i: nat): (r: Option<Magnitude>)
    ensures r.Some? ==> i < r.value.next <= |t|
  {
    var minus := Peek(t, i) == MINUS;
    var j := if minus then i + 1 else i;
    if Peek(t, j) == ZERO then Some(Magnitude(minus, 0, j + 1))
    else if IsDigit(Peek(t, j)) then Some(Magnitude(minus, Decimal(t, j, DigitsEnd(t, j)), DigitsEnd(t, j)))
    else None
  }

  /** The integer classes a handler is told about. */
  datatype Num = Int(i: int) | Uint(u: nat) | Int64(i64: int) | Uint64(u64: nat)

  const INT_MIN_ABS := 0x8000_0000
  const UINT_LIM := 0x1_0000_0000
  const INT64_MIN_ABS := 0x8000_0000_0000_0000
  const UINT64_LIM := 0x1_0000_0000_0000_0000

  /** Does the magnitude fit the 64-bit class of its sign? */
  predicate Fits64(m: Magnitude) { if m.minus then m.value <= INT64_MIN_ABS else m.value < UINT64_LIM }

  /** The narrowest class that holds the number. */
  function Narrowest(m: Magnitude): (n: Num)
    requires Fits64(m)
    ensures match n
      case Int(i) => -INT_MIN_ABS <= i <= 0 && i == 0 - m.value
      case Uint(u) => u < UINT_LIM && u == m.value
      case Int64(i) => -INT64_MIN_ABS <= i < -INT_MIN_ABS && i == 0 - m.value
      case Uint64(u) => UINT_LIM <= u < UINT64_LIM && u == m.value
    ensures m.minus <==> n.Int? || n.Int64?
  {
    if m.minus then (if m.value <= INT_MIN_ABS then Int(0 - m.value) else Int64(0 - m.value))
    else if m.value < UINT_LIM then Uint(m.value) else Uint64(m.value)
  }

  /** ~i + 1 read as a signed word: the negative of a magnitude that fits. */
  function Negate32(i: u32): (n: i32)
    ensures i <= INT_MIN_ABS ==> n == 0 - i
  {
    ToI32(0xffff_ffff - i + 1)
  }

  /** The same for 64 bits. */
  function Negate64(i: nat): (n: int)
    requires i < UINT64_LIM
    ensures i <= INT64_MIN_ABS ==> n == 0 - i
  {
    var w := (UINT64_LIM - 1 - i + 1) % UINT64_LIM;
    if w < INT64_MIN_ABS then w else w - UINT64_LIM
  }

  // ----- numbers that are not integers

  const DOT := 0x2e
  const PLUS := 0x2b
  const SMALL_E := 0x65
  const CAPITAL_E := 0x45

  /** NaN, Inf and what makes it Infinity */
  const NAN := [0x4e, 0x61, 0x4e]
  const INF := [0x49, 0x6e, 0x66]
  const INITY := [0x69, 0x6e, 0x69, 0x74, 0x79]

  /** The end of the word read under kParseNanAndInfFlag: "NaN", "Inf" or "Infinity". What was taken of "NaN" before
      another letter came stays taken when "Inf" is tried, so that an infinity may follow "N" or "Na". */
  function WordEnd(t: Text, i: nat): (r: Option<nat>)
    ensures r.Some? ==> i + 3 <= r.value <= |t|
  {
    if Matches(t, i, NAN) then Some(i + 3)
    else
      var j := if Peek(t, i) != NAN[0] then i else if Peek(t, i + 1) != NAN[1] then i + 1 else i + 2;
      if !Matches(t, j, INF) then None
      else if Peek(t, j + 3) != INITY[0] then Some(j + 3)
      else if Matches(t, j + 3, INITY) then Some(j + 8)
      else None
  }

  /** Where a number ends that is not an integer, or what is wrong with it. */
  datatype Float = FloatTo(end: nat) | BadFloat(code: Code)

  const MAX_EXPONENT := 308
  const SIGNIFICAND_LIM := 0x20_0000_0000_0000
  const SIGNIFICANT_DIGITS := 17

  function Power10(n: nat): nat { if n == 0 then 1 else 10 * Power10(n - 1) }

  lemma {:induction false} DecimalBound(t: Text, i: nat, j: nat)
    requires i <= j && forall k :: i <= k < j ==> IsDigit(Peek(t, k))
    ensures Decimal(t, i, j) < Power10(j - i)
    decreases j
  {
    if i < j {
      DecimalBound(t, i, j - 1);
      assert IsDigit(Peek(t, j - 1));
    }
  }

  lemma {:induction false} Power10Grows(m: nat, n: nat)
    requires m <= n
    ensures Power10(m) <= Power10(n)
    decreases n
  {
    if m < n { Power10Grows(m, n - 1); }
  }

  /** A number of 10^17 and more has more than 17 digits. */
  lemma ManyDigits(t: Text, i: nat, j: nat)
    requires i <= j && forall k :: i <= k < j ==> IsDigit(Peek(t, k))
    requires Decimal(t, i, j) >= 100_000_000_000_000_000
    ensures j - i > SIGNIFICANT_DIGITS
  {
    DecimalBound(t, i, j);
    if j - i <= SIGNIFICANT_DIGITS {
      Power10Grows(j - i, SIGNIFICANT_DIGITS);
      Power17();
    }
  }

  lemma Power17()
    ensures Power10(SIGNIFICANT_DIGITS) == 100_000_000_000_000_000
  {
    assert Power10(6) == 1_000_000;
    assert Power10(12) == 1_000_000_000_000;
  }

  /** How many digits of a fraction count, behind a significand of this value and number of digits: they count while
      the significand is below 2^53, then until there are 17 of them. */
  function Scale(digits: seq<byte>, value: nat, significant: nat): (n: nat)
    requires forall c :: c in digits ==> IsDigit(c)
    ensures n <= |digits|
  {
    if digits == [] then 0
    else if value < SIGNIFICAND_LIM then
      assert IsDigit(digits[0]);
      var more := 10 * value + (digits[0] - ZERO);
      1 + Scale(digits[1..], more, if more != 0 then significant + 1 else significant)
    else if significant < SIGNIFICANT_DIGITS then 1 + Scale(digits[1..], value, significant + 1)
    else 0
  }

  /** The exponent, if there is one; a positive one is limited. */
  function ExponentEnd(t: Text, i: nat, limit: nat): (r: Float)
    ensures r.FloatTo? ==> i <= r.end && (i <= |t| ==> r.end <= |t|)
  {
    if Peek(t, i) != SMALL_E && Peek(t, i) != CAPITAL_E then FloatTo(i)
    else
      var j := if Peek(t, i + 1) in {PLUS, MINUS} then i + 2 else i + 1;
      var end := DigitsEnd(t, j);
      if end == j then BadFloat(NumberMissExponent)
      else if Peek(t, i + 1) != MINUS && Decimal(t, j, end) > limit then BadFloat(NumberTooBig)
      else FloatTo(end)
  }

  /** The digits between i and j. */
  function Between(t: Text, i: nat, j: nat): (w: seq<byte>)
    requires i <= j <= |t| && forall k :: i <= k < j ==> IsDigit(Peek(t, k))
    ensures |w| == j - i && forall c :: c in w ==> IsDigit(c)
  {
    assert forall k :: i <= k < j ==> Peek(t, k) == t[k];
    t[i..j]
  }

  /** Fraction and exponent, behind an integer part of this value and number of digits beyond the first. */
  function FloatEnd(t: Text, i: nat, value: nat, significant: nat): (r: Float)
    ensures r.FloatTo? ==> i <= r.end && (i <= |t| ==> r.end <= |t|)
  {
    if Peek(t, i) != DOT then ExponentEnd(t, i, MAX_EXPONENT)
    else
      var end := DigitsEnd(t, i + 1);
      if end == i + 1 then BadFloat(NumberMissFraction)
      else ExponentEnd(t, end, MAX_EXPONENT + Scale(Between(t, i + 1, end), value, significant))
  }
}
