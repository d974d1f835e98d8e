/**
  The numbers RapidJSON's reader takes, as a grammar of their own: an integer part without leading zeros, or one of
  the words for NaN and infinity, then an optional fraction and an optional exponent. ParseNumber reads exactly these.
 */
module JsonNumbers {
  import opened Wrap32
  import opened JsonText
  import opened JsonParse

  /** What the flags of a parse make of the grammar. */
  datatype Grammar = Grammar(comments: bool, trailing: bool, nanAndInf: bool, huge: seq<byte> -> bool)

  function GrammarOf(env: Env): Grammar { Grammar(env.comments, env.trailing, env.nanAndInf, env.huge) }

  datatype Head = Whole(digits: seq<byte>) | Word(word: seq<byte>)

  datatype Exponent = Exponent(letter: byte, sign: seq<byte>, digits: seq<byte>)

  datatype Numeral = Numeral(minus: bool, head: Head, fraction: Option<seq<byte>>, exponent: Option<Exponent>)

  predicate AllDigits(w: seq<byte>) { forall c :: c in w ==> IsDigit(c) }

  /** The number a string of digits denotes. */
  function ValueOfDigits(w: seq<byte>): (n: nat)
    requires AllDigits(w)
  {
    if w == [] then 0
    else
      assert IsDigit(w[|w| - 1]);
      10 * ValueOfDigits(w[..|w| - 1]) + (w[|w| - 1] - ZERO)
  }

  // ----- the text of a numeral

  function SignText(minus: bool): seq<byte> { if minus then [MINUS] else [] }

  function HeadText(h: Head): seq<byte> { match h case Whole(digits) => digits case Word(word) => word }

  function FractionText(f: Option<seq<byte>>): seq<byte> { if f.Some? then [DOT] + f.value else [] }

  function ExponentText(e: Option<Exponent>): seq<byte>
  {
    if e.Some? then [e.value.letter] + (e.value.sign + e.value.digits) else []
  }

  function Front(minus: bool, h: Head): seq<byte> { SignText(minus) + HeadText(h) }

  function Back(f: Option<seq<byte>>, e: Option<Exponent>): seq<byte> { FractionText(f) + ExponentText(e) }

  function NumeralText(n: Numeral): seq<byte>
  {
    Front(n.minus, n.head) + Back(n.fraction, n.exponent)
  }

  // ----- the rules

  /** "Inf", behind as much of "NaN". */
  function Short(n: nat): (w: seq<byte>)
    requires n <= 2
    ensures |w| == n + 3
  {
    NAN[..n] + INF
  }

  /** "Infinity", behind as much of "NaN". */
  function Long(n: nat): (w: seq<byte>)
    requires n <= 2
    ensures |w| == n + 8
  {
    Short(n) + INITY
  }

  /** NaN, Inf and Infinity; and both infinities behind "N" or "Na". */
  predicate IsWord(w: seq<byte>) { w == NAN || exists n :: 0 <= n <= 2 && (w == Short(n) || w == Long(n)) }

  function MagnitudeOf(minus: bool, digits: seq<byte>): Magnitude
    requires AllDigits(digits)
  {
    Magnitude(minus, ValueOfDigits(digits), 0)
  }

  predicate HeadFits(h: Head)
  {
    match h
    case Whole(digits) => digits != [] && AllDigits(digits) && (digits[0] == ZERO ==> |digits| == 1)
    case Word(word) => IsWord(word)
  }

  /** What the flags and the size of a double allow. */
  predicate Allowed(g: Grammar, minus: bool, h: Head)
    requires HeadFits(h)
  {
    match h
    case Whole(digits) => Fits64(MagnitudeOf(minus, digits)) || !g.huge(Front(minus, h))
    case Word(_) => g.nanAndInf
  }

  function HeadValue(h: Head): nat
    requires HeadFits(h)
  {
    if h.Whole? then ValueOfDigits(h.digits) else 0
  }

  /** The digits beyond the first. */
  function HeadCount(h: Head): nat
    requires HeadFits(h)
  {
    if h.Whole? then |h.digits| - 1 else 0
  }

  /** How many digits of the fraction count against the limit of the exponent. */
  function ScaleBy(f: Option<seq<byte>>, value: nat, significant: nat): nat
    requires f.Some? ==> AllDigits(f.value)
  {
    if f.Some? then Scale(f.value, value, significant) else 0
  }

  predicate ExponentFits(e: Exponent, scale: nat)
  {
    && e.letter in {SMALL_E, CAPITAL_E} && e.sign in {[], [PLUS], [MINUS]} && e.digits != [] && AllDigits(e.digits)
    && (e.sign != [MINUS] ==> ValueOfDigits(e.digits) <= MAX_EXPONENT + scale)
  }

  predicate FloatFits(f: Option<seq<byte>>, e: Option<Exponent>, value: nat, significant: nat)
  {
    && (f.Some? ==> f.value != [] && AllDigits(f.value))
    && (e.Some? ==> ExponentFits(e.value, ScaleBy(f, value, significant)))
  }

  predicate NumeralFits(g: Grammar, n: Numeral)
  {
    && HeadFits(n.head) && Allowed(g, n.minus, n.head)
    && FloatFits(n.fraction, n.exponent, HeadValue(n.head), HeadCount(n.head))
  }

  predicate IsInteger(n: Numeral)
    requires HeadFits(n.head)
  {
    n.head.Whole? && n.fraction == None && n.exponent == None && Fits64(MagnitudeOf(n.minus, n.head.digits))
  }

  /** What the handler is told: integers of at most 64 bits by value. */
  function NumeralEvent(n: Numeral): Event
    requires HeadFits(n.head)
  {
    if IsInteger(n) then Number(Narrowest(MagnitudeOf(n.minus, n.head.digits))) else Double(NumeralText(n))
  }

  /** Numerals that are not reported by value. */
  predicate IsFloat(g: Grammar, n: Numeral) { NumeralFits(g, n) && !IsInteger(n) }

  /** The byte c does not continue the numeral. */
  predicate Ends(n: Numeral, c: byte)
  {
    && (n.exponent.None? ==> c != SMALL_E && c != CAPITAL_E)
    && (n.exponent.None? && n.fraction.None? ==> c != DOT)
    && (IsDigit(c) ==> n.exponent.None? && n.fraction.None? && (n.head.Whole? ==> n.head.digits == [ZERO]))
    && (c == INITY[0] ==> n.exponent.Some? || n.fraction.Some? || !EndsInf(n.head))
  }

  /** An infinity that may still become "Infinity". */
  predicate EndsInf(h: Head) { h.Word? && exists n :: 0 <= n <= 2 && h.word == Short(n) }

  // ----- digits

  lemma AtJoin(t: Text, i: nat, a: seq<byte>, b: seq<byte>)
    requires At(t, i, a) && At(t, i + |a|, b)
    ensures At(t, i, a + b)
  {
  }

  lemma {:induction false} DecimalIs(t: Text, i: nat, w: seq<byte>)
    requires At(t, i, w) && AllDigits(w)
    ensures forall k :: i <= k < i + |w| ==> IsDigit(Peek(t, k))
    ensures Decimal(t, i, i + |w|) == ValueOfDigits(w)
    decreases |w|
  {
    forall k | i <= k < i + |w| ensures IsDigit(Peek(t, k)) { AtPeek(t, i, w, k - i); }
    if w != [] {
      var init := w[..|w| - 1];
      assert w == init + [w[|w| - 1]];
      AtSplit(t, i, init, [w[|w| - 1]]);
      DecimalIs(t, i, init);
      AtPeek(t, i, w, |w| - 1);
    }
  }

  lemma DigitsAre(t: Text, i: nat, end: nat)
    requires i <= end <= |t| && forall k :: i <= k < end ==> IsDigit(Peek(t, k))
    ensures At(t, i, Between(t, i, end)) && AllDigits(Between(t, i, end))
    ensures ValueOfDigits(Between(t, i, end)) == Decimal(t, i, end)
  {
    DecimalIs(t, i, Between(t, i, end));
  }

  lemma DigitsRead(t: Text, i: nat, w: seq<byte>)
    requires At(t, i, w) && AllDigits(w) && !IsDigit(Peek(t, i + |w|))
    ensures DigitsEnd(t, i) == i + |w| && Between(t, i, i + |w|) == w && Decimal(t, i, i + |w|) == ValueOfDigits(w)
  {
    DecimalIs(t, i, w);
    DigitsEndAt(t, i, i + |w|);
  }

  // ----- words

  lemma AtCons(t: Text, i: nat, w: seq<byte>)
    requires w != [] && w[0] != 0
    ensures At(t, i, w) <==> Peek(t, i) == w[0] && At(t, i + 1, w[1..])
  {
    assert w == [w[0]] + w[1..];
    if At(t, i, w) {
      AtPeek(t, i, w, 0);
      AtSplit(t, i, [w[0]], w[1..]);
    }
    if Peek(t, i) == w[0] && At(t, i + 1, w[1..]) {
      ByteAt(t, i);
      AtJoin(t, i, [w[0]], w[1..]);
    }
  }

  lemma {:induction false} MatchesAt(t: Text, i: nat, word: seq<byte>)
    requires 0 !in word && i <= |t|
    ensures Matches(t, i, word) <==> At(t, i, word)
    decreases |word|
  {
    if word == [] {
      EmptyAt(t, i);
    } else {
      AtCons(t, i, word);
      if i < |t| { MatchesAt(t, i + 1, word[1..]); }
    }
    hide At;
  }

  lemma InStep(t: Text, i: nat, w: seq<byte>, k: nat)
    requires k < |w|
    ensures At(t, i, w) ==> Peek(t, i + k) == w[k]
  {
    if At(t, i, w) { AtPeek(t, i, w, k); }
  }

  /** A literal name. */
  lemma LiteralRead(env: Env, t: Text, i: nat, ev: seq<Event>, first: byte, rest: seq<byte>, e: Event)
    requires 0 !in rest && rest != [] && first != 0 && At(t, i, [first] + rest)
    ensures Peek(t, i) == first && Literal(env, t, i, ev, rest, e) == Tell(env, i + 1 + |rest|, ev, e)
  {
    AtCons(t, i, [first] + rest);
    assert ([first] + rest)[1..] == rest;
    MatchesAt(t, i + 1, rest);
    hide At, Matches, Tell;
  }

  /** The letters in front of "Inf" and its own first. */
  lemma ShortBegins(t: Text, i: nat, n: nat)
    requires n <= 2 && At(t, i, Short(n))
    ensures At(t, i + n, INF) && Peek(t, i + n) == INF[0]
    ensures n > 0 ==> Peek(t, i) == NAN[0]
    ensures n > 1 ==> Peek(t, i + 1) == NAN[1]
  {
    AtSplit(t, i, NAN[..n], INF);
    hide At;
    AtPeek(t, i + n, INF, 0);
    if n > 0 { AtPeek(t, i, NAN[..n], 0); }
    if n > 1 { AtPeek(t, i, NAN[..n], 1); }
  }

  /** The reader is led to the same "Inf". */
  lemma WordBegins(t: Text, i: nat, n: nat)
    requires n <= 2 && At(t, i, Short(n))
    ensures !Matches(t, i, NAN) && Matches(t, i + n, INF)
    ensures i + n == if Peek(t, i) != NAN[0] then i else if Peek(t, i + 1) != NAN[1] then i + 1 else i + 2
  {
    assert i + n <= |t|;
    ShortBegins(t, i, n);
    hide At, Short, Matches;
    InStep(t, i, NAN, n);
    MatchesAt(t, i, NAN);
    MatchesAt(t, i + n, INF);
  }

  lemma ShortRead(t: Text, i: nat, n: nat)
    requires n <= 2 && At(t, i, Short(n)) && Peek(t, i + n + 3) != INITY[0]
    ensures WordEnd(t, i) == Some(i + n + 3)
  {
    WordBegins(t, i, n);
    hide At, Matches, Short;
  }

  lemma LongRead(t: Text, i: nat, n: nat)
    requires n <= 2 && At(t, i, Long(n))
    ensures WordEnd(t, i) == Some(i + n + 8)
  {
    assert i + n + 3 <= |t|;
    AtSplit(t, i, Short(n), INITY);
    hide At, Matches, Short;
    WordBegins(t, i, n);
    AtPeek(t, i + n + 3, INITY, 0);
    MatchesAt(t, i + n + 3, INITY);
  }

  lemma WordRead(t: Text, i: nat, w: seq<byte>)
    requires IsWord(w) && At(t, i, w) && (EndsInf(Word(w)) ==> Peek(t, i + |w|) != INITY[0])
    ensures WordEnd(t, i) == Some(i + |w|)
  {
    assert i <= |t|;
    hide At, Short, Long;
    if w == NAN {
      NanRead(t, i);
    } else if n :| 0 <= n <= 2 && w == Short(n) {
      hide WordEnd;
      ShortRead(t, i, n);
    } else {
      hide WordEnd;
      var n :| 0 <= n <= 2 && w == Long(n);
      LongRead(t, i, n);
    }
  }

  lemma NanRead(t: Text, i: nat)
    requires At(t, i, NAN)
    ensures WordEnd(t, i) == Some(i + 3)
  {
    MatchesAt(t, i, NAN);
    hide At, Matches;
  }

  lemma WordFound(t: Text, i: nat) returns (w: seq<byte>)
    requires i <= |t| && WordEnd(t, i).Some?
    ensures IsWord(w) && At(t, i, w) && WordEnd(t, i) == Some(i + |w|)
    ensures EndsInf(Word(w)) ==> Peek(t, i + |w|) != INITY[0]
  {
    hide At, Matches, Short, Long;
    NanIsDone();
    if Matches(t, i, NAN) {
      w := NAN;
      MatchesAt(t, i, NAN);
    } else {
      var n := if Peek(t, i) != NAN[0] then 0 else if Peek(t, i + 1) != NAN[1] then 1 else 2;
      PartOfNan(t, i, n);
      w := InfinityFound(t, i, n);
    }
  }

  lemma InfinityFound(t: Text, i: nat, n: nat) returns (w: seq<byte>)
    requires n <= 2 && i + n <= |t| && At(t, i, NAN[..n]) && Matches(t, i + n, INF)
    requires Peek(t, i + n + 3) == INITY[0] ==> Matches(t, i + n + 3, INITY)
    ensures IsWord(w) && At(t, i, w)
    ensures i + |w| == if Peek(t, i + n + 3) != INITY[0] then i + n + 3 else i + n + 8
    ensures EndsInf(Word(w)) ==> Peek(t, i + |w|) != INITY[0]
  {
    hide At, Matches;
    MatchesAt(t, i + n, INF);
    AtJoin(t, i, NAN[..n], INF);
    hide Short;
    w := Short(n);
    if Peek(t, i + n + 3) == INITY[0] {
      MatchesAt(t, i + n + 3, INITY);
      AtJoin(t, i, w, INITY);
      LongIsDone(n);
      w := Long(n);
    }
  }

  lemma PartOfNan(t: Text, i: nat, n: nat)
    requires i <= |t| && n <= 2 && (n > 0 ==> Peek(t, i) == NAN[0]) && (n > 1 ==> Peek(t, i + 1) == NAN[1])
    ensures i + n <= |t| && At(t, i, NAN[..n])
  {
  }

  /** Infinity is complete. */
  lemma LongIsDone(n: nat)
    requires n <= 2
    ensures !EndsInf(Word(Long(n)))
  {
    hide Short;
    assert forall m :: 0 <= m <= 2 ==> |Short(m)| < |Long(n)|;
  }

  /** So is NaN. */
  lemma NanIsDone()
    ensures !EndsInf(Word(NAN))
  {
    assert Short(0)[0] == INF[0];
    assert forall m :: 0 < m <= 2 ==> |Short(m)| > |NAN|;
  }

  // ----- fractions and exponents

  predicate ExponentEnds(e: Option<Exponent>, c: byte)
  {
    if e.None? then c != SMALL_E && c != CAPITAL_E else !IsDigit(c)
  }

  lemma ExponentRead(t: Text, i: nat, e: Exponent, scale: nat)
    requires ExponentFits(e, scale) && At(t, i, ExponentText(Some(e)))
    requires !IsDigit(Peek(t, i + |ExponentText(Some(e))|))
    ensures ExponentEnd(t, i, MAX_EXPONENT + scale) == FloatTo(i + |ExponentText(Some(e))|)
  {
    hide At, Decimal, DigitsEnd, ValueOfDigits, Between;
    AtPeek(t, i, ExponentText(Some(e)), 0);
    AtSplit(t, i, [e.letter], e.sign + e.digits);
    AtSplit(t, i + 1, e.sign, e.digits);
    AtPeek(t, i + 1, e.sign + e.digits, 0);
    DigitsRead(t, i + 1 + |e.sign|, e.digits);
  }

  lemma ExponentFound(t: Text, i: nat, scale: nat) returns (e: Option<Exponent>)
    requires i <= |t| && ExponentEnd(t, i, MAX_EXPONENT + scale).FloatTo?
    ensures e.Some? ==> ExponentFits(e.value, scale)
    ensures At(t, i, ExponentText(e)) && ExponentEnd(t, i, MAX_EXPONENT + scale) == FloatTo(i + |ExponentText(e)|)
    ensures ExponentEnds(e, Peek(t, i + |ExponentText(e)|))
  {
    hide Decimal, DigitsEnd, ValueOfDigits, At, Between;
    if Peek(t, i) != SMALL_E && Peek(t, i) != CAPITAL_E {
      EmptyAt(t, i);
      return None;
    }
    ByteAt(t, i);
    var sign := ExponentSign(t, i + 1);
    var j := i + 1 + |sign|;
    var end := DigitsEnd(t, j);
    DigitsAre(t, j, end);
    AtJoin(t, i + 1, sign, Between(t, j, end));
    AtJoin(t, i, [Peek(t, i)], sign + Between(t, j, end));
    e := Some(Exponent(Peek(t, i), sign, Between(t, j, end)));
  }

  lemma EmptyAt(t: Text, i: nat)
    requires i <= |t|
    ensures At(t, i, [])
  {
  }

  lemma ByteAt(t: Text, i: nat)
    requires Peek(t, i) != 0
    ensures At(t, i, [Peek(t, i)])
  {
  }

  lemma ExponentSign(t: Text, i: nat) returns (sign: seq<byte>)
    requires i <= |t|
    ensures sign in {[], [PLUS], [MINUS]} && At(t, i, sign)
    ensures i + |sign| == if Peek(t, i) in {PLUS, MINUS} then i + 1 else i
    ensures sign == [MINUS] <==> Peek(t, i) == MINUS
  {
    sign := if Peek(t, i) in {PLUS, MINUS} then [Peek(t, i)] else [];
  }

  predicate FloatEnds(f: Option<seq<byte>>, e: Option<Exponent>, c: byte)
  {
    ExponentEnds(e, c) && (e.None? ==> if f.Some? then !IsDigit(c) else c != DOT)
  }

  lemma FloatRead(t: Text, i: nat, f: Option<seq<byte>>, e: Option<Exponent>, value: nat, significant: nat)
    requires FloatFits(f, e, value, significant) && At(t, i, Back(f, e))
    requires FloatEnds(f, e, Peek(t, i + |Back(f, e)|))
    ensures FloatEnd(t, i, value, significant) == FloatTo(i + |Back(f, e)|)
  {
    hide At, Scale, ExponentEnd, ExponentFits, ExponentText, FloatEnd;
    var j := i + |FractionText(f)|;
    AtSplit(t, i, FractionText(f), ExponentText(e));
    NoText();
    if e.Some? {
      ExponentRead(t, j, e.value, ScaleBy(f, value, significant));
      ExponentStarts(t, j, e.value, ScaleBy(f, value, significant));
    } else {
      NoExponent(t, j, MAX_EXPONENT + ScaleBy(f, value, significant));
    }
    if f.Some? {
      FractionRead(t, i, f.value, value, significant);
    } else {
      NoFraction(t, i, value, significant);
    }
  }

  lemma ExponentStarts(t: Text, i: nat, e: Exponent, scale: nat)
    requires ExponentFits(e, scale) && At(t, i, ExponentText(Some(e)))
    ensures Peek(t, i) != DOT && !IsDigit(Peek(t, i))
  {
    AtPeek(t, i, ExponentText(Some(e)), 0);
  }

  lemma FractionRead(t: Text, i: nat, digits: seq<byte>, value: nat, significant: nat)
    requires digits != [] && AllDigits(digits) && At(t, i, FractionText(Some(digits)))
    requires !IsDigit(Peek(t, i + |FractionText(Some(digits))|))
    ensures FloatEnd(t, i, value, significant) ==
      ExponentEnd(t, i + |FractionText(Some(digits))|, MAX_EXPONENT + Scale(digits, value, significant))
  {
    hide At, DigitsEnd, Between, Scale, ExponentEnd;
    AtPeek(t, i, FractionText(Some(digits)), 0);
    AtSplit(t, i, [DOT], digits);
    DigitsRead(t, i + 1, digits);
  }

  lemma NoFraction(t: Text, i: nat, value: nat, significant: nat)
    requires Peek(t, i) != DOT
    ensures FloatEnd(t, i, value, significant) == ExponentEnd(t, i, MAX_EXPONENT)
  {
  }

  lemma NoExponent(t: Text, i: nat, limit: nat)
    requires ExponentEnds(None, Peek(t, i))
    ensures ExponentEnd(t, i, limit) == FloatTo(i)
  {
  }

  lemma FloatFound(t: Text, i: nat, value: nat, significant: nat)
    returns (f: Option<seq<byte>>, e: Option<Exponent>)
    requires i <= |t| && FloatEnd(t, i, value, significant).FloatTo?
    ensures FloatFits(f, e, value, significant) && At(t, i, Back(f, e))
    ensures FloatEnd(t, i, value, significant) == FloatTo(i + |Back(f, e)|)
    ensures FloatEnds(f, e, Peek(t, i + |Back(f, e)|))
  {
    hide ExponentEnd, Scale, ExponentFits, ExponentText;
    NoText();
    if Peek(t, i) != DOT {
      f := None;
      e := ExponentFound(t, i, 0);
      assert Back(f, e) == ExponentText(e);
    } else {
      var end := DigitsEnd(t, i + 1);
      DigitsAre(t, i + 1, end);
      hide At, Between, Decimal, ValueOfDigits, DigitsEnd;
      f := Some(Between(t, i + 1, end));
      e := ExponentFound(t, end, Scale(f.value, value, significant));
      DotAt(t, i);
      AtJoin(t, i, [DOT], f.value);
      AtJoin(t, i, FractionText(f), ExponentText(e));
    }
  }

  lemma NoText()
    ensures FractionText(None) == [] && ExponentText(None) == []
  {
  }

  lemma DotAt(t: Text, i: nat)
    requires Peek(t, i) == DOT
    ensures At(t, i, [DOT])
  {
  }

  // ----- which digits of a fraction count

  /** The significand after k digits of a fraction. */
  function SignificandAt(digits: seq<byte>, value: nat, k: nat): (v: nat)
    requires k <= |digits| && AllDigits(digits)
  {
    if k == 0 then value
    else
      assert IsDigit(digits[k - 1]);
      10 * SignificandAt(digits, value, k - 1) + (digits[k - 1] - ZERO)
  }

  /** How many significant digits there are by then; leading zeros do not count. */
  function SignificantAt(digits: seq<byte>, value: nat, significant: nat, k: nat): nat
    requires k <= |digits| && AllDigits(digits)
  {
    if k == 0 then significant
    else SignificantAt(digits, value, significant, k - 1) + if SignificandAt(digits, value, k) != 0 then 1 else 0
  }

  lemma {:induction false} AfterOne(digits: seq<byte>, value: nat, significant: nat, k: nat)
    requires 0 < k <= |digits| && AllDigits(digits)
    ensures AllDigits(digits[1..])
    ensures var more := SignificandAt(digits, value, 1);
      && SignificandAt(digits, value, k) == SignificandAt(digits[1..], more, k - 1)
      && SignificantAt(digits, value, significant, k) ==
         SignificantAt(digits[1..], more, SignificantAt(digits, value, significant, 1), k - 1)
  {
    if k > 1 {
      AfterOne(digits, value, significant, k - 1);
      assert digits[1..][k - 2] == digits[k - 1];
    }
  }

  /** If the significand reaches 2^53 with k digits, the digits that count are those and as many more as make 17
      significant ones; if it never does, all of them. */
  lemma {:induction false} ScaleIs(digits: seq<byte>, value: nat, significant: nat, k: nat)
    requires AllDigits(digits) && k <= |digits|
    requires forall j :: 0 <= j < k ==> SignificandAt(digits, value, j) < 0x20_0000_0000_0000
    requires k == |digits| || SignificandAt(digits, value, k) >= 0x20_0000_0000_0000
    ensures Scale(digits, value, significant) ==
      k + Min(|digits| - k, Max(0, 17 - SignificantAt(digits, value, significant, k)))
    decreases |digits|
  {
    hide Power10, IsDigit;
    if k > 0 {
      AfterOne(digits, value, significant, k);
      forall j | 0 <= j < k - 1
        ensures SignificandAt(digits[1..], SignificandAt(digits, value, 1), j) < 0x20_0000_0000_0000
      {
        AfterOne(digits, value, significant, j + 1);
      }
      ScaleIs(digits[1..], SignificandAt(digits, value, 1), SignificantAt(digits, value, significant, 1), k - 1);
      assert SignificandAt(digits, value, 0) == value;
    } else {
      ScaleFull(digits, value, significant);
    }
  }

  /** From 2^53 on digits count until there are 17. */
  lemma {:induction false} ScaleFull(digits: seq<byte>, value: nat, significant: nat)
    requires AllDigits(digits) && (digits == [] || value >= 0x20_0000_0000_0000)
    ensures Scale(digits, value, significant) == Min(|digits|, Max(0, 17 - significant))
    decreases |digits|
  {
    if digits != [] && significant < 17 { ScaleFull(digits[1..], value, significant + 1); }
  }

  // ----- the whole number

  /** What may stand behind the integer part or the word. */
  predicate HeadEnds(h: Head, c: byte)
  {
    if h.Whole? then IsDigit(c) ==> h.digits == [ZERO] else c == INITY[0] ==> !EndsInf(h)
  }

  /** Where the digits or the word of a number start. */
  function First(t: Text, i: nat): nat { if Peek(t, i) == MINUS then i + 1 else i }

  lemma FrontSplit(t: Text, i: nat, minus: bool, h: Head)
    requires HeadFits(h) && At(t, i, Front(minus, h))
    ensures minus == (Peek(t, i) == MINUS) && First(t, i) + |HeadText(h)| == i + |Front(minus, h)|
    ensures First(t, i) <= |t| && At(t, First(t, i), HeadText(h))
    ensures HeadText(h) != [] && Peek(t, First(t, i)) == HeadText(h)[0]
  {
    HeadStarts(h);
    hide At, HeadFits;
    AtSplit(t, i, SignText(minus), HeadText(h));
    AtPeek(t, i, Front(minus, h), 0);
    AtPeek(t, i + |SignText(minus)|, HeadText(h), 0);
    InText(t, i + |SignText(minus)|, HeadText(h));
  }

  lemma InText(t: Text, i: nat, w: seq<byte>)
    requires At(t, i, w)
    ensures i + |w| <= |t|
  {
  }

  lemma HeadStarts(h: Head)
    requires HeadFits(h)
    ensures HeadText(h) != [] && HeadText(h)[0] != MINUS
    ensures IsDigit(HeadText(h)[0]) || HeadText(h)[0] in {NAN[0], INF[0]}
  {
    if h.Word? { FirstLetter(h.word); } else { assert h.digits[0] in h.digits; }
  }

  lemma FrontJoin(t: Text, i: nat, h: Head)
    requires i <= |t| && At(t, First(t, i), HeadText(h))
    ensures var text := Front(Peek(t, i) == MINUS, h);
      At(t, i, text) && First(t, i) + |HeadText(h)| == i + |text|
  {
    SignAt(t, i);
    hide At;
    AtJoin(t, i, SignText(Peek(t, i) == MINUS), HeadText(h));
  }

  lemma SignAt(t: Text, i: nat)
    requires i <= |t|
    ensures At(t, i, SignText(Peek(t, i) == MINUS))
  {
  }

  lemma FirstLetter(w: seq<byte>)
    requires IsWord(w)
    ensures |w| >= 3 && w[0] in {NAN[0], INF[0]}
  {
  }

  /** The integer part or the word is read as this one. */
  predicate ReadAs(t: Text, i: nat, h: Head, next: nat)
    requires HeadFits(h)
  {
    match h
    case Whole(digits) => IntegerAt(t, i) == Some(Magnitude(Peek(t, i) == MINUS, ValueOfDigits(digits), next))
    case Word(_) => IntegerAt(t, i) == None && WordEnd(t, First(t, i)) == Some(next)
  }

  lemma WholeRead(t: Text, i: nat, digits: seq<byte>)
    requires HeadFits(Whole(digits)) && At(t, First(t, i), digits)
    requires HeadEnds(Whole(digits), Peek(t, First(t, i) + |digits|))
    ensures ReadAs(t, i, Whole(digits), First(t, i) + |digits|)
  {
    hide At, Decimal, DigitsEnd, Between, ValueOfDigits;
    var j := First(t, i);
    AtPeek(t, j, digits, 0);
    if digits[0] == ZERO {
      ZeroIs(digits);
    } else {
      DigitsRead(t, j, digits);
    }
  }

  lemma ZeroIs(digits: seq<byte>)
    requires |digits| == 1 && digits[0] == ZERO
    ensures ValueOfDigits(digits) == 0
  {
    assert ValueOfDigits(digits[..0]) == 0;
  }

  lemma NameRead(t: Text, i: nat, w: seq<byte>)
    requires HeadFits(Word(w)) && At(t, First(t, i), w) && HeadEnds(Word(w), Peek(t, First(t, i) + |w|))
    ensures ReadAs(t, i, Word(w), First(t, i) + |w|)
  {
    FirstLetter(w);
    AtPeek(t, First(t, i), w, 0);
    hide IsWord, At, EndsInf, WordEnd, Decimal, DigitsEnd;
    WordRead(t, First(t, i), w);
  }

  lemma FrontRead(t: Text, i: nat, minus: bool, h: Head)
    requires HeadFits(h) && At(t, i, Front(minus, h)) && HeadEnds(h, Peek(t, i + |Front(minus, h)|))
    ensures minus == (Peek(t, i) == MINUS) && ReadAs(t, i, h, i + |Front(minus, h)|)
    ensures First(t, i) + |HeadText(h)| == i + |Front(minus, h)|
  {
    hide At, Front, HeadFits, HeadEnds, ReadAs, First, HeadText;
    FrontSplit(t, i, minus, h);
    HeadRead(t, i, h);
  }

  lemma HeadRead(t: Text, i: nat, h: Head)
    requires HeadFits(h) && At(t, First(t, i), HeadText(h)) && HeadEnds(h, Peek(t, First(t, i) + |HeadText(h)|))
    ensures ReadAs(t, i, h, First(t, i) + |HeadText(h)|)
  {
    hide At, HeadFits, HeadEnds, ReadAs, First;
    match h
    case Whole(digits) => WholeRead(t, i, digits);
    case Word(w) => NameRead(t, i, w);
  }

  lemma WholeFound(t: Text, i: nat) returns (digits: seq<byte>)
    requires IntegerAt(t, i).Some?
    ensures HeadFits(Whole(digits)) && At(t, First(t, i), digits)
    ensures ReadAs(t, i, Whole(digits), First(t, i) + |digits|)
    ensures HeadEnds(Whole(digits), Peek(t, First(t, i) + |digits|))
  {
    var j := First(t, i);
    hide At, ValueOfDigits, Decimal;
    if Peek(t, j) == ZERO {
      OneDigit(t, j);
      digits := Between(t, j, j + 1);
      DigitsAre(t, j, j + 1);
    } else {
      digits := Between(t, j, DigitsEnd(t, j));
      DigitsAre(t, j, DigitsEnd(t, j));
    }
  }

  lemma FrontFound(env: Env, t: Text, i: nat, ev: seq<Event>) returns (h: Head)
    requires i <= |t| && NumberAt(env, t, i, ev).Ok?
    ensures HeadFits(h)
    ensures var text := Front(Peek(t, i) == MINUS, h);
      && At(t, i, text) && ReadAs(t, i, h, i + |text|) && HeadEnds(h, Peek(t, i + |text|))
      && First(t, i) + |HeadText(h)| == i + |text|
  {
    hide At, Front, IsWord, EndsInf, WordEnd, Fits64, FloatAt, ValueOfDigits;
    if IntegerAt(t, i).Some? {
      var digits := WholeFound(t, i);
      h := Whole(digits);
    } else {
      hide IntegerAt;
      var w := WordFound(t, First(t, i));
      h := Word(w);
    }
    FrontJoin(t, i, h);
  }

  /** ParseNumber behind an integer part or a word. */
  lemma NumberBehind(env: Env, t: Text, i: nat, ev: seq<Event>, h: Head, next: nat)
    requires HeadFits(h) && ReadAs(t, i, h, next) && next == First(t, i) + |HeadText(h)| <= |t|
    requires t[i..next] == Front(Peek(t, i) == MINUS, h)
    ensures i < next
    ensures var minus := Peek(t, i) == MINUS;
      NumberAt(env, t, i, ev) ==
      if !Allowed(GrammarOf(env), minus, h) then Err(if h.Word? then ValueInvalid else NumberTooBig, ev)
      else if h.Whole? && Fits64(MagnitudeOf(minus, h.digits)) && !GoesOn(Peek(t, next)) then
        Tell(env, next, ev, Number(Narrowest(MagnitudeOf(minus, h.digits))))
      else FloatAt(env, t, i, next, HeadValue(h), HeadCount(h), ev)
  {
    if h.Word? { FirstLetter(h.word); }
    if h.Whole? { SameClass(Peek(t, i) == MINUS, ValueOfDigits(h.digits), next); }
    hide Fits64, Narrowest, IntegerAt, WordEnd, FloatAt, Tell, IsWord, Front, ValueOfDigits;
  }

  /** Where a number stops does not matter to its class. */
  lemma SameClass(minus: bool, value: nat, next: nat)
    ensures Fits64(Magnitude(minus, value, next)) == Fits64(Magnitude(minus, value, 0))
    ensures Fits64(Magnitude(minus, value, 0)) ==>
      Narrowest(Magnitude(minus, value, next)) == Narrowest(Magnitude(minus, value, 0))
  {
  }

  lemma AtText(t: Text, i: nat, w: seq<byte>)
    requires At(t, i, w)
    ensures i + |w| <= |t| && t[i..i + |w|] == w
  {
  }

  /** What follows the integer part in the text of a numeral. */
  lemma HeadFollowed(t: Text, i: nat, n: Numeral)
    requires HeadFits(n.head) && FloatFits(n.fraction, n.exponent, HeadValue(n.head), HeadCount(n.head))
    requires At(t, i, Back(n.fraction, n.exponent))
    requires Ends(n, Peek(t, i + |Back(n.fraction, n.exponent)|))
    ensures HeadEnds(n.head, Peek(t, i))
    ensures FloatEnds(n.fraction, n.exponent, Peek(t, i + |Back(n.fraction, n.exponent)|))
    ensures GoesOn(Peek(t, i)) <==> n.fraction.Some? || n.exponent.Some?
  {
    if n.fraction.Some? || n.exponent.Some? {
      AtPeek(t, i, Back(n.fraction, n.exponent), 0);
    }
    hide At, EndsInf, IsWord, HeadValue, HeadCount, Scale;
  }

  /** Where a number may stop, by its last part. */
  lemma EndsIs(n: Numeral, c: byte)
    requires HeadEnds(n.head, c) || n.fraction.Some? || n.exponent.Some?
    requires FloatEnds(n.fraction, n.exponent, c)
    ensures Ends(n, c)
  {
  }

  lemma NumeralSplit(t: Text, i: nat, n: Numeral)
    requires At(t, i, NumeralText(n))
    ensures var next := i + |Front(n.minus, n.head)|;
      && At(t, i, Front(n.minus, n.head)) && At(t, next, Back(n.fraction, n.exponent))
      && next + |Back(n.fraction, n.exponent)| == i + |NumeralText(n)|
  {
    hide At, Front, Back;
    AtSplit(t, i, Front(n.minus, n.head), Back(n.fraction, n.exponent));
  }

  lemma NumeralJoin(t: Text, i: nat, n: Numeral)
    requires At(t, i, Front(n.minus, n.head)) && At(t, i + |Front(n.minus, n.head)|, Back(n.fraction, n.exponent))
    ensures At(t, i, NumeralText(n))
    ensures i + |Front(n.minus, n.head)| + |Back(n.fraction, n.exponent)| == i + |NumeralText(n)|
  {
    hide At, Front, Back;
    AtJoin(t, i, Front(n.minus, n.head), Back(n.fraction, n.exponent));
  }

  lemma NoBack()
    ensures Back(None, None) == []
  {
  }

  /** The reader takes any numeral that nothing continues, and reports it. */
  lemma NumeralRead(env: Env, t: Text, i: nat, ev: seq<Event>, n: Numeral)
    requires NumeralFits(GrammarOf(env), n) && At(t, i, NumeralText(n)) && Ends(n, Peek(t, i + |NumeralText(n)|))
    ensures NumberAt(env, t, i, ev) == Tell(env, i + |NumeralText(n)|, ev, NumeralEvent(n))
  {
    hide At, Front, Back, NumeralText, NumberAt, ReadAs, FloatEnd, FloatFits, HeadFits, Ends, HeadEnds, FloatEnds;
    hide GoesOn, Tell, First, Fits64, Allowed;
    var next := i + |Front(n.minus, n.head)|;
    NumeralSplit(t, i, n);
    HeadFollowed(t, next, n);
    FrontRead(t, i, n.minus, n.head);
    AtText(t, i, Front(n.minus, n.head));
    NumberBehind(env, t, i, ev, n.head, next);
    NoBack();
    if !IsInteger(n) {
      FloatRead(t, next, n.fraction, n.exponent, HeadValue(n.head), HeadCount(n.head));
      AtText(t, i, NumeralText(n));
    }
  }

  /** Whatever number the reader takes is a numeral, and reported as such. */
  lemma NumeralFound(env: Env, t: Text, i: nat, ev: seq<Event>) returns (n: Numeral)
    requires i <= |t| && NumberAt(env, t, i, ev).Ok?
    ensures NumeralFits(GrammarOf(env), n) && At(t, i, NumeralText(n)) && Ends(n, Peek(t, i + |NumeralText(n)|))
    ensures NumberAt(env, t, i, ev) == Ok(i + |NumeralText(n)|, ev + [NumeralEvent(n)])
  {
    hide At, Front, Back, NumeralText, NumberAt, ReadAs, FloatEnd, FloatFits, Ends, HeadEnds, FloatEnds;
    hide GoesOn, First, Fits64, Allowed, IsWord, HeadValue, Narrowest;
    var h := FrontFound(env, t, i, ev);
    var minus := Peek(t, i) == MINUS;
    var next := i + |Front(minus, h)|;
    AtText(t, i, Front(minus, h));
    NumberBehind(env, t, i, ev, h, next);
    if h.Whole? && Fits64(MagnitudeOf(minus, h.digits)) && !GoesOn(Peek(t, next)) {
      n := Numeral(minus, h, None, None);
      PlainFound(t, i, n);
    } else {
      n := BackFound(t, i, h);
      AtText(t, i, NumeralText(n));
    }
  }

  lemma PlainFound(t: Text, i: nat, n: Numeral)
    requires n.fraction == None && n.exponent == None && At(t, i, Front(n.minus, n.head)) && HeadFits(n.head)
    requires HeadEnds(n.head, Peek(t, i + |Front(n.minus, n.head)|))
    requires !GoesOn(Peek(t, i + |Front(n.minus, n.head)|))
    ensures At(t, i, NumeralText(n)) && |NumeralText(n)| == |Front(n.minus, n.head)|
    ensures Ends(n, Peek(t, i + |NumeralText(n)|))
    ensures FloatFits(n.fraction, n.exponent, HeadValue(n.head), HeadCount(n.head))
  {
    hide At, Front, Back, HeadFits, IsWord, HeadEnds, Ends, HeadValue, HeadCount;
    NoBack();
    assert NumeralText(n) == Front(n.minus, n.head);
    hide NumeralText;
    EndsIs(n, Peek(t, i + |NumeralText(n)|));
  }

  lemma BackFound(t: Text, i: nat, h: Head) returns (n: Numeral)
    requires HeadFits(h)
    requires var head := Front(Peek(t, i) == MINUS, h);
      && At(t, i, head) && FloatEnd(t, i + |head|, HeadValue(h), HeadCount(h)).FloatTo?
      && HeadEnds(h, Peek(t, i + |head|)) && i + |head| <= |t|
    ensures n.head == h && n.minus == (Peek(t, i) == MINUS)
    ensures FloatFits(n.fraction, n.exponent, HeadValue(h), HeadCount(h))
    ensures At(t, i, NumeralText(n)) && Ends(n, Peek(t, i + |NumeralText(n)|))
    ensures var next := i + |Front(n.minus, h)|;
      && FloatEnd(t, next, HeadValue(h), HeadCount(h)) == FloatTo(i + |NumeralText(n)|)
      && (GoesOn(Peek(t, next)) ==> n.fraction.Some? || n.exponent.Some?)
  {
    hide At, Front, NumeralText, FloatEnd, FloatFits, HeadFits, HeadEnds, FloatEnds, Back, Ends;
    var next := i + |Front(Peek(t, i) == MINUS, h)|;
    var f, e := FloatFound(t, next, HeadValue(h), HeadCount(h));
    n := Numeral(Peek(t, i) == MINUS, h, f, e);
    NumeralJoin(t, i, n);
    NoBack();
    EndsIs(n, Peek(t, i + |NumeralText(n)|));
    GoesOnBy(n, t, next);
  }

  lemma GoesOnBy(n: Numeral, t: Text, i: nat)
    requires FloatEnds(n.fraction, n.exponent, Peek(t, i + |Back(n.fraction, n.exponent)|))
    ensures GoesOn(Peek(t, i)) ==> n.fraction.Some? || n.exponent.Some?
  {
    if n.fraction == None && n.exponent == None { NoBack(); }
    hide Back;
  }

  // ----- what is not a number

  /** Where nothing of a number stands there is no value. */
  lemma NoNumber(env: Env, t: Text, i: nat, ev: seq<Event>)
    requires !IsDigit(Peek(t, First(t, i))) && (env.nanAndInf ==> WordEnd(t, First(t, i)) == None)
    ensures NumberAt(env, t, i, ev) == Err(ValueInvalid, ev)
  {
    hide WordEnd, DigitsEnd, Decimal;
  }

  /** The error of a number whose integer part or word is good, behind that part and a good fraction, if there is
      one. */
  function FloatError(t: Text, i: nat, fraction: bool, scale: nat): Option<Code>
  {
    var signed := Peek(t, i + 1) in {PLUS, MINUS};
    var j := if signed then i + 2 else i + 1;
    if !fraction && Peek(t, i) == DOT then (if IsDigit(Peek(t, i + 1)) then None else Some(NumberMissFraction))
    else if Peek(t, i) !in {SMALL_E, CAPITAL_E} then None
    else if !IsDigit(Peek(t, j)) then Some(NumberMissExponent)
    else if Peek(t, i + 1) != MINUS && Decimal(t, j, DigitsEnd(t, j)) > 308 + scale then Some(NumberTooBig)
    else None
  }

  /** Behind a good integer part or word that the flags and the size of a double allow, and any fraction, a number
      fails with that error; and where they do not allow it, it is no value or too big. */
  lemma NumberFails(env: Env, t: Text, i: nat, ev: seq<Event>, minus: bool, h: Head, f: Option<seq<byte>>)
    requires HeadFits(h) && At(t, i, Front(minus, h)) && HeadEnds(h, Peek(t, i + |Front(minus, h)|))
    requires f.Some? ==> f.value != [] && AllDigits(f.value)
    requires At(t, i + |Front(minus, h)|, FractionText(f))
    requires f.Some? ==> !IsDigit(Peek(t, i + |Front(minus, h)| + |FractionText(f)|))
    ensures var end := i + |Front(minus, h)| + |FractionText(f)|;
      var wrong := FloatError(t, end, f.Some?, ScaleBy(f, HeadValue(h), HeadCount(h)));
      && (!Allowed(GrammarOf(env), minus, h) ==>
            NumberAt(env, t, i, ev) == Err(if h.Word? then ValueInvalid else NumberTooBig, ev))
      && (Allowed(GrammarOf(env), minus, h) && wrong.Some? ==> NumberAt(env, t, i, ev) == Err(wrong.value, ev))
  {
    hide At, Front, FractionText, NumberAt, ReadAs, FloatEnd, HeadFits, HeadEnds, First, Fits64, Allowed, Scale,
      HeadValue, HeadCount, FloatError, GoesOn, Tell;
    var next := i + |Front(minus, h)|;
    FrontRead(t, i, minus, h);
    AtText(t, i, Front(minus, h));
    NumberBehind(env, t, i, ev, h, next);
    FloatFails(t, next, f, HeadValue(h), HeadCount(h));
  }

  lemma FloatFails(t: Text, next: nat, f: Option<seq<byte>>, value: nat, significant: nat)
    requires f.Some? ==> f.value != [] && AllDigits(f.value)
    requires At(t, next, FractionText(f))
    requires f.Some? ==> !IsDigit(Peek(t, next + |FractionText(f)|))
    ensures var wrong := FloatError(t, next + |FractionText(f)|, f.Some?, ScaleBy(f, value, significant));
      wrong.Some? ==> FloatEnd(t, next, value, significant) == BadFloat(wrong.value) && GoesOn(Peek(t, next))
  {
    hide At, Scale, DigitsEnd, Decimal, Between;
    if f.Some? {
      FractionRead(t, next, f.value, value, significant);
      AtPeek(t, next, FractionText(f), 0);
    } else if Peek(t, next) != DOT {
      NoFraction(t, next, value, significant);
    }
    DigitsStart(t, next + 1);
    DigitsStart(t, next + |FractionText(f)| + 1);
    DigitsStart(t, next + |FractionText(f)| + 2);
  }

  lemma DigitsStart(t: Text, i: nat)
    ensures DigitsEnd(t, i) == i <==> !IsDigit(Peek(t, i))
  {
  }

  predicate StartsNumber(c: byte) { c == MINUS || IsDigit(c) || c == NAN[0] || c == INF[0] }

  lemma NumeralStarts(g: Grammar, n: Numeral)
    requires NumeralFits(g, n)
    ensures NumeralText(n) != [] && StartsNumber(NumeralText(n)[0])
  {
    if n.head.Word? { FirstLetter(n.head.word); }
    hide IsWord, FractionText, ExponentText, ExponentFits, Scale;
    assert HeadText(n.head) != [];
    assert NumeralText(n)[0] == (Front(n.minus, n.head))[0];
  }

  /** A byte that continues no number. */
  predicate Stops(c: byte) { !IsDigit(c) && !GoesOn(c) && c != INITY[0] }

  lemma StopsAll(n: Numeral, c: byte)
    requires Stops(c)
    ensures Ends(n, c)
  {
  }

  const STRAY: seq<byte> := [0x4e, 0x49, 0x6e, 0x66]
  const NAN_POINT_NINE: seq<byte> := [0x4e, 0x61, 0x4e, 0x2e, 0x39]

  /** "NInf" is taken for an infinity, and a fraction behind a word is taken too. */
  lemma StrayLetters(env: Env, ev: seq<Event>)
    requires env.nanAndInf
    ensures NumberAt(env, STRAY, 0, ev) == Tell(env, 4, ev, Double(STRAY))
    ensures NumberAt(env, NAN_POINT_NINE, 0, ev) == Tell(env, 5, ev, Double(NAN_POINT_NINE))
  {
    hide NumberAt, Tell;
    StrayFits(GrammarOf(env));
    NumeralAlone(env, ev, Numeral(false, Word(Short(1)), None, None));
    NumeralAlone(env, ev, Numeral(false, Word(NAN), Some([NINE]), None));
  }

  lemma NumeralAlone(env: Env, ev: seq<Event>, n: Numeral)
    requires NumeralFits(GrammarOf(env), n) && Ends(n, 0)
    ensures NumberAt(env, NumeralText(n), 0, ev) == Tell(env, |NumeralText(n)|, ev, NumeralEvent(n))
  {
    hide NumberAt, Tell, NumeralFits, NumeralText, Ends, NumeralEvent;
    NumeralRead(env, NumeralText(n), 0, ev, n);
  }

  lemma StrayFits(g: Grammar)
    requires g.nanAndInf
    ensures var n := Numeral(false, Word(Short(1)), None, None);
      NumeralFits(g, n) && NumeralText(n) == STRAY && Ends(n, 0) && NumeralEvent(n) == Double(STRAY)
    ensures var n := Numeral(false, Word(NAN), Some([NINE]), None);
      NumeralFits(g, n) && NumeralText(n) == NAN_POINT_NINE && Ends(n, 0) && NumeralEvent(n) == Double(NAN_POINT_NINE)
  {
  }
}
