/**
  Thirty-two bit arithmetic as the C source does it: unsigned words wrap, and two
  sequence numbers (or two clock readings) are compared by the sign of their
  wrapped difference.
 */
module Wrap32 {

  const M := 0x1_0000_0000
  const HALF := 0x8000_0000

  type u32 = x: int | 0 <= x < 0x1_0000_0000
  type i32 = x: int | -0x8000_0000 <= x < 0x8000_0000
  type u16 = x: int | 0 <= x < 0x1_0000
  type byte = x: int | 0 <= x < 0x100

  /** Conversion of an integer to an unsigned 32-bit word. */
  function Wrap(x: int): (r: u32)
    ensures 0 <= x < M ==> r == x
  {
    x % M
  }

  /** Conversion to a signed 32-bit word, two's complement. */
  function ToI32(x: int): (r: i32)
    ensures -HALF <= x < HALF ==> r == x
    ensures Wrap(r) == Wrap(x)
  {
    var w := x % M;
    if w < HALF then w else w - M
  }

  /** _itimediff */
  function Diff(later: u32, earlier: u32): (d: i32)
    ensures Wrap(earlier + d) == later
  {
    ToI32(later - earlier)
  }

  /** Truncated division by a positive divisor: what C does to negative dividends. */
  function TruncDiv(a: int, b: int): (q: int)
    requires b > 0
    ensures a >= 0 ==> q * b <= a < q * b + b
    ensures a <= 0 ==> q * b - b < a <= q * b
  {
    if a >= 0 then a / b else -((-a) / b)
  }

  /** Division of unsigned words. */
  function UDiv(a: u32, b: u32): (q: u32)
    requires b > 0
    ensures q * b <= a < q * b + b
  {
    DivWithin(a, b);
    a / b
  }

  lemma MulMonotone(a: int, b: int, d: int)
    requires a <= b && d >= 0
    ensures a * d <= b * d
  {
  }

  lemma DivWithin(a: nat, b: int)
    requires b > 0
    ensures a / b * b <= a < a / b * b + b
    ensures 0 <= a / b <= a
  {
    var q := a / b;
    assert a == q * b + a % b;
    if q < 0 { MulMonotone(q, -1, b); }
    if q > a { MulMonotone(1, b, q); }
  }

  lemma DivUnique(x: int, d: int, q: int)
    requires d > 0 && q * d <= x < q * d + d
    ensures x / d == q
  {
    var r := x / d;
    assert x == r * d + x % d;
    if r > q {
      MulMonotone(q + 1, r, d);
    } else if r < q {
      MulMonotone(r + 1, q, d);
    }
  }

  function Min(a: int, b: int): int { if a <= b then a else b }
  function Max(a: int, b: int): int { if a >= b then a else b }

  /** Wrapping early changes nothing. */
  lemma WrapPlus(a: int, b: int)
    ensures Wrap(Wrap(a) + b) == Wrap(a + b)
  {
  }

  lemma WrapOfDifference(a: int, b: int)
    ensures Wrap(Wrap(a) - Wrap(b)) == Wrap(a - b)
  {
    var p, q := a / M, b / M;
    assert a == p * M + Wrap(a) && b == q * M + Wrap(b);
    assert a - b == (p - q) * M + (Wrap(a) - Wrap(b));
  }

  /** The signed difference of two wrapped numbers is exact if and only if the numbers
      themselves are less than 2^31 apart. */
  lemma DiffIsExact(a: int, b: int)
    ensures -HALF <= a - b < HALF <==> Diff(Wrap(a), Wrap(b)) == a - b
  {
    WrapOfDifference(a, b);
    assert -HALF <= Diff(Wrap(a), Wrap(b)) < HALF;
  }

  /** Two numbers with the same wrapped form that are less than 2^32 apart are equal. */
  lemma WrapInjective(a: int, b: int)
    requires Wrap(a) == Wrap(b)
    requires -M < a - b < M
    ensures a == b
  {
  }
}
