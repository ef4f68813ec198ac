/**
 * Decimal digits and Go's fixed-width integers: the value of a digit string,
 * the "%d" rendering of fmt.Sprintf, and two's-complement wrap-around of
 * int64 and uint arithmetic (uint is taken to be 64 bits wide).
 */
module Decimal {
  import opened ByteText

  const TWO63: int := 0x8000_0000_0000_0000
  const TWO64: int := 0x1_0000_0000_0000_0000

  /** An int64 result: x wrapped into [-2^63, 2^63). */
  function Int64(x: int): (r: int)
    ensures -TWO63 <= r < TWO63
    ensures -TWO63 <= x < TWO63 ==> r == x
  {
    (x + TWO63) % TWO64 - TWO63
  }

  /** A uint result: x wrapped into [0, 2^64). */
  function UInt64(x: int): (r: nat)
    ensures r < TWO64
    ensures 0 <= x < TWO64 ==> r == x
  {
    x % TWO64
  }

  /** Euclidean remainders agree on numbers that differ by a multiple of 2^64. */
  lemma ModShift(y: int, k: int)
    ensures (y + k * TWO64) % TWO64 == y % TWO64
  {
    var q, r := y / TWO64, y % TWO64;
    assert y + k * TWO64 == (q + k) * TWO64 + r;
    ModUnique(y + k * TWO64, q + k, r);
  }

  lemma ModUnique(y: int, q: int, r: int)
    requires 0 <= r < TWO64 && y == q * TWO64 + r
    ensures y % TWO64 == r && y / TWO64 == q
  {
    var q', r' := y / TWO64, y % TWO64;
    assert (q - q') * TWO64 == r' - r;
  }

  /** Wrapping after every step of a Horner sum gives the wrapped sum. */
  lemma Int64Horner(a: int, d: int)
    ensures Int64(Int64(a) * 10 + d) == Int64(a * 10 + d)
  {
    var k := (a + TWO63) / TWO64;
    assert Int64(a) == a - k * TWO64;
    assert Int64(a) * 10 + d + TWO63 == (a * 10 + d + TWO63) + (-10 * k) * TWO64;
    ModShift(a * 10 + d + TWO63, -10 * k);
  }

  lemma Int64Scale(a: int, m: int)
    ensures Int64(Int64(a) * m) == Int64(a * m)
  {
    var k := (a + TWO63) / TWO64;
    assert Int64(a) == a - k * TWO64;
    assert (a - k * TWO64) * m == a * m - (k * m) * TWO64;
    ModShift(a * m + TWO63, -(k * m));
  }

  lemma Int64Sum(a: int, b: int, c: int)
    ensures Int64(Int64(a) * c + b) == Int64(a * c + b)
  {
    var k := (a + TWO63) / TWO64;
    assert Int64(a) == a - k * TWO64;
    assert (a - k * TWO64) * c + b == a * c + b - (k * c) * TWO64;
    ModShift(a * c + b + TWO63, -(k * c));
  }

  lemma UInt64Horner(a: int, d: int)
    ensures UInt64(UInt64(a) * 10 + d) == UInt64(a * 10 + d)
  {
    var k := a / TWO64;
    assert UInt64(a) == a - k * TWO64;
    ModShift(a * 10 + d, -10 * k);
  }

  // ------------------------------------------------------------ digit strings

  function DigitValue(b: Byte): int { b as int - '0' as int }

  predicate AllDigits(t: Bytes) { forall k :: 0 <= k < |t| ==> IsDigit(t[k]) }

  /** The value of t read as decimal digits, most significant first. */
  function ValueOf(t: Bytes): int
  {
    if t == [] then 0 else ValueOf(t[..|t| - 1]) * 10 + DigitValue(t[|t| - 1])
  }

  function Pow10(n: nat): (p: nat)
    ensures p >= 1
  {
    if n == 0 then 1 else 10 * Pow10(n - 1)
  }

  /** A digit string of length n is worth less than 10^n. */
  lemma {:induction false} ValueBound(t: Bytes)
    requires AllDigits(t)
    ensures 0 <= ValueOf(t) < Pow10(|t|)
    decreases |t|
  {
    if t != [] {
      ValueBound(t[..|t| - 1]);
    }
  }

  /** Eighteen digits always fit in an int64. */
  lemma EighteenDigitsFit(t: Bytes)
    requires AllDigits(t) && |t| <= 18
    ensures 0 <= ValueOf(t) < TWO63
  {
    ValueBound(t);
    Pow10Mono(|t|, 18);
    assert Pow10(1) == 10;
    assert Pow10(2) == 100;
    assert Pow10(3) == 1000;
    assert Pow10(4) == 10000;
    assert Pow10(5) == 100000;
    assert Pow10(6) == 1000000;
    assert Pow10(7) == 10000000;
    assert Pow10(8) == 100000000;
    assert Pow10(9) == 1000000000;
    assert Pow10(10) == 10000000000;
    assert Pow10(11) == 100000000000;
    assert Pow10(12) == 1000000000000;
    assert Pow10(13) == 10000000000000;
    assert Pow10(14) == 100000000000000;
    assert Pow10(15) == 1000000000000000;
    assert Pow10(16) == 10000000000000000;
    assert Pow10(17) == 100000000000000000;
    assert Pow10(18) == 1000000000000000000;
  }

  lemma {:induction false} Pow10Mono(m: nat, n: nat)
    requires m <= n
    ensures Pow10(m) <= Pow10(n)
    decreases n
  {
    if m < n {
      Pow10Mono(m, n - 1);
    }
  }

  function DigitChar(d: nat): (c: Byte)
    requires d < 10
    ensures IsDigit(c) && DigitValue(c) == d
  {
    ('0' as int + d) as char
  }

  /** fmt's "%d" for a non-negative number: decimal digits without leading zeros. */
  function FormatDecimal(n: nat): (s: Bytes)
    ensures |s| >= 1 && AllDigits(s)
  {
    if n < 10 then [DigitChar(n)] else FormatDecimal(n / 10) + [DigitChar(n % 10)]
  }

  /** fmt's "%d" for a signed number. */
  function FormatInt(v: int): Bytes
  {
    if v < 0 then "-" + FormatDecimal(-v) else FormatDecimal(v)
  }

  /** Reading the digits back gives the number: "%d" and the digit value are inverse. */
  lemma {:induction false} FormatRoundTrip(n: nat)
    ensures ValueOf(FormatDecimal(n)) == n
    decreases n
  {
    if n >= 10 {
      FormatRoundTrip(n / 10);
      var s := FormatDecimal(n);
      assert s[..|s| - 1] == FormatDecimal(n / 10);
    }
  }

  /** "%d" writes no leading zero. */
  lemma FormatNoLeadingZero(n: nat)
    requires n > 0
    ensures FormatDecimal(n)[0] != '0'
  {
    if n >= 10 {
      FormatNoLeadingZero(n / 10);
    }
  }
}
