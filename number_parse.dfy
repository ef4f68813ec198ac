/**
 * Number helpers of utils/string.go: ParseFirstInt, ParseComputeInt,
 * ParseSeconds, ToPositive, IntReverse, IntToIP and GetDate.
 *
 * int64 and uint arithmetic wraps around exactly as in Go (see Decimal).
 */
module NumberParse {
  import opened ByteText
  import opened Decimal

  // --------------------------------------------------------- ParseFirstInt

  /** The first index at or after i that holds a digit, or |t|. */
  function DigitStart(t: Bytes, i: nat): (e: nat)
    requires i <= |t|
    ensures i <= e <= |t|
    ensures e == |t| || IsDigit(t[e])
    decreases |t| - i
  {
    if i == |t| || IsDigit(t[i]) then i else DigitStart(t, i + 1)
  }

  lemma {:induction false} NonDigitsSkipped(t: Bytes, i: nat)
    requires i <= |t|
    ensures forall k :: i <= k < DigitStart(t, i) ==> !IsDigit(t[k])
    decreases |t| - i
  {
    if i < |t| && !IsDigit(t[i]) {
      NonDigitsSkipped(t, i + 1);
    }
  }

  /** The first maximal run of digits of t; empty (at |t|) when t has no digit. */
  function FirstRun(t: Bytes): Bytes
  {
    var s := DigitStart(t, 0);
    t[s..DigitEnd(t, s)]
  }

  /** ParseFirstInt: the value of the first digit run, as an int64; 0 when there is none. */
  function FirstInt(t: Bytes): int
  {
    Int64(ValueOf(FirstRun(t)))
  }

  method ParseFirstInt(str: Bytes) returns (r: int)
    ensures r == FirstInt(str)
  {
    var result := 0;
    var i := 0;
    while i < |str| && !IsDigit(str[i])
      invariant i <= |str|
      invariant DigitStart(str, i) == DigitStart(str, 0)
      decreases |str| - i
    {
      i := i + 1;
    }
    ghost var s := i;
    while i < |str| && IsDigit(str[i])
      invariant s <= i <= |str|
      invariant DigitEnd(str, i) == DigitEnd(str, s)
      invariant result == Int64(ValueOf(str[s..i]))
      decreases |str| - i
    {
      ghost var d := str[s..i + 1];
      assert d[..|d| - 1] == str[s..i] && d[|d| - 1] == str[i];
      assert ValueOf(d) == ValueOf(str[s..i]) * 10 + DigitValue(str[i]);
      Int64Horner(ValueOf(str[s..i]), DigitValue(str[i]));
      result := Int64(result * 10 + DigitValue(str[i]));
      i := i + 1;
    }
    return result;
  }

  /** Without any digit the result is 0. */
  lemma NoDigitIsZero(t: Bytes)
    requires forall k :: 0 <= k < |t| ==> !IsDigit(t[k])
    ensures FirstInt(t) == 0
  {
    assert FirstRun(t) == [];
  }

  /** A run of at most eighteen digits is read exactly, without wrap-around. */
  lemma ShortRunIsExact(t: Bytes)
    requires |FirstRun(t)| <= 18
    ensures FirstInt(t) == ValueOf(FirstRun(t))
  {
    DigitRun(t, DigitStart(t, 0));
    EighteenDigitsFit(FirstRun(t));
  }

  /** The start of the first digit run, after a prefix without digits. */
  lemma {:induction false} StartAfter(t: Bytes, i: nat, p: nat)
    requires i <= p <= |t| && (forall k :: i <= k < p ==> !IsDigit(t[k]))
    requires p < |t| && IsDigit(t[p])
    ensures DigitStart(t, i) == p
    decreases p - i
  {
    if i < p {
      StartAfter(t, i + 1, p);
    }
  }

  /**
   * ParseFirstInt reads back what "%d" wrote: a number printed after any
   * text without digits, and followed by a non-digit or nothing, is found.
   */
  lemma FirstIntOfFormat(pre: Bytes, n: nat, post: Bytes)
    requires forall k :: 0 <= k < |pre| ==> !IsDigit(pre[k])
    requires post == [] || !IsDigit(post[0])
    requires n < TWO63
    ensures FirstInt(pre + FormatDecimal(n) + post) == n
  {
    var f := FormatDecimal(n);
    var t := pre + f + post;
    assert t[|pre|] == f[0];
    StartAfter(t, 0, |pre|);
    assert |pre + f| == |t| || t[|pre + f|] == post[0];
    DigitEndIs(t, |pre|, |pre + f|);
    assert t[|pre|..|pre + f|] == f;
    FormatRoundTrip(n);
  }

  // ------------------------------------------------------- ParseComputeInt

  /** The multiplier a size suffix stands for: g, m or k in either case, else 1. */
  function SizeFactor(b: Byte): nat
  {
    if b == 'g' || b == 'G' then 1024 * 1024 * 1024
    else if b == 'm' || b == 'M' then 1024 * 1024
    else if b == 'k' || b == 'K' then 1024
    else 1
  }

  /** Where the suffix is read: after the leading digits and at most one space. */
  function SuffixAt(t: Bytes): (k: nat)
    ensures k <= |t|
  {
    var e := DigitEnd(t, 0);
    if e < |t| && t[e] == ' ' then e + 1 else e
  }

  /** ParseComputeInt: the leading digits times the suffix factor, as an int64. */
  function ComputeInt(t: Bytes): int
  {
    var k := SuffixAt(t);
    Int64(ValueOf(t[..DigitEnd(t, 0)]) * (if k < |t| then SizeFactor(t[k]) else 1))
  }

  method ParseComputeInt(str: Bytes) returns (r: int)
    ensures r == ComputeInt(str)
  {
    var result := 0;
    var i := 0;
    while i < |str| && IsDigit(str[i])
      invariant i <= |str|
      invariant DigitEnd(str, i) == DigitEnd(str, 0)
      invariant result == Int64(ValueOf(str[..i]))
      decreases |str| - i
    {
      assert str[..i + 1][..i] == str[..i];
      Int64Horner(ValueOf(str[..i]), DigitValue(str[i]));
      result := Int64(result * 10 + DigitValue(str[i]));
      i := i + 1;
    }
    ghost var v := ValueOf(str[..i]);
    if i < |str| && str[i] == ' ' {
      i := i + 1;
    }
    if i < |str| {
      var c := str[i];
      if c == 'g' || c == 'G' {
        Int64Scale(v, 1024 * 1024 * 1024);
        result := Int64(result * (1024 * 1024 * 1024));
      } else if c == 'm' || c == 'M' {
        Int64Scale(v, 1024 * 1024);
        result := Int64(result * (1024 * 1024));
      } else if c == 'k' || c == 'K' {
        Int64Scale(v, 1024);
        result := Int64(result * 1024);
      }
    }
    return result;
  }

  /**
   * A printed number, an optional single space and a suffix byte give the
   * number times the suffix's factor (g: 2^30, m: 2^20, k: 2^10, else 1).
   */
  lemma ComputeIntOfFormat(n: nat, sep: Bytes, u: Byte)
    requires sep == [] || sep == " "
    requires !IsDigit(u) && u != ' '
    requires n * SizeFactor(u) < TWO63
    ensures ComputeInt(FormatDecimal(n) + sep + [u]) == n * SizeFactor(u)
  {
    var f := FormatDecimal(n);
    var t := f + sep + [u];
    assert t[|f|] == (sep + [u])[0];
    DigitEndIs(t, 0, |f|);
    assert t[..|f|] == f;
    FormatRoundTrip(n);
    assert t[|t| - 1] == u;
  }

  /** Only one space may separate the number from its suffix. */
  lemma TwoSpacesDropSuffix(t: Bytes)
    requires t == "2  k"
    ensures ComputeInt(t) == 2
  {
    DigitEndIs(t, 0, 1);
    assert t[..1] == "2";
    assert ValueOf(t[..1]) == 2 by {
      assert t[..1][..0] == [];
    }
  }

  // ---------------------------------------------------------- ParseSeconds

  /**
   * ParseSeconds: "m:s" gives m * 60 + s, as a time.Duration (an int64
   * count); without a colon, the first number of the text.
   */
  function ParseSeconds(str: Bytes): int
  {
    var ed := Index(str, ":");
    if ed < 0 then FirstInt(str) else Int64(FirstInt(str[..ed]) * 60 + FirstInt(str[ed..]))
  }

  lemma NoColonIsFirstInt(str: Bytes)
    requires ':' !in str
    ensures ParseSeconds(str) == FirstInt(str)
  {
    AbsentByteNoOccurrence(str, ":", 0);
  }

  lemma FirstIntOfDecimal(n: nat)
    requires n < TWO63
    ensures FirstInt(FormatDecimal(n)) == n
  {
    FirstIntOfFormat([], n, []);
    assert [] + FormatDecimal(n) + [] == FormatDecimal(n);
  }

  lemma FirstIntAfterColon(n: nat)
    requires n < TWO63
    ensures FirstInt(":" + FormatDecimal(n)) == n
  {
    FirstIntOfFormat(":", n, []);
    assert ":" + FormatDecimal(n) + [] == ":" + FormatDecimal(n);
  }

  /** The first colon of digits, a colon and more text is right after the digits. */
  lemma ColonAfterDigits(a: Bytes, rest: Bytes)
    requires AllDigits(a)
    ensures Index(a + ":" + rest, ":") == |a|
  {
    var str := a + ":" + rest;
    assert OccursAt(str, ":", |a|) by {
      assert str[|a|..|a| + 1] == ":";
    }
    forall j | 0 <= j < |a|
      ensures !OccursAt(str, ":", j)
    {
      assert str[j..j + 1][0] == a[j];
    }
  }

  /** Digits, a colon and more text split at that colon. */
  lemma SplitAtColon(a: Bytes, rest: Bytes)
    requires AllDigits(a)
    ensures ParseSeconds(a + ":" + rest) == Int64(FirstInt(a) * 60 + FirstInt(":" + rest))
  {
    var str := a + ":" + rest;
    ColonAfterDigits(a, rest);
    assert str[..|a|] == a;
    assert str[|a|..] == ":" + rest;
  }

  /** Two printed numbers around a colon read as minutes and seconds. */
  lemma MinutesAndSeconds(m: nat, s: nat)
    requires m * 60 + s < TWO63
    ensures ParseSeconds(FormatDecimal(m) + ":" + FormatDecimal(s)) == m * 60 + s
  {
    SplitAtColon(FormatDecimal(m), FormatDecimal(s));
    FirstIntOfDecimal(m);
    FirstIntAfterColon(s);
  }

  // ------------------------------------------------------------ ToPositive

  const FOUR_GIB: int := 0x1_0000_0000

  /**
   * ToPositive: 2^32 minus the first number of the text, printed with "%d".
   * Since the sign is not read, "-n" becomes the uint32 value of -n.
   */
  function ToPositive(str: Bytes): Bytes
  {
    FormatInt(Int64(FOUR_GIB - FirstInt(str)))
  }

  /** A printed negative 32-bit number becomes its unsigned 32-bit reading. */
  lemma NegativeBecomesUnsigned(n: int)
    requires 0 < n <= FOUR_GIB
    ensures ToPositive(FormatInt(-n)) == FormatDecimal((-n) % FOUR_GIB)
  {
    FirstIntOfFormat("-", n, []);
    assert FormatInt(-n) == "-" + FormatDecimal(n) + [];
    assert (-n) % FOUR_GIB == FOUR_GIB - n;
  }

  /** On [0, 2^32], applying ToPositive twice gives the printed number back. */
  lemma ToPositiveTwice(n: nat)
    requires n <= FOUR_GIB
    ensures ToPositive(ToPositive(FormatDecimal(n))) == FormatDecimal(n)
  {
    var m := FOUR_GIB - n;
    ToPositiveOfDecimal(n);
    assert ToPositive(FormatDecimal(n)) == FormatDecimal(m);
    ToPositiveOfDecimal(m);
    assert FOUR_GIB - m == n;
    assert ToPositive(FormatDecimal(m)) == FormatDecimal(n);
  }

  lemma ToPositiveOfDecimal(n: nat)
    requires n <= FOUR_GIB
    ensures ToPositive(FormatDecimal(n)) == FormatDecimal(FOUR_GIB - n)
  {
    FirstIntOfDecimal(n);
    var x := FOUR_GIB - n;
    assert Int64(x) == x;
    assert FormatInt(x) == FormatDecimal(x);
  }

  // ------------------------------------------------------------ IntReverse

  /** The decimal digits of v, least significant first; none for 0. */
  function Digits(v: nat): (ds: seq<nat>)
    ensures forall k :: 0 <= k < |ds| ==> ds[k] < 10
    ensures ds != [] ==> ds[|ds| - 1] != 0
  {
    if v == 0 then [] else [v % 10] + Digits(v / 10)
  }

  /** The number whose digits, least significant first, are ds. */
  function Val(ds: seq<nat>): nat
  {
    if ds == [] then 0 else ds[0] + 10 * Val(ds[1..])
  }

  function Rev(ds: seq<nat>): (r: seq<nat>)
    ensures |r| == |ds|
  {
    if ds == [] then [] else Rev(ds[1..]) + [ds[0]]
  }

  /** The loop of IntReverse, on unbounded numbers: peel the low digit of v, push it onto r. */
  function RevAcc(v: nat, r: nat): nat
  {
    if v == 0 then r else RevAcc(v / 10, r * 10 + v % 10)
  }

  /** IntReverse: the digits of v in reverse order, as a uint. */
  function IntReverse(v: nat): nat
  {
    UInt64(RevAcc(v, 0))
  }

  method IntReverseLoop(v0: nat) returns (r: nat)
    requires v0 < TWO64
    ensures r == IntReverse(v0)
  {
    var v := v0;
    r := 0;
    ghost var exact := 0;
    while v != 0
      invariant r == UInt64(exact)
      invariant RevAcc(v, exact) == RevAcc(v0, 0)
      decreases v
    {
      UInt64Horner(exact, v % 10);
      exact := exact * 10 + v % 10;
      r := UInt64(r * 10 + v % 10);
      v := v / 10;
    }
  }

  lemma {:induction false} DigitsVal(v: nat)
    ensures Val(Digits(v)) == v
    decreases v
  {
    if v > 0 {
      DigitsVal(v / 10);
      assert Digits(v)[1..] == Digits(v / 10);
    }
  }

  lemma {:induction false} ValAppend(a: seq<nat>, b: seq<nat>)
    ensures Val(a + b) == Val(a) + Pow10(|a|) * Val(b)
    decreases |a|
  {
    if a == [] {
      assert a + b == b;
    } else {
      assert (a + b)[1..] == a[1..] + b;
      ValAppend(a[1..], b);
      calc {
        Val(a + b);
        a[0] + 10 * (Val(a[1..]) + Pow10(|a| - 1) * Val(b));
        { assert 10 * (Pow10(|a| - 1) * Val(b)) == (10 * Pow10(|a| - 1)) * Val(b); }
        Val(a) + Pow10(|a|) * Val(b);
      }
    }
  }

  /** The loop's accumulator ends up in front of the reversed digits. */
  lemma {:induction false} RevAccIsReversedDigits(v: nat, r: nat)
    ensures RevAcc(v, r) == r * Pow10(|Digits(v)|) + Val(Rev(Digits(v)))
    decreases v
  {
    if v > 0 {
      var d, q := v % 10, v / 10;
      var dq := Digits(q);
      var p := Pow10(|dq|);
      RevAccIsReversedDigits(q, r * 10 + d);
      assert Digits(v) == [d] + dq;
      assert Rev(Digits(v)) == Rev(dq) + [d] by {
        assert Digits(v)[1..] == dq;
      }
      ValAppend(Rev(dq), [d]);
      assert Val([d]) == d by {
        assert [d][1..] == [];
      }
      assert Pow10(|Digits(v)|) == 10 * p;
      Distribute(r, d, p);
    }
  }

  lemma Distribute(r: int, d: int, p: int)
    ensures (r * 10 + d) * p == r * (10 * p) + p * d
  {
  }

  /** A digit sequence without a trailing zero is the digit sequence of its value. */
  lemma {:induction false} ValDigits(ds: seq<nat>)
    requires forall k :: 0 <= k < |ds| ==> ds[k] < 10
    requires ds != [] ==> ds[|ds| - 1] != 0
    ensures Digits(Val(ds)) == ds
    decreases |ds|
  {
    if ds != [] {
      var t := ds[1..];
      ValDigits(t);
      if t != [] {
        ValPositive(t);
      }
      assert Val(ds) % 10 == ds[0] && Val(ds) / 10 == Val(t);
    }
  }

  lemma {:induction false} ValPositive(ds: seq<nat>)
    requires ds != [] && ds[|ds| - 1] != 0
    ensures Val(ds) > 0
    decreases |ds|
  {
    if |ds| > 1 {
      ValPositive(ds[1..]);
    }
  }

  lemma {:induction false} RevRev(ds: seq<nat>)
    ensures Rev(Rev(ds)) == ds
    decreases |ds|
  {
    if ds != [] {
      RevAppend(Rev(ds[1..]), [ds[0]]);
      RevRev(ds[1..]);
      assert Rev([ds[0]]) == [ds[0]];
      assert ds == [ds[0]] + ds[1..];
    }
  }

  lemma {:induction false} RevAppend(a: seq<nat>, b: seq<nat>)
    ensures Rev(a + b) == Rev(b) + Rev(a)
    decreases |a|
  {
    if a == [] {
      assert a + b == b && Rev(b) + [] == Rev(b);
    } else {
      assert (a + b)[1..] == a[1..] + b;
      RevAppend(a[1..], b);
    }
  }

  lemma {:induction false} RevAt(ds: seq<nat>, k: nat)
    requires k < |ds|
    ensures Rev(ds)[k] == ds[|ds| - 1 - k]
    decreases |ds|
  {
    var t := ds[1..];
    assert Rev(ds) == Rev(t) + [ds[0]];
    if k < |t| {
      RevAt(t, k);
      assert Rev(ds)[k] == Rev(t)[k];
      assert t[|t| - 1 - k] == ds[|ds| - 1 - k];
    }
  }

  /** Zeros at the end of v vanish: 10 * v reverses to the same number as v. */
  lemma TrailingZerosVanish(v: nat)
    ensures IntReverse(10 * v) == IntReverse(v)
  {
    if v > 0 {
      assert (10 * v) / 10 == v && (10 * v) % 10 == 0;
    }
  }

  /** Reversing twice gives v back when v does not end in 0 and has at most 19 digits. */
  lemma ReverseTwice(v: nat)
    requires v % 10 != 0 && v < 10_000_000_000_000_000_000
    ensures IntReverse(IntReverse(v)) == v
  {
    var ds := Digits(v);
    RevAccIsReversedDigits(v, 0);
    forall k | 0 <= k < |Rev(ds)|
      ensures Rev(ds)[k] < 10
    {
      RevAt(ds, k);
    }
    RevAt(ds, |ds| - 1);
    ValDigits(Rev(ds));
    RevAccIsReversedDigits(Val(Rev(ds)), 0);
    RevRev(ds);
    DigitsVal(v);
    ReversedFits(v);
  }

  /** A number of at most 19 digits reverses to a number below 10^19, so no uint wrap occurs. */
  lemma ReversedFits(v: nat)
    requires v < 10_000_000_000_000_000_000
    ensures RevAcc(v, 0) < 10_000_000_000_000_000_000
    ensures IntReverse(v) == RevAcc(v, 0)
  {
    var ds := Digits(v);
    RevAccIsReversedDigits(v, 0);
    Pow10Is19();
    DigitsBelow(v, 19);
    forall k | 0 <= k < |Rev(ds)|
      ensures Rev(ds)[k] < 10
    {
      RevAt(ds, k);
    }
    ValBelow(Rev(ds));
    Pow10Mono(|ds|, 19);
    Pow10Is19();
  }

  lemma Pow10Is19()
    ensures Pow10(19) == 10_000_000_000_000_000_000
  {
    assert Pow10(1) == 10;
    assert Pow10(2) == 100;
    assert Pow10(3) == 1000;
    assert Pow10(4) == 10000;
    assert Pow10(5) == 100000;
    assert Pow10(6) == 1000000;
    assert Pow10(7) == 10000000;
    assert Pow10(8) == 100000000;
    assert Pow10(9) == 1000000000;
    assert Pow10(10) == 10000000000;
    assert Pow10(11) == 100000000000;
    assert Pow10(12) == 1000000000000;
    assert Pow10(13) == 10000000000000;
    assert Pow10(14) == 100000000000000;
    assert Pow10(15) == 1000000000000000;
    assert Pow10(16) == 10000000000000000;
    assert Pow10(17) == 100000000000000000;
    assert Pow10(18) == 1000000000000000000;
    assert Pow10(19) == 10000000000000000000;
  }

  lemma {:induction false} DigitsBelow(v: nat, n: nat)
    requires v < Pow10(n)
    ensures |Digits(v)| <= n
    decreases v
  {
    if v > 0 {
      DigitsBelow(v / 10, n - 1);
    }
  }

  lemma {:induction false} ValBelow(ds: seq<nat>)
    requires forall k :: 0 <= k < |ds| ==> ds[k] < 10
    ensures Val(ds) < Pow10(|ds|)
    decreases |ds|
  {
    if ds != [] {
      ValBelow(ds[1..]);
    }
  }

  // --------------------------------------------------------------- IntToIP

  /** Byte n of v, counting from the least significant: (v >> 8n) & 0xFF. */
  function Octet(v: nat, shift: nat): nat
    requires shift > 0
  {
    (v / shift) % 256
  }

  /** IntToIP: the four low bytes of v, most significant first, printed with "%d" and joined by dots. */
  function IntToIP(v: nat): Bytes
  {
    JoinDots([FormatDecimal(Octet(v, 0x100_0000)), FormatDecimal(Octet(v, 0x1_0000)),
              FormatDecimal(Octet(v, 0x100)), FormatDecimal(Octet(v, 1))])
  }

  /** The fields joined with a dot between each two. */
  function JoinDots(fs: seq<Bytes>): Bytes
    requires |fs| >= 1
  {
    if |fs| == 1 then fs[0] else fs[0] + "." + JoinDots(fs[1..])
  }

  /** Four bytes, most significant first, as a 32-bit number. */
  function Weigh(a: int, b: int, c: int, d: int): int
  {
    a * 0x100_0000 + b * 0x1_0000 + c * 0x100 + d
  }

  /** The fields of s between dots. */
  function SplitDots(s: Bytes): (fs: seq<Bytes>)
    ensures |fs| >= 1
    decreases |s|
  {
    var k := ByteFrom(s, '.', 0);
    if k == |s| then [s] else [s[..k]] + SplitDots(s[k + 1..])
  }

  /** A dotted quad read back: four digit fields below 256, weighed as bytes of a 32-bit number. */
  function ParseIP(s: Bytes): Option<int>
  {
    var fs := SplitDots(s);
    if |fs| == 4 && (forall n :: 0 <= n < 4 ==> |fs[n]| > 0 && AllDigits(fs[n]) && ValueOf(fs[n]) < 256) then
      Some(Weigh(ValueOf(fs[0]), ValueOf(fs[1]), ValueOf(fs[2]), ValueOf(fs[3])))
    else None
  }

  lemma SplitAfterField(a: Bytes, rest: Bytes)
    requires AllDigits(a)
    ensures SplitDots(a + "." + rest) == [a] + SplitDots(rest)
  {
    var s := a + "." + rest;
    ByteFromIs(s, '.', 0, |a|);
    var k := |a|;
    assert s[..k] == a;
    assert s[k + 1..] == rest;
  }

  lemma NoDotInDigits(a: Bytes)
    requires AllDigits(a)
    ensures SplitDots(a) == [a]
  {
    ByteFromIs(a, '.', 0, |a|);
  }

  /** Splitting at the dots undoes joining fields that hold no dot. */
  lemma {:induction false} SplitJoin(fs: seq<Bytes>)
    requires |fs| >= 1 && forall n :: 0 <= n < |fs| ==> AllDigits(fs[n])
    ensures SplitDots(JoinDots(fs)) == fs
    decreases |fs|
  {
    if |fs| == 1 {
      NoDotInDigits(fs[0]);
    } else {
      SplitAfterField(fs[0], JoinDots(fs[1..]));
      SplitJoin(fs[1..]);
      assert fs == [fs[0]] + fs[1..];
    }
  }

  /** Four digit fields below 256, joined by dots, read back as their weighted sum. */
  lemma ParseFourFields(fs: seq<Bytes>)
    requires |fs| == 4
    requires forall n :: 0 <= n < 4 ==> |fs[n]| > 0 && AllDigits(fs[n]) && ValueOf(fs[n]) < 256
    ensures ParseIP(JoinDots(fs)) == Some(Weigh(ValueOf(fs[0]), ValueOf(fs[1]), ValueOf(fs[2]), ValueOf(fs[3])))
  {
    SplitJoin(fs);
  }

  /** The dotted quad is the low 32 bits of v: reading it back gives v mod 2^32. */
  lemma IntToIPRoundTrip(v: nat)
    ensures ParseIP(IntToIP(v)) == Some(v % 0x1_0000_0000)
  {
    var a, b, c, d := Octet(v, 0x100_0000), Octet(v, 0x1_0000), Octet(v, 0x100), Octet(v, 1);
    FormatRoundTrip(a);
    FormatRoundTrip(b);
    FormatRoundTrip(c);
    FormatRoundTrip(d);
    var fs := [FormatDecimal(a), FormatDecimal(b), FormatDecimal(c), FormatDecimal(d)];
    ParseFourFields(fs);
    OctetsRecompose(v);
  }

  lemma OctetsRecompose(v: nat)
    ensures Weigh(Octet(v, 0x100_0000), Octet(v, 0x1_0000), Octet(v, 0x100), Octet(v, 1)) == v % 0x1_0000_0000
  {
    var x1 := v / 0x100;
    var x2 := x1 / 0x100;
    var x3 := x2 / 0x100;
    var x4 := x3 / 0x100;
    ShiftAgain(v, 0x100);
    ShiftAgain(v, 0x1_0000);
    ShiftAgain(v, 0x100_0000);
    assert v / 0x1_0000 == x2 && v / 0x100_0000 == x3 && v / 0x1_0000_0000 == x4;
    var a, b, c, d := x3 % 0x100, x2 % 0x100, x1 % 0x100, v % 0x100;
    assert v == x4 * 0x1_0000_0000 + (a * 0x100_0000 + b * 0x1_0000 + c * 0x100 + d);
    ModUnique32(v, x4, a * 0x100_0000 + b * 0x1_0000 + c * 0x100 + d);
  }

  /** Shifting right by 8 more bits is dividing by 256 once more. */
  lemma ShiftAgain(v: nat, c: nat)
    requires c == 0x100 || c == 0x1_0000 || c == 0x100_0000
    ensures v / (c * 0x100) == (v / c) / 0x100
  {
    var q, r := v / (c * 0x100), v % (c * 0x100);
    assert v == (q * 0x100 + r / c) * c + r % c;
    DivUnique(v, q * 0x100 + r / c, r % c, c);
    DivUnique(v / c, q, r / c, 0x100);
  }

  lemma DivUnique(y: int, q: int, r: int, c: nat)
    requires c == 0x100 || c == 0x1_0000 || c == 0x100_0000
    requires 0 <= r < c && y == q * c + r
    ensures y / c == q
  {
  }

  lemma ModUnique32(y: int, q: int, r: int)
    requires 0 <= r < 0x1_0000_0000 && y == q * 0x1_0000_0000 + r
    ensures y % 0x1_0000_0000 == r
  {
  }

  // --------------------------------------------------------------- GetDate

  /** GetDate: "YYYY-MM-DD..." becomes "YYYYMMDD"; anything else gives "". */
  function GetDate(str: Bytes): Bytes
  {
    if |str| >= 10 && str[4] == '-' && str[7] == '-' then str[..4] + str[5..7] + str[8..10] else []
  }

  /** Putting the dashes back into a non-empty result gives the first ten bytes of the input. */
  lemma GetDateRoundTrip(str: Bytes)
    ensures GetDate(str) == [] || |GetDate(str)| == 8
    ensures GetDate(str) != [] <==> |str| >= 10 && str[4] == '-' && str[7] == '-'
    ensures GetDate(str) != [] ==>
      var d := GetDate(str);
      d[..4] + "-" + d[4..6] + "-" + d[6..] == str[..10]
  {
    if |str| >= 10 && str[4] == '-' && str[7] == '-' {
      var d := GetDate(str);
      assert d[..4] == str[..4] && d[4..6] == str[5..7] && d[6..] == str[8..10];
      assert str[..10] == str[..4] + [str[4]] + str[5..7] + [str[7]] + str[8..10];
    }
  }
}
