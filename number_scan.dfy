/**
 * The numeric literal scanner (toHexEnd and toNumberEnd in utils/fingerprint.go).
 *
 * A number is either 0x/0X followed by hex digits, or a decimal literal
 * read by a three-state machine: digits, then one '.', then digits, then an
 * exponent marker e/E with an optional '-', then digits. The first byte is
 * taken as part of the number without being inspected.
 */
module NumberScan {
  import opened ByteText

  predicate IsHexDigit(b: Byte)
  {
    ('0' <= b <= '9') || ('A' <= b <= 'F') || ('a' <= b <= 'f')
  }

  /** Length of the longest prefix of t made of hex digits. */
  function HexRun(t: Bytes): (n: nat)
    ensures n <= |t|
    ensures forall k :: 0 <= k < n ==> IsHexDigit(t[k])
    ensures n == |t| || !IsHexDigit(t[n])
  {
    if |t| == 0 || !IsHexDigit(t[0]) then 0 else 1 + HexRun(t[1..])
  }

  /** toHexEnd: the number of leading hex digits. */
  method ToHexEnd(text: Bytes) returns (r: nat)
    ensures r == HexRun(text)
  {
    var length := |text|;
    if length == 0 {
      return 0;
    }
    var i := 0;
    while IsHexDigit(text[i])
      invariant 0 <= i < length
      invariant forall k :: 0 <= k < i ==> IsHexDigit(text[k])
      decreases length - i
    {
      i := i + 1;
      if i >= length {
        break;
      }
    }
    return i;
  }

  predicate IsHexPrefix(t: Bytes)
  {
    |t| > 2 && t[0] == '0' && (t[1] == 'x' || t[1] == 'X')
  }

  /** End of the integer part: the digits after the first byte. */
  function IntPartEnd(t: Bytes): nat
    requires |t| >= 1
  {
    DigitEnd(t, 1)
  }

  /** The integer part is followed by a decimal point. */
  predicate HasFraction(t: Bytes)
    requires |t| >= 1
  {
    IntPartEnd(t) < |t| && t[IntPartEnd(t)] == '.'
  }

  function FractionEnd(t: Bytes): nat
    requires |t| >= 1 && HasFraction(t)
  {
    DigitEnd(t, IntPartEnd(t) + 1)
  }

  /** The fraction is followed by an exponent marker. */
  predicate HasExponent(t: Bytes)
    requires |t| >= 1 && HasFraction(t)
  {
    FractionEnd(t) < |t| && (t[FractionEnd(t)] == 'e' || t[FractionEnd(t)] == 'E')
  }

  /** Where the exponent digits start: after the marker and an optional '-'. */
  function ExponentStart(t: Bytes): nat
    requires |t| >= 1 && HasFraction(t) && HasExponent(t)
  {
    var m := FractionEnd(t);
    if m + 1 < |t| && t[m + 1] == '-' then m + 2 else m + 1
  }

  /** The three digit runs of a decimal literal hold only digits. */
  lemma DecimalRuns(t: Bytes)
    requires |t| >= 1
    ensures forall k :: 1 <= k < IntPartEnd(t) ==> IsDigit(t[k])
    ensures HasFraction(t) ==> forall k :: IntPartEnd(t) < k < FractionEnd(t) ==> IsDigit(t[k])
    ensures HasFraction(t) && HasExponent(t) ==>
      forall k :: ExponentStart(t) <= k < DigitEnd(t, ExponentStart(t)) ==> IsDigit(t[k])
  {
    DigitRun(t, 1);
    if HasFraction(t) {
      DigitRun(t, IntPartEnd(t) + 1);
      if HasExponent(t) {
        DigitRun(t, ExponentStart(t));
      }
    }
  }

  /**
   * toNumberEnd, defined by the shape of the literal rather than by the state
   * machine: a hex literal, or integer digits, an optional fraction and, only
   * after a fraction, an optional exponent.
   */
  function NumberEnd(t: Bytes): (r: nat)
    ensures |t| == 0 ==> r == 0
    ensures |t| >= 1 ==> 1 <= r <= |t|
    ensures IsHexPrefix(t) ==> r == 2 + HexRun(t[2..])
  {
    if IsHexPrefix(t) then 2 + HexRun(t[2..])
    else if |t| == 0 then 0
    else if !HasFraction(t) then IntPartEnd(t)
    else if !HasExponent(t) then FractionEnd(t)
    else DigitEnd(t, ExponentStart(t))
  }

  /** toNumberEnd as the source writes it: a cursor loop over a state variable. */
  method ToNumberEnd(text: Bytes) returns (r: nat)
    ensures r == NumberEnd(text)
  {
    var length := |text|;
    if length > 2 && text[0] == '0' && (text[1] == 'x' || text[1] == 'X') {
      var h := ToHexEnd(text[2..]);
      return 2 + h;
    }
    if length == 0 {
      return 0;
    }
    DecimalRuns(text);
    var state := 0;
    var i := 1;
    while i < length
      invariant 1 <= i <= length
      invariant 0 <= state <= 2
      invariant state == 0 ==> i <= IntPartEnd(text)
      invariant state >= 1 ==> HasFraction(text)
      invariant state == 1 ==> IntPartEnd(text) < i <= FractionEnd(text)
      invariant state == 2 ==> HasExponent(text) && ExponentStart(text) <= i <= DigitEnd(text, ExponentStart(text))
      decreases length - i
    {
      if state == 0 {
        if IsDigit(text[i]) {
        } else if text[i] == '.' {
          state := 1;
        } else {
          return i;
        }
      } else if state == 1 {
        if IsDigit(text[i]) {
        } else if text[i] == 'e' || text[i] == 'E' {
          state := 2;
          if i + 1 < length && text[i + 1] == '-' {
            i := i + 1;
          }
        } else {
          return i;
        }
      } else {
        if !IsDigit(text[i]) {
          return i;
        }
      }
      i := i + 1;
    }
    return length;
  }

  /** The bytes a decimal literal consumes after its first byte. */
  predicate IsNumberByte(b: Byte)
  {
    IsDigit(b) || b == '.' || b == 'e' || b == 'E' || b == '-'
  }

  /**
   * A decimal literal consumes only digits, '.', e/E and '-' after its first
   * byte, holds at most one '.' there, and an exponent marker only after it.
   */
  lemma DecimalShape(t: Bytes)
    requires |t| >= 1 && !IsHexPrefix(t)
    ensures forall k :: 1 <= k < NumberEnd(t) ==> IsNumberByte(t[k])
    ensures forall k, m :: 1 <= k < m < NumberEnd(t) && t[k] == '.' ==> t[m] != '.'
    ensures forall k :: 1 <= k < NumberEnd(t) && (t[k] == 'e' || t[k] == 'E') ==>
              exists d :: 1 <= d < k && t[d] == '.'
  {
    DecimalRuns(t);
    if HasFraction(t) {
      var p := IntPartEnd(t);
      if HasExponent(t) {
        var m := FractionEnd(t);
        assert forall k :: p < k < m ==> IsDigit(t[k]);
        assert forall k :: ExponentStart(t) <= k < NumberEnd(t) ==> IsDigit(t[k]);
        forall k | 1 <= k < NumberEnd(t) && (t[k] == 'e' || t[k] == 'E')
          ensures exists d :: 1 <= d < k && t[d] == '.'
        {
          assert k == m;
          assert t[p] == '.';
        }
      }
    }
  }

  /** A digit followed by a byte that cannot continue a number is a number of one byte. */
  lemma OneDigitNumber(t: Bytes)
    requires |t| >= 2 && IsDigit(t[0]) && !IsDigit(t[1]) && t[1] !in "xX."
    ensures NumberEnd(t) == 1
  {
    assert DigitEnd(t, 1) == 1;
  }
  /**
   * A run of decimal digits followed by the end of the text or by a byte
   * that is neither a digit, a '.' nor an x/X is a number of exactly that run.
   */
  lemma DigitsNumber(t: Bytes, n: nat)
    requires 1 <= n <= |t| && forall k :: 0 <= k < n ==> IsDigit(t[k])
    requires n == |t| || (!IsDigit(t[n]) && t[n] != '.' && t[n] != 'x' && t[n] != 'X')
    ensures NumberEnd(t) == n
  {
    assert !IsHexPrefix(t) by {
      if |t| > 2 && n == 1 {
        assert t[1] != 'x' && t[1] != 'X';
      } else if |t| > 2 {
        assert IsDigit(t[1]);
      }
    }
    DigitEndIs(t, 1, n);
  }
}
