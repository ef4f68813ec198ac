/**
 * The charset-aware quote scanner (toQuoteEnd in utils/fingerprint.go).
 *
 * Given text that starts at a quote character, it finds how many bytes the
 * quoted literal spans, including both delimiters. A backslash escapes the
 * next byte; under UTF-8 a three-byte sequence is swallowed whole; under GBK
 * a lead byte and a valid trail byte are swallowed as a pair; an unknown
 * charset name starts out reading GBK pairs and switches to UTF-8 for good
 * once it has seen a lead byte followed by two continuation bytes.
 */
module QuoteScan {
  import opened ByteText

  datatype Charset = Latin1 | Utf8 | Gbk | Other

  /** How the scanner reads a charset name: LATIN1, then UTF8, then GBK, case-insensitively. */
  function CharsetOf(name: Bytes): Charset
  {
    if EqualFold(name, "LATIN1") then Latin1
    else if EqualFold(name, "UTF8") then Utf8
    else if EqualFold(name, "GBK") then Gbk
    else Other
  }

  predicate IsQuoteChar(b: Byte) { b == '"' || b == '`' || b == '\'' }

  /** b & 0xE0 == 0xE0: the lead byte of a three-byte UTF-8 sequence (or longer). */
  predicate IsUtf8Lead3(b: Byte) { b as int >= 0xE0 }

  /** b & 0x80 == 0x80: a UTF-8 continuation (or lead) byte. */
  predicate IsUtf8Cont(b: Byte) { b as int >= 0x80 }

  predicate IsGbkLead(b: Byte) { b as int >= 0x81 }

  predicate IsGbkTrail(b: Byte) { 0x40 <= b as int <= 0xFE }

  /** The bit tests of the source agree with the comparisons used here. */
  lemma BitTestsAreComparisons(b: bv8)
    ensures (b & 0xE0 == 0xE0) <==> b >= 0xE0
    ensures (b & 0x80 == 0x80) <==> b >= 0x80
  {
  }

  /**
   * The scanner loop from position i; utf8 is the loop's isUtf8 flag.
   * The result is one past the closing delimiter, or |text| if there is none.
   */
  function Scan(text: Bytes, cs: Charset, utf8: bool, i: nat): (r: nat)
    requires 1 <= i <= |text|
    ensures i <= r <= |text|
    ensures i < |text| ==> i < r
    ensures r == |text| || text[r - 1] == text[0]
    decreases |text| - i
  {
    if i == |text| then |text|
    else if i + 2 < |text| && (cs == Utf8 || cs == Other) && IsUtf8Lead3(text[i])
            && ((IsUtf8Cont(text[i + 1]) && IsUtf8Cont(text[i + 2])) || utf8)
    then Scan(text, cs, true, i + 3)
    else if text[i] == '\\' || (cs != Latin1 && !utf8 && IsGbkLead(text[i])) then
      if i + 1 < |text| && (text[i] == '\\' || (IsGbkLead(text[i]) && IsGbkTrail(text[i + 1])))
      then Scan(text, cs, utf8, i + 2)
      else Scan(text, cs, utf8, i + 1)
    else if text[i] == text[0] then i + 1
    else Scan(text, cs, utf8, i + 1)
  }

  /**
   * toQuoteEnd: 1 when text is shorter than two bytes or does not start with
   * a quote character; otherwise a length in [2, |text|] that ends at a byte
   * equal to the opening delimiter unless the literal is unterminated.
   */
  function QuoteEnd(text: Bytes, cs: Charset): (r: nat)
    ensures |text| < 2 || !IsQuoteChar(text[0]) ==> r == 1
    ensures |text| >= 2 && IsQuoteChar(text[0]) ==> 2 <= r <= |text|
    ensures |text| >= 2 && IsQuoteChar(text[0]) && r < |text| ==> text[r - 1] == text[0]
    ensures 1 <= r && (|text| >= 1 ==> r <= |text|)
  {
    if |text| < 2 || !IsQuoteChar(text[0]) then 1
    else Scan(text, cs, cs == Utf8, 1)
  }

  /** toQuoteEnd as the source writes it: a cursor loop with the charset flags. */
  method ToQuoteEnd(text: Bytes, charset: Bytes) returns (r: nat)
    ensures r == QuoteEnd(text, CharsetOf(charset))
  {
    var length := |text|;
    if length < 2 || !IsQuoteChar(text[0]) {
      return 1;
    }
    ghost var cs := CharsetOf(charset);
    var isGbk := false;
    var isUtf8 := false;
    var isLatin1 := EqualFold(charset, "LATIN1");
    if !isLatin1 {
      isUtf8 := EqualFold(charset, "UTF8");
    }
    if !isLatin1 && !isUtf8 {
      isGbk := EqualFold(charset, "GBK");
    }
    var i := 1;
    while i < length
      invariant 1 <= i <= length
      invariant isLatin1 <==> cs == Latin1
      invariant isGbk <==> cs == Gbk
      invariant cs == Utf8 ==> isUtf8
      invariant isUtf8 ==> cs == Utf8 || cs == Other
      invariant Scan(text, cs, isUtf8, i) == QuoteEnd(text, cs)
      decreases length - i
    {
      if i + 2 < length && !isLatin1 && !isGbk && IsUtf8Lead3(text[i])
         && ((IsUtf8Cont(text[i + 1]) && IsUtf8Cont(text[i + 2])) || isUtf8)
      {
        i := i + 2;
        isUtf8 := true;
      } else if text[i] == '\\' || (!isLatin1 && !isUtf8 && IsGbkLead(text[i])) {
        if i + 1 < length {
          if text[i] == '\\' || (IsGbkLead(text[i]) && IsGbkTrail(text[i + 1])) {
            i := i + 1;
          }
        }
      } else if text[i] == text[0] {
        return i + 1;
      }
      i := i + 1;
    }
    return length;
  }

  // ---------------------------------------------------------------------
  // Latin-1: every byte is inspected; only backslashes escape.

  /** Number of backslashes immediately before position k (after the opening delimiter). */
  function BackslashRun(text: Bytes, k: nat): nat
    requires k <= |text|
  {
    if k <= 1 || text[k - 1] != '\\' then 0 else 1 + BackslashRun(text, k - 1)
  }

  /** The byte at k is escaped: an odd run of backslashes precedes it. */
  predicate Escaped(text: Bytes, k: nat)
    requires k <= |text|
  {
    BackslashRun(text, k) % 2 == 1
  }

  /** Position k holds the opening delimiter, unescaped. */
  predicate ClosesAt(text: Bytes, k: nat)
    requires 1 <= k < |text|
  {
    text[k] == text[0] && !Escaped(text, k)
  }

  lemma {:induction false} Latin1ScanFrom(text: Bytes, i: nat)
    requires |text| >= 2 && IsQuoteChar(text[0]) && 1 <= i <= |text|
    requires i < |text| ==> !Escaped(text, i)
    requires forall k :: 1 <= k < i ==> !ClosesAt(text, k)
    ensures var r := Scan(text, Latin1, false, i);
      (r == |text| && forall k :: 1 <= k < |text| ==> !ClosesAt(text, k))
      || (2 <= r && ClosesAt(text, r - 1) && forall k :: 1 <= k < r - 1 ==> !ClosesAt(text, k))
    decreases |text| - i
  {
    if i < |text| {
      if text[i] == '\\' {
        if i + 1 < |text| {
          assert BackslashRun(text, i + 1) == 1 + BackslashRun(text, i);
          assert !ClosesAt(text, i + 1);
          if i + 2 < |text| {
            assert text[i + 1] == '\\' ==> BackslashRun(text, i + 2) == 1 + BackslashRun(text, i + 1);
          }
          Latin1ScanFrom(text, i + 2);
        } else {
          Latin1ScanFrom(text, i + 1);
        }
      } else if text[i] != text[0] {
        Latin1ScanFrom(text, i + 1);
      }
    }
  }

  /**
   * Under LATIN1 the literal ends one past the first occurrence of the
   * opening delimiter that no backslash escapes, or at the end of the text.
   */
  lemma Latin1QuoteEnd(text: Bytes)
    requires |text| >= 2 && IsQuoteChar(text[0])
    ensures var r := QuoteEnd(text, Latin1);
      (r == |text| && forall k :: 1 <= k < |text| ==> !ClosesAt(text, k))
      || (ClosesAt(text, r - 1) && forall k :: 1 <= k < r - 1 ==> !ClosesAt(text, k))
  {
    Latin1ScanFrom(text, 1);
  }

  /** A byte that can stand in a literal delimited by q without affecting where it ends. */
  predicate SimpleBodyByte(b: Byte, q: Byte) { b as int < 0x80 && b != '\\' && b != q }

  lemma {:induction false} SimpleScan(text: Bytes, cs: Charset, utf8: bool, i: nat, e: nat)
    requires 1 <= i <= e < |text| && IsQuoteChar(text[0]) && text[e] == text[0]
    requires forall k :: i <= k < e ==> SimpleBodyByte(text[k], text[0])
    ensures Scan(text, cs, utf8, i) == e + 1
    decreases e - i
  {
    if i < e {
      assert SimpleBodyByte(text[i], text[0]);
      SimpleScan(text, cs, utf8, i + 1, e);
    }
  }

  /**
   * A literal whose body is ASCII without backslash or delimiter spans up to
   * its closing delimiter, under every charset and whatever follows it.
   */
  lemma SimpleLiteralEnd(text: Bytes, cs: Charset, e: nat)
    requires 1 <= e < |text| && IsQuoteChar(text[0]) && text[e] == text[0]
    requires forall k :: 1 <= k < e ==> SimpleBodyByte(text[k], text[0])
    ensures QuoteEnd(text, cs) == e + 1
  {
    SimpleScan(text, cs, cs == Utf8, 1, e);
  }

  // ---------------------------------------------------------------------
  // How the charsets relate.

  lemma {:induction false} AsciiScanIgnoresCharset(text: Bytes, cs: Charset, utf8: bool, i: nat)
    requires 1 <= i <= |text|
    requires forall k :: 0 <= k < |text| ==> text[k] as int < 0x80
    ensures Scan(text, cs, utf8, i) == Scan(text, Latin1, false, i)
    decreases |text| - i
  {
    if i < |text| {
      if text[i] == '\\' {
        if i + 1 < |text| {
          AsciiScanIgnoresCharset(text, cs, utf8, i + 2);
        } else {
          AsciiScanIgnoresCharset(text, cs, utf8, i + 1);
        }
      } else if text[i] != text[0] {
        AsciiScanIgnoresCharset(text, cs, utf8, i + 1);
      }
    }
  }

  /** On pure ASCII text every charset finds the same end as LATIN1. */
  lemma AsciiQuoteEndIgnoresCharset(text: Bytes, cs: Charset)
    requires forall k :: 0 <= k < |text| ==> text[k] as int < 0x80
    ensures QuoteEnd(text, cs) == QuoteEnd(text, Latin1)
  {
    if |text| >= 2 && IsQuoteChar(text[0]) {
      AsciiScanIgnoresCharset(text, cs, cs == Utf8, 1);
    }
  }

  /**
   * Once an unrecognised charset has seen UTF-8 evidence, it scans the rest
   * of the literal exactly as UTF8 does.
   */
  lemma {:induction false} OtherAfterUtf8IsUtf8(text: Bytes, i: nat)
    requires 1 <= i <= |text|
    ensures Scan(text, Other, true, i) == Scan(text, Utf8, true, i)
    decreases |text| - i
  {
    if i < |text| {
      if i + 2 < |text| && IsUtf8Lead3(text[i]) {
        OtherAfterUtf8IsUtf8(text, i + 3);
      } else if text[i] == '\\' {
        if i + 1 < |text| {
          OtherAfterUtf8IsUtf8(text, i + 2);
        } else {
          OtherAfterUtf8IsUtf8(text, i + 1);
        }
      } else if text[i] != text[0] {
        OtherAfterUtf8IsUtf8(text, i + 1);
      }
    }
  }

  /** A UTF-8 lead byte followed by two continuation bytes at k. */
  predicate Utf8TripleAt(text: Bytes, k: nat)
    requires k + 2 < |text|
  {
    IsUtf8Lead3(text[k]) && IsUtf8Cont(text[k + 1]) && IsUtf8Cont(text[k + 2])
  }

  /**
   * Until it sees a UTF-8 triple, an unrecognised charset scans exactly as
   * GBK does.
   */
  lemma {:induction false} OtherWithoutUtf8IsGbk(text: Bytes, i: nat)
    requires 1 <= i <= |text|
    requires forall k :: i <= k && k + 2 < |text| ==> !Utf8TripleAt(text, k)
    ensures Scan(text, Other, false, i) == Scan(text, Gbk, false, i)
    decreases |text| - i
  {
    if i < |text| {
      if i + 2 < |text| {
        assert !Utf8TripleAt(text, i);
      }
      if text[i] == '\\' || IsGbkLead(text[i]) {
        if i + 1 < |text| && (text[i] == '\\' || (IsGbkLead(text[i]) && IsGbkTrail(text[i + 1]))) {
          OtherWithoutUtf8IsGbk(text, i + 2);
        } else {
          OtherWithoutUtf8IsGbk(text, i + 1);
        }
      } else if text[i] != text[0] {
        OtherWithoutUtf8IsGbk(text, i + 1);
      }
    }
  }

  /** Under GBK a lead byte and a valid trail byte are consumed together. */
  lemma GbkPairIsOneCharacter(text: Bytes, i: nat)
    requires 1 <= i && i + 1 < |text|
    requires IsGbkLead(text[i]) && IsGbkTrail(text[i + 1])
    ensures Scan(text, Gbk, false, i) == Scan(text, Gbk, false, i + 2)
  {
  }

  /** Under UTF8 a lead byte swallows the next two bytes, whatever they are. */
  lemma Utf8LeadSwallowsTwo(text: Bytes, i: nat)
    requires 1 <= i && i + 2 < |text| && IsUtf8Lead3(text[i])
    ensures Scan(text, Utf8, true, i) == Scan(text, Utf8, true, i + 3)
  {
  }

  /**
   * A backslash that is the trail byte of a GBK pair escapes nothing:
   * ' 0xBF \ ' ' closes at the first quote under GBK and at the second
   * under LATIN1.
   */
  lemma GbkTrailBackslashDoesNotEscape()
    ensures QuoteEnd(['\'', 0xBF as char, '\\', '\'', '\''], Gbk) == 4
    ensures QuoteEnd(['\'', 0xBF as char, '\\', '\'', '\''], Latin1) == 5
  {
    var t: Bytes := ['\'', 0xBF as char, '\\', '\'', '\''];
    assert IsGbkLead(t[1]) && IsGbkTrail(t[2]);
    assert Scan(t, Gbk, false, 1) == Scan(t, Gbk, false, 3) == 4;
    assert Scan(t, Latin1, false, 1) == Scan(t, Latin1, false, 2) == Scan(t, Latin1, false, 4) == 5;
  }

  /** A backtick in trail position does not close a backtick literal under GBK. */
  lemma GbkTrailBacktickDoesNotClose()
    ensures QuoteEnd(['`', 0x81 as char, '`', '`'], Gbk) == 4
    ensures QuoteEnd(['`', 0x81 as char, '`', '`'], Latin1) == 3
  {
    var t: Bytes := ['`', 0x81 as char, '`', '`'];
    assert IsGbkLead(t[1]) && IsGbkTrail(t[2]);
    assert Scan(t, Gbk, false, 1) == Scan(t, Gbk, false, 3) == 4;
    assert Scan(t, Latin1, false, 1) == Scan(t, Latin1, false, 2) == 3;
  }

  /** Under UTF8 a quote inside a three-byte sequence does not close the literal. */
  lemma Utf8SequenceHidesQuote()
    ensures QuoteEnd(['\'', 0xE5 as char, '\'', '\'', '\''], Utf8) == 5
    ensures QuoteEnd(['\'', 0xE5 as char, '\'', '\'', '\''], Latin1) == 3
  {
    var t: Bytes := ['\'', 0xE5 as char, '\'', '\'', '\''];
    assert IsUtf8Lead3(t[1]);
    assert Scan(t, Utf8, true, 1) == Scan(t, Utf8, true, 4) == 5;
    assert Scan(t, Latin1, false, 1) == Scan(t, Latin1, false, 2) == 3;
  }
}
