/**
 * Byte strings and the small string primitives the Go code takes from its
 * standard library (strings.EqualFold, strings.ToUpper, strings.HasPrefix,
 * strings.Index, unicode.IsSpace/IsLetter/IsDigit applied to rune(byte)).
 *
 * A Go string is a sequence of bytes; here a byte is a character below 256,
 * so that literals such as "SHOW" stay readable.
 */
module ByteText {

  type Byte = c: char | c as int < 256
  type Bytes = seq<Byte>

  datatype Option<+T> = None | Some(value: T)

  /** '0'..'9'; unicode.IsDigit has no other digit below U+0100. */
  predicate IsDigit(b: Byte) { '0' <= b <= '9' }

  /** ' ' or '\t': the two blanks most scanners test for explicitly. */
  predicate IsBlank(b: Byte) { b == ' ' || b == '\t' }

  /** unicode.IsSpace(rune(b)): \t \n \v \f \r, space, U+0085 and U+00A0. */
  predicate IsSpace(b: Byte)
  {
    var n := b as int;
    (0x09 <= n <= 0x0D) || n == 0x20 || n == 0x85 || n == 0xA0
  }

  /** unicode.IsLetter(rune(b)) for the Latin-1 range. */
  predicate IsLetter(b: Byte)
  {
    var n := b as int;
    ('A' <= b <= 'Z') || ('a' <= b <= 'z') || n == 0xAA || n == 0xB5 || n == 0xBA
    || (0xC0 <= n <= 0xD6) || (0xD8 <= n <= 0xF6) || (0xF8 <= n <= 0xFF)
  }

  predicate IsUpperAscii(b: Byte) { 'A' <= b <= 'Z' }

  /** ASCII upper-casing of one byte. */
  function UpperByte(b: Byte): (u: Byte)
    ensures 'a' <= b <= 'z' ==> u as int == b as int - 32
    ensures !('a' <= b <= 'z') ==> u == b
  {
    if 'a' <= b <= 'z' then (b as int - 32) as char else b
  }

  /** strings.ToUpper restricted to ASCII letters. */
  function Upper(s: Bytes): (u: Bytes)
    ensures |u| == |s|
    ensures forall k :: 0 <= k < |s| ==> u[k] == UpperByte(s[k])
  {
    seq(|s|, k requires 0 <= k < |s| => UpperByte(s[k]))
  }

  /** Upper-casing works piece by piece. */
  lemma UpperAppend(a: Bytes, b: Bytes)
    ensures Upper(a + b) == Upper(a) + Upper(b)
  {
    assert forall k :: 0 <= k < |a + b| ==> Upper(a + b)[k] == (Upper(a) + Upper(b))[k];
  }

  lemma UpperAppend3(a: Bytes, b: Bytes, c: Bytes)
    ensures Upper(a + b + c) == Upper(a) + Upper(b) + Upper(c)
  {
    UpperAppend(a + b, c);
    UpperAppend(a, b);
  }

  /** strings.EqualFold with ASCII case folding. */
  predicate EqualFold(a: Bytes, b: Bytes)
  {
    |a| == |b| && forall k :: 0 <= k < |a| ==> UpperByte(a[k]) == UpperByte(b[k])
  }

  /** ASCII letters only (isEnglisthLetter). */
  predicate IsEnglishLetter(b: Byte) { ('a' <= b <= 'z') || ('A' <= b <= 'Z') }

  /**
   * An English letter is exactly an ASCII letter of the Latin-1 letter
   * class, and exactly a byte whose upper-cased form is an upper-case letter.
   */
  lemma EnglishLetterIsAsciiLetter(b: Byte)
    ensures IsEnglishLetter(b) <==> IsLetter(b) && b as int < 128
    ensures IsEnglishLetter(b) <==> IsUpperAscii(UpperByte(b))
  {
  }

  /** The end of the run of ' ' that starts at i. */
  function SpaceEnd(t: Bytes, i: nat): (e: nat)
    requires i <= |t|
    ensures i <= e <= |t|
    ensures e == |t| || t[e] != ' '
    decreases |t| - i
  {
    if i == |t| || t[i] != ' ' then i else SpaceEnd(t, i + 1)
  }

  /** Every byte SpaceEnd skips is ' '. */
  lemma {:induction false} SpaceRun(t: Bytes, i: nat)
    requires i <= |t|
    ensures forall k :: i <= k < SpaceEnd(t, i) ==> t[k] == ' '
    decreases |t| - i
  {
    if i < |t| && t[i] == ' ' {
      SpaceRun(t, i + 1);
    }
  }

  /** The loop most scanners open with: skip the bytes ' ' from i on. */
  method SkipSpaces(text: Bytes, i0: nat) returns (i: nat)
    requires i0 <= |text|
    ensures i == SpaceEnd(text, i0)
  {
    i := i0;
    while i < |text| && text[i] == ' '
      invariant i0 <= i <= |text|
      invariant SpaceEnd(text, i) == SpaceEnd(text, i0)
      decreases |text| - i
    {
      i := i + 1;
    }
  }

  /** Any e that ends a maximal run of ' ' starting at i is SpaceEnd. */
  lemma {:induction false} SpaceEndIs(t: Bytes, i: nat, e: nat)
    requires i <= e <= |t|
    requires forall k :: i <= k < e ==> t[k] == ' '
    requires e == |t| || t[e] != ' '
    ensures SpaceEnd(t, i) == e
    decreases e - i
  {
    if i < e {
      SpaceEndIs(t, i + 1, e);
    }
  }

  /** The end of the run of white space (IsSpace) that starts at i. */
  function WhiteEnd(t: Bytes, i: nat): (e: nat)
    requires i <= |t|
    ensures i <= e <= |t|
    ensures e == |t| || !IsSpace(t[e])
    decreases |t| - i
  {
    if i == |t| || !IsSpace(t[i]) then i else WhiteEnd(t, i + 1)
  }

  /** Every byte WhiteEnd skips is white space. */
  lemma {:induction false} WhiteRun(t: Bytes, i: nat)
    requires i <= |t|
    ensures forall k :: i <= k < WhiteEnd(t, i) ==> IsSpace(t[k])
    decreases |t| - i
  {
    if i < |t| && IsSpace(t[i]) {
      WhiteRun(t, i + 1);
    }
  }

  /** Any e that ends a maximal run of white space starting at i is WhiteEnd. */
  lemma {:induction false} WhiteEndIs(t: Bytes, i: nat, e: nat)
    requires i <= e <= |t| && (forall k :: i <= k < e ==> IsSpace(t[k]))
    requires e == |t| || !IsSpace(t[e])
    ensures WhiteEnd(t, i) == e
    decreases e - i
  {
    if i < e {
      WhiteEndIs(t, i + 1, e);
    }
  }

  /** The end of the run of ' ' and '\t' that starts at i. */
  function BlankEnd(t: Bytes, i: nat): (e: nat)
    requires i <= |t|
    ensures i <= e <= |t|
    ensures e == |t| || !IsBlank(t[e])
    decreases |t| - i
  {
    if i == |t| || !IsBlank(t[i]) then i else BlankEnd(t, i + 1)
  }

  lemma {:induction false} BlankEndIs(t: Bytes, i: nat, e: nat)
    requires i <= e <= |t| && (forall k :: i <= k < e ==> IsBlank(t[k]))
    requires e == |t| || !IsBlank(t[e])
    ensures BlankEnd(t, i) == e
    decreases e - i
  {
    if i < e {
      BlankEndIs(t, i + 1, e);
    }
  }

  /** The end of the run of digits that starts at i. */
  function DigitEnd(s: Bytes, i: nat): (e: nat)
    requires i <= |s|
    ensures i <= e <= |s|
    ensures e == |s| || !IsDigit(s[e])
    decreases |s| - i
  {
    if i == |s| || !IsDigit(s[i]) then i else DigitEnd(s, i + 1)
  }

  /** Every byte DigitEnd skips is a digit. */
  lemma {:induction false} DigitRun(s: Bytes, i: nat)
    requires i <= |s|
    ensures forall k :: i <= k < DigitEnd(s, i) ==> IsDigit(s[k])
    decreases |s| - i
  {
    if i < |s| && IsDigit(s[i]) {
      DigitRun(s, i + 1);
    }
  }

  lemma {:induction false} DigitEndIs(s: Bytes, i: nat, e: nat)
    requires i <= e <= |s| && (forall k :: i <= k < e ==> IsDigit(s[k]))
    requires e == |s| || !IsDigit(s[e])
    ensures DigitEnd(s, i) == e
    decreases e - i
  {
    if i < e {
      DigitEndIs(s, i + 1, e);
    }
  }

  /** The position of the first b at or after i, or the end of s. */
  function ByteFrom(s: Bytes, b: Byte, i: nat): (e: nat)
    requires i <= |s|
    ensures i <= e <= |s|
    ensures e == |s| || s[e] == b
    decreases |s| - i
  {
    if i == |s| || s[i] == b then i else ByteFrom(s, b, i + 1)
  }

  lemma {:induction false} ByteAbsent(s: Bytes, b: Byte, i: nat)
    requires i <= |s|
    ensures forall k :: i <= k < ByteFrom(s, b, i) ==> s[k] != b
    decreases |s| - i
  {
    if i < |s| && s[i] != b {
      ByteAbsent(s, b, i + 1);
    }
  }

  lemma {:induction false} ByteFromIs(s: Bytes, b: Byte, i: nat, e: nat)
    requires i <= e <= |s| && (forall k :: i <= k < e ==> s[k] != b)
    requires e == |s| || s[e] == b
    ensures ByteFrom(s, b, i) == e
    decreases e - i
  {
    if i < e {
      ByteFromIs(s, b, i + 1, e);
    }
  }

  /** strings.IndexByte: the position of the first b in s, or -1. */
  function IndexByte(s: Bytes, b: Byte): (r: int)
    ensures -1 <= r < |s|
    ensures r >= 0 ==> s[r] == b
  {
    var e := ByteFrom(s, b, 0);
    if e == |s| then -1 else e
  }

  /** IndexByte finds the first b, and -1 means there is none. */
  lemma IndexByteIsFirst(s: Bytes, b: Byte)
    ensures forall k :: 0 <= k < |s| && (IndexByte(s, b) == -1 || k < IndexByte(s, b)) ==> s[k] != b
  {
    ByteAbsent(s, b, 0);
  }

  predicate HasPrefix(s: Bytes, p: Bytes) { |p| <= |s| && s[..|p|] == p }

  /** The first |p| bytes of s equal p up to ASCII case, and s is longer than p. */
  predicate LongerWithPrefixFold(s: Bytes, p: Bytes)
  {
    |s| > |p| && EqualFold(p, s[..|p|])
  }

  /** p occurs in s starting at index k. */
  predicate OccursAt(s: Bytes, p: Bytes, k: nat) { k + |p| <= |s| && s[k..k + |p|] == p }

  /** Leftmost occurrence of p in s at or after k, or -1. */
  function IndexFrom(s: Bytes, p: Bytes, k: nat): (r: int)
    requires k <= |s|
    ensures r == -1 || (k <= r && OccursAt(s, p, r))
    ensures r >= 0 ==> forall j :: k <= j < r ==> !OccursAt(s, p, j)
    ensures r == -1 ==> forall j :: k <= j <= |s| ==> !OccursAt(s, p, j)
    decreases |s| - k
  {
    if OccursAt(s, p, k) then k
    else if k + |p| >= |s| then -1
    else IndexFrom(s, p, k + 1)
  }

  /** A pattern holding a byte that s lacks occurs nowhere in s. */
  lemma AbsentByteNoOccurrence(s: Bytes, p: Bytes, i: nat)
    requires i < |p| && p[i] !in s
    ensures forall j: nat :: !OccursAt(s, p, j)
  {
    forall j: nat
      ensures !OccursAt(s, p, j)
    {
      if j + |p| <= |s| {
        assert s[j..j + |p|][i] == s[j + i];
      }
    }
  }

  /** strings.Index: the leftmost occurrence of p in s, or -1. */
  function Index(s: Bytes, p: Bytes): (r: int)
    ensures r == -1 || (r >= 0 && OccursAt(s, p, r))
    ensures r >= 0 ==> forall j :: 0 <= j < r ==> !OccursAt(s, p, j)
    ensures r == -1 ==> forall j :: 0 <= j <= |s| ==> !OccursAt(s, p, j)
  {
    IndexFrom(s, p, 0)
  }

  predicate Contains(s: Bytes, p: Bytes) { Index(s, p) >= 0 }

  /**
   * The search both the statement classifier and the audit filter use:
   * find each keyword, in order, at or after the end of the previous match.
   * Returns the end of the last match, or -1 if some keyword is not found.
   */
  function SearchInOrder(s: Bytes, keys: seq<Bytes>, from: nat): (r: int)
    requires from <= |s|
    ensures r == -1 || from <= r <= |s|
    decreases |keys|
  {
    if keys == [] then from
    else
      var t := Index(s[from..], keys[0]);
      if t < 0 then -1 else SearchInOrder(s, keys[1..], from + t + |keys[0]|)
  }

  /** ps places each keyword of keys in s, in order, without overlap, at or after from. */
  ghost predicate PlacedInOrder(s: Bytes, keys: seq<Bytes>, from: nat, ps: seq<nat>)
  {
    && |ps| == |keys|
    && (forall n :: 0 <= n < |keys| ==> OccursAt(s, keys[n], ps[n]))
    && (|ps| > 0 ==> ps[0] >= from)
    && (forall n :: 0 < n < |ps| ==> ps[n] >= ps[n - 1] + |keys[n - 1]|)
  }

  /** A keyword that occurs nowhere cannot be placed. */
  lemma NoPlacementWithoutKey(s: Bytes, keys: seq<Bytes>, from: nat, n: nat)
    requires n < |keys| && forall j: nat :: !OccursAt(s, keys[n], j)
    ensures !exists ps :: PlacedInOrder(s, keys, from, ps)
  {
    forall ps: seq<nat>
      ensures !PlacedInOrder(s, keys, from, ps)
    {
      if |ps| == |keys| {
        assert !OccursAt(s, keys[n], ps[n]);
      }
    }
  }

  lemma OccursInSuffix(s: Bytes, p: Bytes, from: nat, j: nat)
    requires from <= j <= |s|
    ensures OccursAt(s, p, j) <==> OccursAt(s[from..], p, j - from)
  {
    if j + |p| <= |s| {
      assert s[from..][j - from..j - from + |p|] == s[j..j + |p|];
    }
  }

  /** A placement starting at or after from survives the leftmost match of its first keyword. */
  lemma PlacementAfterLeftmost(s: Bytes, keys: seq<Bytes>, from: nat, ps: seq<nat>)
    requires from <= |s| && keys != [] && PlacedInOrder(s, keys, from, ps)
    ensures 0 <= Index(s[from..], keys[0]) <= ps[0] - from
    ensures PlacedInOrder(s, keys[1..], from + Index(s[from..], keys[0]) + |keys[0]|, ps[1..])
  {
    OccursInSuffix(s, keys[0], from, ps[0]);
  }

  /** The leftmost match of the first keyword, followed by a placement of the rest, is a placement. */
  lemma PlacementFromLeftmost(s: Bytes, keys: seq<Bytes>, from: nat, qs: seq<nat>)
    requires from <= |s| && keys != [] && Index(s[from..], keys[0]) >= 0
    requires PlacedInOrder(s, keys[1..], from + Index(s[from..], keys[0]) + |keys[0]|, qs)
    ensures PlacedInOrder(s, keys, from, [from + Index(s[from..], keys[0])] + qs)
  {
    var t := Index(s[from..], keys[0]);
    OccursInSuffix(s, keys[0], from, from + t);
  }

  /** A placement makes the greedy search succeed. */
  lemma {:induction false} PlacedThenFound(s: Bytes, keys: seq<Bytes>, from: nat, ps: seq<nat>)
    requires from <= |s| && PlacedInOrder(s, keys, from, ps)
    ensures SearchInOrder(s, keys, from) >= 0
    decreases |keys|
  {
    if keys != [] {
      PlacementAfterLeftmost(s, keys, from, ps);
      var next := from + Index(s[from..], keys[0]) + |keys[0]|;
      PlacedThenFound(s, keys[1..], next, ps[1..]);
    }
  }

  /** A successful greedy search yields a placement. */
  lemma {:induction false} FoundThenPlaced(s: Bytes, keys: seq<Bytes>, from: nat) returns (ps: seq<nat>)
    requires from <= |s| && SearchInOrder(s, keys, from) >= 0
    ensures PlacedInOrder(s, keys, from, ps)
    decreases |keys|
  {
    if keys == [] {
      ps := [];
    } else {
      var next := from + Index(s[from..], keys[0]) + |keys[0]|;
      var qs := FoundThenPlaced(s, keys[1..], next);
      PlacementFromLeftmost(s, keys, from, qs);
      ps := [from + Index(s[from..], keys[0])] + qs;
    }
  }

  /**
   * Greedy leftmost search is complete: it succeeds exactly when the
   * keywords can be placed in order without overlap.
   */
  lemma SearchInOrderComplete(s: Bytes, keys: seq<Bytes>, from: nat)
    requires from <= |s|
    ensures SearchInOrder(s, keys, from) >= 0 <==> exists ps :: PlacedInOrder(s, keys, from, ps)
  {
    if SearchInOrder(s, keys, from) >= 0 {
      var ps := FoundThenPlaced(s, keys, from);
    }
    forall ps | PlacedInOrder(s, keys, from, ps)
      ensures SearchInOrder(s, keys, from) >= 0
    {
      PlacedThenFound(s, keys, from, ps);
    }
  }
}
