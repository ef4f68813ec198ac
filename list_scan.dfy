/**
 * The scanners the fingerprint pass uses for comments and for the lists that
 * follow IN and VALUES (toCommentEnd, toValueEnd, toArgListEnd and
 * toValueListEnd in utils/fingerprint.go).
 *
 * Every scanner has a specification function, written as a recursion over the
 * cursor, and a method with the source's loops that is proved to compute it.
 */
module ListScan {
  import opened ByteText
  import opened QuoteScan
  import opened NumberScan

  /** The two delimiters the list scanners treat as string literals (not the backtick). */
  predicate IsLiteralQuote(b: Byte) { b == '"' || b == '\'' }

  /** A byte a fingerprint may hold: no double quote, no tab, and no digit other than '1'. */
  predicate Normal(b: Byte) { b != '"' && b != '\t' && (IsDigit(b) ==> b == '1') }

  /** Every byte of b is Normal and not blank, as in the copy of a first group. */
  predicate Compact(b: Bytes)
    decreases |b|
  {
    |b| == 0 || (!IsBlank(b[0]) && Normal(b[0]) && Compact(b[1..]))
  }

  lemma {:induction false} CompactAppend(a: Bytes, b: Bytes)
    requires Compact(a) && Compact(b)
    ensures Compact(a + b)
    decreases |a|
  {
    if |a| > 0 {
      assert (a + b)[1..] == a[1..] + b;
      CompactAppend(a[1..], b);
    } else {
      assert a + b == b;
    }
  }

  lemma CompactAll(b: Bytes)
    requires Compact(b)
    ensures forall k :: 0 <= k < |b| ==> !IsBlank(b[k]) && Normal(b[k])
  {
    forall k | 0 <= k < |b|
      ensures !IsBlank(b[k]) && Normal(b[k])
    {
      CompactAt(b, k);
    }
  }

  lemma {:induction false} CompactAt(b: Bytes, k: nat)
    requires Compact(b) && k < |b|
    ensures !IsBlank(b[k]) && Normal(b[k])
    decreases k
  {
    if k > 0 {
      CompactAt(b[1..], k - 1);
    }
  }

  // ---------------------------------------------------------------- comments

  /** A comment close ends at k: a star at k - 1 and a slash at k. */
  predicate CloseAt(t: Bytes, k: nat)
    requires 1 <= k < |t|
  {
    t[k - 1] == '*' && t[k] == '/'
  }

  /** One past the first comment close whose slash is at or after k, or |t|. */
  function CommentFrom(t: Bytes, k: nat): (r: nat)
    requires 2 <= k <= |t|
    ensures k <= r <= |t|
    ensures k < |t| ==> k < r
    ensures r == |t| || CloseAt(t, r - 1)
    ensures forall m :: k <= m < r - 1 ==> !CloseAt(t, m)
    decreases |t| - k
  {
    if k == |t| then |t|
    else if CloseAt(t, k) then k + 1
    else CommentFrom(t, k + 1)
  }

  /**
   * toCommentEnd: the length of the comment that starts the text. The search
   * for the closing pair starts with the star at index 1, so the opening star
   * can also be the closing one.
   */
  function CommentEnd(t: Bytes): (r: nat)
    ensures |t| <= 4 ==> r == |t|
    ensures |t| > 4 ==> 3 <= r <= |t|
    ensures |t| > 4 && r < |t| ==> t[r - 2] == '*' && t[r - 1] == '/'
    ensures |t| > 4 ==> forall m :: 2 <= m < r - 1 ==> !CloseAt(t, m)
  {
    if |t| <= 4 then |t| else CommentFrom(t, 2)
  }

  method ToCommentEnd(text: Bytes) returns (r: nat)
    ensures r == CommentEnd(text)
  {
    var length := |text|;
    if length <= 4 {
      return length;
    }
    var i := 2;
    while i < length
      invariant 2 <= i <= length
      invariant CommentFrom(text, i) == CommentFrom(text, 2)
      decreases length - i
    {
      if text[i - 1] == '*' && text[i] == '/' {
        return i + 1;
      }
      i := i + 1;
    }
    return length;
  }

  /** An opening slash-star followed by a slash is a complete comment of three bytes. */
  lemma SlashStarSlashIsAComment()
    ensures CommentEnd("/*/ SELECT") == 3
  {
    assert CloseAt("/*/ SELECT", 2);
  }

  // ------------------------------------------------------------- one value

  /** The first ')' at or after i that is not inside a string literal, or |t|. */
  function CloseParenFrom(t: Bytes, cs: Charset, i: nat): (r: nat)
    requires i <= |t|
    ensures i <= r <= |t|
    ensures r == |t| || t[r] == ')'
    decreases |t| - i
  {
    if i == |t| || t[i] == ')' then i
    else if IsLiteralQuote(t[i]) then CloseParenFrom(t, cs, i + QuoteEnd(t[i..], cs))
    else CloseParenFrom(t, cs, i + 1)
  }

  /**
   * Over bytes that are neither ')' nor a string delimiter the search runs
   * on: it stops at the first ')' (or the end) after them.
   */
  lemma {:induction false} CloseParenIs(t: Bytes, cs: Charset, i: nat, e: nat)
    requires i <= e <= |t| && forall k :: i <= k < e ==> t[k] != ')' && !IsLiteralQuote(t[k])
    requires e == |t| || t[e] == ')'
    ensures CloseParenFrom(t, cs, i) == e
    decreases e - i
  {
    if i < e {
      CloseParenIs(t, cs, i + 1, e);
    }
  }

  /**
   * toValueEnd: skip spaces; if a '(' follows, run to just past the first ')'
   * outside string literals (or to the end), else stop at the first non-space.
   */
  function ValueEnd(t: Bytes, cs: Charset): (r: nat)
    ensures r <= |t|
    ensures var s := SpaceEnd(t, 0);
      s <= r && (s < |t| && t[s] != '(' ==> r == s)
    ensures var s := SpaceEnd(t, 0);
      s < |t| && t[s] == '(' ==> s < r && (r == |t| || t[r - 1] == ')')
  {
    var s := SpaceEnd(t, 0);
    if s < |t| && t[s] != '(' then s
    else
      var e := CloseParenFrom(t, cs, s);
      if e < |t| then e + 1 else e
  }

  method ToValueEnd(text: Bytes, charset: Bytes) returns (r: nat)
    ensures r == ValueEnd(text, CharsetOf(charset))
  {
    var length := |text|;
    var i := SkipSpaces(text, 0);
    if i < length && text[i] != '(' {
      return i;
    }
    i := ToCloseParen(text, charset, i);
    if i < length {
      i := i + 1;
    }
    return i;
  }

  /** The loop of toValueEnd that runs to the first ')' outside string literals. */
  method ToCloseParen(text: Bytes, charset: Bytes, s: nat) returns (i: nat)
    requires s <= |text|
    ensures i == CloseParenFrom(text, CharsetOf(charset), s)
  {
    ghost var cs := CharsetOf(charset);
    i := s;
    while i < |text| && text[i] != ')'
      invariant s <= i <= |text|
      invariant CloseParenFrom(text, cs, i) == CloseParenFrom(text, cs, s)
      decreases |text| - i
    {
      if text[i] == '"' || text[i] == '\'' {
        var q := ToQuoteEnd(text[i..], charset);
        i := i + q;
      } else {
        i := i + 1;
      }
    }
  }

  // ---------------------------------------------------------- IN (...) lists

  /** The kind of literal an IN list starts with (GenericNone, GenericInt, GenericString). */
  datatype GType = GenericNone | GenericInt | GenericString

  /** The comma-separated continuation of a literal list. */
  function ArgTail(t: Bytes, cs: Charset, i: nat): (r: nat)
    requires i <= |t|
    ensures i <= r <= |t|
    ensures r == |t| || t[r] != ' '
    decreases |t| - i
  {
    if i == |t| then i
    else
      var s := SpaceEnd(t, i);
      if s < |t| && t[s] == ',' then ArgTail(t, cs, s + 1 + ValueEnd(t[s + 1..], cs))
      else s
  }

  /** The kind of list an element starting with b opens. */
  function ElementKind(b: Byte): GType
  {
    if IsLiteralQuote(b) then GenericString else if IsDigit(b) then GenericInt else GenericNone
  }

  /** toArgListEnd after the '(' at i: blanks, then a literal list or nothing. */
  function ListAfterParen(t: Bytes, cs: Charset, i: nat): (r: (nat, GType))
    requires i < |t| && t[i] == '('
    ensures r.0 <= |t|
    ensures r.1 == GenericNone ==> r.0 >= i && forall k :: i < k < r.0 ==> t[k] == ' '
    ensures r.1 != GenericNone ==> i < r.0 && (r.0 == |t| || t[r.0] != ' ')
  {
    var j := SpaceEnd(t, i + 1);
    SpaceRun(t, i + 1);
    if j == |t| then (j, GenericNone)
    else if ElementKind(t[j]) == GenericNone then (i, GenericNone)
    else (ArgTail(t, cs, i + ValueEnd(t[i..], cs)), ElementKind(t[j]))
  }

  /** toArgListEnd: the bytes an IN list of literals spans, and the kind of its first element. */
  function ArgListEnd(t: Bytes, cs: Charset): (r: (nat, GType))
    ensures r.0 <= |t|
    ensures r.1 == GenericNone ==> forall k :: 0 <= k < r.0 ==> t[k] == ' ' || t[k] == '('
    ensures r.1 != GenericNone ==> exists i :: 0 <= i < r.0 && t[i] == '('
    ensures r.1 != GenericNone ==> r.0 == |t| || t[r.0] != ' '
  {
    var i := SpaceEnd(t, 0);
    SpaceRun(t, 0);
    if i == |t| || t[i] != '(' then (i, GenericNone)
    else ListAfterParen(t, cs, i)
  }

  /** One round of the continuation: blanks, then a comma and a value. */
  lemma ArgTailComma(t: Bytes, cs: Charset, i: nat, c: nat, v: nat)
    requires i < |t| && c == SpaceEnd(t, i) && c < |t| && t[c] == ','
    requires v == ValueEnd(t[c + 1..], cs)
    ensures i < c + 1 + v <= |t| && ArgTail(t, cs, i) == ArgTail(t, cs, c + 1 + v)
  {
  }

  /** The continuation stops at the first non-blank that is not a comma. */
  lemma ArgTailStop(t: Bytes, cs: Charset, i: nat)
    requires i < |t| && !(SpaceEnd(t, i) < |t| && t[SpaceEnd(t, i)] == ',')
    ensures ArgTail(t, cs, i) == SpaceEnd(t, i)
  {
  }

  /** One round of the continuation loop: blanks, then a comma and a value, or the end of the list. */
  method ArgRound(text: Bytes, charset: Bytes, i0: nat) returns (more: bool, i: nat)
    requires i0 < |text|
    ensures more ==> i0 < i <= |text| && ArgTail(text, CharsetOf(charset), i) == ArgTail(text, CharsetOf(charset), i0)
    ensures !more ==> i == ArgTail(text, CharsetOf(charset), i0)
  {
    i := SkipSpaces(text, i0);
    if i < |text| && text[i] == ',' {
      var v := ToValueEnd(text[i + 1..], charset);
      ArgTailComma(text, CharsetOf(charset), i0, i, v);
      return true, i + 1 + v;
    }
    ArgTailStop(text, CharsetOf(charset), i0);
    return false, i;
  }

  /** The comma-separated continuation loop of toArgListEnd. */
  method ToArgTail(text: Bytes, charset: Bytes, i0: nat) returns (r: nat)
    requires i0 <= |text|
    ensures r == ArgTail(text, CharsetOf(charset), i0)
  {
    var i := i0;
    while i < |text|
      invariant i <= |text|
      invariant ArgTail(text, CharsetOf(charset), i) == ArgTail(text, CharsetOf(charset), i0)
      decreases |text| - i
    {
      var more;
      more, i := ArgRound(text, charset, i);
      if !more {
        return i;
      }
    }
    return i;
  }

  /** The part of toArgListEnd that follows the opening '(' at i. */
  method ToListAfterParen(text: Bytes, charset: Bytes, i: nat) returns (n: nat, gtype: GType)
    requires i < |text| && text[i] == '('
    ensures (n, gtype) == ListAfterParen(text, CharsetOf(charset), i)
  {
    gtype := GenericNone;
    var j := SkipSpaces(text, i + 1);
    if j >= |text| {
      return j, gtype;
    }
    n := i;
    if text[j] == '"' || IsDigit(text[j]) || text[j] == '\'' {
      if text[j] == '"' || text[j] == '\'' {
        gtype := GenericString;
      } else {
        gtype := GenericInt;
      }
      var v := ToValueEnd(text[i..], charset);
      n := ToArgTail(text, charset, i + v);
    }
  }

  method ToArgListEnd(text: Bytes, charset: Bytes) returns (n: nat, gtype: GType)
    ensures (n, gtype) == ArgListEnd(text, CharsetOf(charset))
  {
    gtype := GenericNone;
    var i := SkipSpaces(text, 0);
    if i >= |text| {
      return i, gtype;
    }
    if text[i] == '(' {
      n, gtype := ToListAfterParen(text, charset, i);
      return;
    }
    return i, gtype;
  }

  /** Blanks, then '(' at i, then blanks up to the first element at j. */
  predicate OpensList(t: Bytes, i: nat, j: nat)
  {
    && i < j < |t|
    && (forall k :: 0 <= k < i ==> t[k] == ' ')
    && t[i] == '('
    && (forall k :: i < k < j ==> t[k] == ' ')
    && t[j] != ' '
  }

  lemma OpensListAtRuns(t: Bytes, i: nat, j: nat)
    requires OpensList(t, i, j)
    ensures SpaceEnd(t, 0) == i
    ensures SpaceEnd(t, i + 1) == j
  {
    SpaceEndIs(t, 0, i);
    SpaceEndIs(t, i + 1, j);
  }

  /**
   * The kind of an IN list is decided by its first element alone: a digit
   * gives GenericInt, a quote GenericString, and anything else GenericNone.
   */
  lemma ArgListKind(t: Bytes, cs: Charset)
    ensures ArgListEnd(t, cs).1 == GenericInt <==>
      exists i: nat, j: nat :: OpensList(t, i, j) && IsDigit(t[j])
    ensures ArgListEnd(t, cs).1 == GenericString <==>
      exists i: nat, j: nat :: OpensList(t, i, j) && IsLiteralQuote(t[j])
  {
    var i := SpaceEnd(t, 0);
    SpaceRun(t, 0);
    if i < |t| && t[i] == '(' {
      var j := SpaceEnd(t, i + 1);
      SpaceRun(t, i + 1);
      if j < |t| {
        assert OpensList(t, i, j);
      }
    }
    forall i': nat, j': nat | OpensList(t, i', j')
      ensures i' == i && j' == SpaceEnd(t, i + 1)
    {
      OpensListAtRuns(t, i', j');
    }
  }

  lemma CloseParenOfIntList(u: Bytes)
    requires u == "(1, 2) X"
    ensures CloseParenFrom(u, Latin1, 0) == 5
  {
    assert CloseParenFrom(u, Latin1, 3) == CloseParenFrom(u, Latin1, 4) == 5;
    assert CloseParenFrom(u, Latin1, 0) == CloseParenFrom(u, Latin1, 1) == CloseParenFrom(u, Latin1, 2);
  }

  lemma ValueOfIntList(u: Bytes)
    requires u == "(1, 2) X"
    ensures ValueEnd(u, Latin1) == 6
  {
    assert SpaceEnd(u, 0) == 0;
    CloseParenOfIntList(u);
  }

  /** "IN (1, 2)" spans the whole list and is an integer list. */
  lemma IntegerArgList(t: Bytes)
    requires t == " (1, 2) X"
    ensures ArgListEnd(t, Latin1) == (8, GenericInt)
  {
    assert SpaceEnd(t, 0) == 1;
    assert SpaceEnd(t, 2) == 2;
    assert t[1..] == "(1, 2) X";
    ValueOfIntList(t[1..]);
    assert SpaceEnd(t, 7) == 8;
    assert ArgTail(t, Latin1, 7) == 8;
  }

  // ------------------------------------------------------ VALUES (...) lists

  /** The separators between repeated groups. */
  predicate IsSep(b: Byte) { b == ' ' || b == '\t' || b == ',' }

  /** The end of the run of separators that starts at i. */
  function SepEnd(t: Bytes, i: nat): (e: nat)
    requires i <= |t|
    ensures i <= e <= |t|
    ensures e == |t| || !IsSep(t[e])
    decreases |t| - i
  {
    if i == |t| || !IsSep(t[i]) then i else SepEnd(t, i + 1)
  }

  /** Every byte SepEnd skips is a separator. */
  lemma {:induction false} SepRun(t: Bytes, i: nat)
    requires i <= |t|
    ensures forall k :: i <= k < SepEnd(t, i) ==> IsSep(t[k])
    decreases |t| - i
  {
    if i < |t| && IsSep(t[i]) {
      SepRun(t, i + 1);
    }
  }

  lemma {:induction false} SepEndIs(t: Bytes, i: nat, e: nat)
    requires i <= e <= |t| && (forall k :: i <= k < e ==> IsSep(t[k]))
    requires e == |t| || !IsSep(t[e])
    ensures SepEnd(t, i) == e
    decreases e - i
  {
    if i < e {
      SepEndIs(t, i + 1, e);
    }
  }

  /**
   * The placeholder for a number that ends at e: "1", or "1." / "." when it
   * ends in a dot, depending on whether the byte before that dot is a digit.
   */
  function NumberPlaceholder(sql: Bytes, e: nat): (p: Bytes)
    requires e <= |sql|
    ensures p == "1" || p == "1." || p == "."
    ensures p[|p| - 1] == '.' <==> (e > 0 && sql[e - 1] == '.')
    ensures p[0] == '1' <==> !(e > 0 && sql[e - 1] == '.' && !(e > 1 && IsDigit(sql[e - 2])))
  {
    if e > 0 && sql[e - 1] == '.' then
      if e > 1 && IsDigit(sql[e - 2]) then "1." else "."
    else "1"
  }

  datatype Emit = Emit(out: Bytes, next: nat)

  /** One element of the first group: what it emits, where it ends, and how it moves the bracket count. */
  function GroupItem(sql: Bytes, cs: Charset, j: nat): (r: (Bytes, nat, int))
    requires j < |sql|
    ensures j < r.1 <= |sql|
    ensures !IsBlank(sql[j]) ==> |r.0| > 0
    ensures r.2 == 1 <==> sql[j] == '('
  {
    if IsLiteralQuote(sql[j]) then ("'s'", j + QuoteEnd(sql[j..], cs), 0)
    else if IsDigit(sql[j]) || sql[j] == '.' then
      var e := j + NumberEnd(sql[j..]);
      (NumberPlaceholder(sql, e), e, 0)
    else
      (if IsBlank(sql[j]) then [] else [sql[j]], j + 1,
       if sql[j] == '(' then 1 else if sql[j] == ')' then -1 else 0)
  }

  /**
   * The first group of a list, copied without blanks and with literals
   * replaced. The bracket count starts from zero for every element, so the
   * group ends at the first ')' that does not directly follow a '('.
   */
  function FirstGroup(sql: Bytes, cs: Charset, j: nat): (g: Emit)
    requires j <= |sql|
    ensures j <= g.next <= |sql|
    ensures g.next == |sql| || (j < g.next && sql[g.next - 1] == ')')
    ensures j < |sql| && !IsBlank(sql[j]) ==> |g.out| > 0
    decreases |sql| - j
  {
    if j == |sql| then Emit([], j)
    else
      var (piece, j1, bracket) := GroupItem(sql, cs, j);
      if j1 < |sql| && bracket <= 0 && sql[j1] == ')' then Emit(piece + [')'], j1 + 1)
      else
        var rest := FirstGroup(sql, cs, j1);
        Emit(piece + rest.out, rest.next)
  }

  /** What one element of a first group emits is compact. */
  lemma GroupItemCompact(sql: Bytes, cs: Charset, j: nat)
    requires j < |sql|
    ensures Compact(GroupItem(sql, cs, j).0)
  {
  }

  /** The copy of a first group is compact: no blank, no double quote, no digit but 1. */
  lemma {:induction false} FirstGroupCompact(sql: Bytes, cs: Charset, j: nat)
    requires j <= |sql|
    ensures Compact(FirstGroup(sql, cs, j).out)
    decreases |sql| - j
  {
    if j < |sql| {
      var (piece, j1, bracket) := GroupItem(sql, cs, j);
      GroupItemCompact(sql, cs, j);
      if j1 < |sql| && bracket <= 0 && sql[j1] == ')' {
        CompactAppend(piece, [')']);
      } else {
        FirstGroupCompact(sql, cs, j1);
        CompactAppend(piece, FirstGroup(sql, cs, j1).out);
      }
    }
  }

  /** The walk over one repeated group: to its closing ')' at depth at most one, or to the end. */
  function GroupSkip(sql: Bytes, cs: Charset, j: nat, bracket: int): (r: nat)
    requires j <= |sql|
    ensures j <= r <= |sql|
    ensures r == |sql| || sql[r] == ')'
    ensures j < |sql| && sql[j] == '(' ==> j < r
    decreases |sql| - j
  {
    if j == |sql| || (bracket <= 1 && sql[j] == ')') then j
    else if IsLiteralQuote(sql[j]) then GroupSkip(sql, cs, j + QuoteEnd(sql[j..], cs), bracket)
    else
      GroupSkip(sql, cs, j + 1,
                if sql[j] == '(' then bracket + 1 else if sql[j] == ')' then bracket - 1 else bracket)
  }

  /**
   * Skip the separators and groups that repeat the first one. The source
   * reads the byte after a run of separators without a bounds check, so a
   * run that reaches the end of the statement is a failure here.
   */
  function SkipRepeats(sql: Bytes, cs: Charset, j: nat): (r: Option<nat>)
    requires j <= |sql|
    ensures r.Some? ==> j <= r.value <= |sql|
    ensures r.Some? && j < r.value ==> IsSep(sql[j])
    ensures r.Some? ==> r.value == |sql| || !IsSep(sql[r.value])
    ensures r.None? ==> 0 < |sql| && IsSep(sql[|sql| - 1])
    decreases |sql| - j
  {
    if j == |sql| || !IsSep(sql[j]) then Some(j)
    else
      var k := SepEnd(sql, j);
      SepRun(sql, j);
      if k == |sql| then None
      else if sql[k] != '(' then Some(k)
      else
        var g := GroupSkip(sql, cs, k, 0);
        SkipRepeats(sql, cs, if g < |sql| then g + 1 else g)
  }

  /**
   * toValueListEnd: the output for a VALUES or IN list that starts at i, and
   * where the main pass resumes. The output is the first group, followed by
   * one ' ' when anything after it was skipped.
   */
  function ValueListEnd(sql: Bytes, cs: Charset, i: nat): (r: Option<Emit>)
    requires i <= |sql|
    ensures r.Some? ==> i <= r.value.next <= |sql|
    ensures r.None? ==> 0 < |sql| && IsSep(sql[|sql| - 1])
  {
    var s := WhiteEnd(sql, i);
    var g := FirstGroup(sql, cs, s);
    if g.next == |sql| then Some(g)
    else
      match SkipRepeats(sql, cs, g.next)
      case None => None
      case Some(j) => Some(Emit(if j != g.next then g.out + " " else g.out, j))
  }

  /**
   * What toValueListEnd emits holds only Normal bytes and no tab, and its
   * one space, if any, is its last byte.
   */
  lemma ValueListEndNormal(sql: Bytes, cs: Charset, i: nat)
    requires i <= |sql|
    ensures var r := ValueListEnd(sql, cs, i);
      r.Some? ==> forall k :: 0 <= k < |r.value.out| ==>
        Normal(r.value.out[k]) && r.value.out[k] != '\t' &&
        (r.value.out[k] == ' ' ==> 0 < k == |r.value.out| - 1)
  {
    var g := FirstGroup(sql, cs, WhiteEnd(sql, i));
    FirstGroupCompact(sql, cs, WhiteEnd(sql, i));
    CompactAll(g.out);
  }

  /** One element of the first-group loop of toValueListEnd. */
  method ScanGroupItem(sql: Bytes, charset: Bytes, j0: nat) returns (piece: Bytes, j: nat, bracket: int)
    requires j0 < |sql|
    ensures (piece, j, bracket) == GroupItem(sql, CharsetOf(charset), j0)
  {
    j := j0;
    bracket := 0;
    if sql[j] == '"' || sql[j] == '\'' {
      var q := ToQuoteEnd(sql[j..], charset);
      j := j + q;
      piece := "'s'";
    } else if IsDigit(sql[j]) || sql[j] == '.' {
      var n := ToNumberEnd(sql[j..]);
      j := j + n;
      piece := NumberPlaceholder(sql, j);
    } else {
      if sql[j] == '(' {
        bracket := bracket + 1;
      } else if sql[j] == ')' {
        bracket := bracket - 1;
      }
      piece := [];
      if sql[j] != ' ' && sql[j] != '\t' {
        piece := [sql[j]];
      }
      j := j + 1;
    }
  }

  /** One element of the first group: either it closes the group, or the group goes on after it. */
  lemma FirstGroupStep(sql: Bytes, cs: Charset, j: nat, piece: Bytes, j1: nat, bracket: int)
    requires j < |sql| && (piece, j1, bracket) == GroupItem(sql, cs, j)
    ensures j1 <= |sql|
    ensures j1 < |sql| && bracket <= 0 && sql[j1] == ')' ==> FirstGroup(sql, cs, j) == Emit(piece + [')'], j1 + 1)
    ensures !(j1 < |sql| && bracket <= 0 && sql[j1] == ')') ==>
      FirstGroup(sql, cs, j) == Emit(piece + FirstGroup(sql, cs, j1).out, FirstGroup(sql, cs, j1).next)
  {
  }

  /** One element of the first-group loop; done when it was the closing ')'. */
  method GroupRound(sql: Bytes, charset: Bytes, j0: nat) returns (done: bool, piece: Bytes, j: nat)
    requires j0 < |sql|
    ensures j0 < j <= |sql|
    ensures done ==> FirstGroup(sql, CharsetOf(charset), j0) == Emit(piece, j)
    ensures !done ==> (FirstGroup(sql, CharsetOf(charset), j0) ==
      Emit(piece + FirstGroup(sql, CharsetOf(charset), j).out, FirstGroup(sql, CharsetOf(charset), j).next))
  {
    var bracket;
    piece, j, bracket := ScanGroupItem(sql, charset, j0);
    FirstGroupStep(sql, CharsetOf(charset), j0, piece, j, bracket);
    if j < |sql| && bracket <= 0 && sql[j] == ')' {
      return true, piece + [sql[j]], j + 1;
    }
    return false, piece, j;
  }

  /** The first-group loop of toValueListEnd. */
  method CopyFirstGroup(sql: Bytes, charset: Bytes, j0: nat, result: Bytes)
    returns (out: Bytes, j: nat)
    requires j0 <= |sql|
    ensures out == result + FirstGroup(sql, CharsetOf(charset), j0).out
    ensures j == FirstGroup(sql, CharsetOf(charset), j0).next
  {
    ghost var g := FirstGroup(sql, CharsetOf(charset), j0);
    j := j0;
    out := result;
    while j < |sql|
      invariant j0 <= j <= |sql|
      invariant out + FirstGroup(sql, CharsetOf(charset), j).out == result + g.out
      invariant FirstGroup(sql, CharsetOf(charset), j).next == g.next
      decreases |sql| - j
    {
      var done, piece;
      done, piece, j := GroupRound(sql, charset, j);
      out := out + piece;
      if done {
        return;
      }
    }
  }

  /** The walk over one repeated group in toValueListEnd. */
  method SkipGroup(sql: Bytes, charset: Bytes, k: nat) returns (j: nat)
    requires k <= |sql|
    ensures j == GroupSkip(sql, CharsetOf(charset), k, 0)
  {
    ghost var cs := CharsetOf(charset);
    j := k;
    var bracket := 0;
    while j < |sql| && (bracket > 1 || sql[j] != ')')
      invariant k <= j <= |sql|
      invariant GroupSkip(sql, cs, j, bracket) == GroupSkip(sql, cs, k, 0)
      decreases |sql| - j
    {
      if sql[j] == '"' || sql[j] == '\'' {
        var q := ToQuoteEnd(sql[j..], charset);
        j := j + q;
      } else {
        if sql[j] == '(' {
          bracket := bracket + 1;
        } else if sql[j] == ')' {
          bracket := bracket - 1;
        }
        j := j + 1;
      }
    }
  }

  /** The loop of toValueListEnd that skips repeated groups; ok is false where the source indexes past the end. */
  method SkipRepeatedGroups(sql: Bytes, charset: Bytes, j0: nat) returns (ok: bool, j: nat)
    requires j0 <= |sql|
    ensures ok == SkipRepeats(sql, CharsetOf(charset), j0).Some?
    ensures ok ==> j == SkipRepeats(sql, CharsetOf(charset), j0).value
  {
    ghost var cs := CharsetOf(charset);
    j := j0;
    while j < |sql| && (sql[j] == ' ' || sql[j] == '\t' || sql[j] == ',')
      invariant j0 <= j <= |sql|
      invariant SkipRepeats(sql, cs, j) == SkipRepeats(sql, cs, j0)
      decreases |sql| - j
    {
      var k := j;
      while k < |sql| && (sql[k] == ' ' || sql[k] == '\t' || sql[k] == ',')
        invariant j <= k <= |sql|
        invariant SepEnd(sql, k) == SepEnd(sql, j)
        decreases |sql| - k
      {
        k := k + 1;
      }
      j := k;
      if k == |sql| {
        return false, j;
      }
      if sql[k] != '(' {
        return true, j;
      }
      j := SkipGroup(sql, charset, k);
      if j < |sql| && sql[j] == ')' {
        j := j + 1;
      }
    }
    return true, j;
  }

  method ToValueListEnd(sql: Bytes, charset: Bytes, i0: nat, result: Bytes)
    returns (ok: bool, out: Bytes, next: nat)
    requires i0 <= |sql|
    ensures ok == ValueListEnd(sql, CharsetOf(charset), i0).Some?
    ensures ok ==> out == result + ValueListEnd(sql, CharsetOf(charset), i0).value.out
    ensures ok ==> next == ValueListEnd(sql, CharsetOf(charset), i0).value.next
  {
    var i := i0;
    while i < |sql| && IsSpace(sql[i])
      invariant i0 <= i <= |sql|
      invariant WhiteEnd(sql, i) == WhiteEnd(sql, i0)
      decreases |sql| - i
    {
      i := i + 1;
    }
    var j;
    out, j := CopyFirstGroup(sql, charset, i, result);
    i := j;
    if i < |sql| {
      ok, j := SkipRepeatedGroups(sql, charset, j);
      if !ok {
        return false, out, j;
      }
      if i != j {
        out := out + " ";
        i := j;
      }
    }
    return true, out, i;
  }

  lemma NestedGroupNumbers(t: Bytes)
    requires t == "(1,(2),3)"
    ensures GroupItem(t, Latin1, 1) == ("1", 2, 0)
    ensures GroupItem(t, Latin1, 4) == ("1", 5, 0)
  {
    OneDigitNumber(t[1..]);
    OneDigitNumber(t[4..]);
  }

  lemma NestedGroupTail(t: Bytes)
    requires t == "(1,(2),3)"
    ensures FirstGroup(t, Latin1, 3) == Emit("(1)", 6)
  {
    NestedGroupNumbers(t);
    assert FirstGroup(t, Latin1, 4) == Emit("1)", 6);
    assert GroupItem(t, Latin1, 3) == ("(", 4, 1);
  }

  /** Nesting is not tracked in the first group: it ends at the first ')' after a non-'('. */
  lemma FirstGroupIgnoresNesting(t: Bytes)
    requires t == "(1,(2),3)"
    ensures FirstGroup(t, Latin1, 0) == Emit("(1,(1)", 6)
  {
    NestedGroupNumbers(t);
    NestedGroupTail(t);
    assert GroupItem(t, Latin1, 2) == (",", 3, 0);
    assert FirstGroup(t, Latin1, 2) == Emit(",(1)", 6);
    assert FirstGroup(t, Latin1, 1) == Emit("1,(1)", 6);
    assert GroupItem(t, Latin1, 0) == ("(", 1, 1);
  }

  lemma SmallGroup(t: Bytes)
    requires t == "(1),(2) x"
    ensures FirstGroup(t, Latin1, 0) == Emit("(1)", 3)
  {
    OneDigitNumber(t[1..]);
    assert GroupItem(t, Latin1, 1) == ("1", 2, 0);
    assert FirstGroup(t, Latin1, 1) == Emit("1)", 3);
    assert GroupItem(t, Latin1, 0) == ("(", 1, 1);
  }

  lemma SmallRepeat(t: Bytes)
    requires t == "(1),(2) x"
    ensures SkipRepeats(t, Latin1, 3) == Some(8)
  {
    assert SepEnd(t, 3) == 4;
    assert GroupSkip(t, Latin1, 4, 0) == GroupSkip(t, Latin1, 5, 1) == GroupSkip(t, Latin1, 6, 1) == 6;
    assert SepEnd(t, 7) == 8;
    assert SkipRepeats(t, Latin1, 7) == Some(8);
  }

  /** Repeated groups collapse into one ' '. */
  lemma RepeatedGroupsCollapse(t: Bytes)
    requires t == "(1),(2) x"
    ensures ValueListEnd(t, Latin1, 0) == Some(Emit("(1) ", 8))
  {
    assert WhiteEnd(t, 0) == 0;
    SmallGroup(t);
    SmallRepeat(t);
    assert "(1)" + " " == "(1) ";
  }

  lemma BlankGroup(t: Bytes)
    requires t == " (1) "
    ensures FirstGroup(t, Latin1, 1) == Emit("(1)", 4)
  {
    OneDigitNumber(t[2..]);
    assert GroupItem(t, Latin1, 2) == ("1", 3, 0);
    assert FirstGroup(t, Latin1, 2) == Emit("1)", 4);
    assert GroupItem(t, Latin1, 1) == ("(", 2, 1);
  }

  /** A list followed only by a blank makes the source index past the end. */
  lemma TrailingBlankFails(t: Bytes)
    requires t == " (1) "
    ensures ValueListEnd(t, Latin1, 0) == None
  {
    assert WhiteEnd(t, 0) == 1;
    BlankGroup(t);
    assert SepEnd(t, 4) == 5;
  }
}
