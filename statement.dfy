/**
 * Statement-level text helpers of utils/string.go: the leading comment a
 * query may open with, the next word of a text, the database named by a USE
 * statement, the end of a bracketed prefix, and the split of a multi-statement
 * query at its semicolons.
 */
module Statement {
  import opened ByteText
  import opened QuoteScan

  // ---------------------------------------------------------- ToCommentEnd

  /** A star at k - 1 and a slash at k. */
  predicate PairAt(sql: Bytes, k: nat)
    requires 1 <= k < |sql|
  {
    sql[k - 1] == '*' && sql[k] == '/'
  }

  /** One past the first star-slash pair whose slash is at or after i, or |sql|. */
  function PairFrom(sql: Bytes, i: nat): (r: nat)
    requires 1 <= i <= |sql|
    ensures i <= r <= |sql|
    ensures r == |sql| || (i < r && PairAt(sql, r - 1))
    decreases |sql| - i
  {
    if i == |sql| then |sql|
    else if PairAt(sql, i) then i + 1
    else PairFrom(sql, i + 1)
  }

  /** No pair ends between i and the one PairFrom stops at. */
  lemma {:induction false} PairFromIsFirst(sql: Bytes, i: nat)
    requires 1 <= i <= |sql|
    ensures forall m :: i <= m < PairFrom(sql, i) - 1 ==> !PairAt(sql, m)
    decreases |sql| - i
  {
    if i < |sql| && !PairAt(sql, i) {
      PairFromIsFirst(sql, i + 1);
    }
  }

  /**
   * The length of the comment a query opens with, 0 when it opens with none.
   * The search for the closing pair starts with the slash at index 4.
   */
  function LeadingCommentEnd(sql: Bytes): nat
  {
    if |sql| >= 4 && sql[0] == '/' && sql[1] == '*' then PairFrom(sql, 4) else 0
  }

  method ToCommentEnd(sql: Bytes) returns (r: nat)
    ensures r == LeadingCommentEnd(sql)
  {
    var i := 0;
    var length := |sql|;
    if length >= 4 && sql[0] == '/' && sql[1] == '*' {
      i := i + 4;
      while i < length
        invariant 4 <= i <= length
        invariant PairFrom(sql, i) == PairFrom(sql, 4)
        decreases length - i
      {
        if sql[i - 1] == '*' && sql[i] == '/' {
          return i + 1;
        } else {
          i := i + 1;
        }
      }
    }
    return i;
  }

  /**
   * A query that does not open with a slash-star (or is shorter than four
   * bytes) has no comment; otherwise the comment runs to the first pair
   * whose slash is at index 4 or later, or to the end of the text.
   */
  lemma CommentSkipped(sql: Bytes)
    ensures !(|sql| >= 4 && sql[0] == '/' && sql[1] == '*') <==> LeadingCommentEnd(sql) == 0
    ensures |sql| >= 4 && sql[0] == '/' && sql[1] == '*' ==>
      && 4 <= LeadingCommentEnd(sql) <= |sql|
      && (LeadingCommentEnd(sql) == |sql| || PairAt(sql, LeadingCommentEnd(sql) - 1))
      && forall m :: 4 <= m < LeadingCommentEnd(sql) - 1 ==> !PairAt(sql, m)
  {
    if |sql| >= 4 && sql[0] == '/' && sql[1] == '*' {
      PairFromIsFirst(sql, 4);
    }
  }

  /** The empty comment is not seen as closed: its pair ends at index 3. */
  lemma EmptyCommentRunsToTheEnd()
    ensures LeadingCommentEnd("/**/USE db") == 10
  {
    var s: Bytes := "/**/USE db";
    assert !PairAt(s, 4) && !PairAt(s, 5) && !PairAt(s, 6) && !PairAt(s, 7) && !PairAt(s, 8) && !PairAt(s, 9);
  }

  // -------------------------------------------------------------- NextWord

  /** The bytes NextWord keeps after the first one: letters, digits and '_'. */
  predicate IsWordByte(b: Byte) { IsLetter(b) || IsDigit(b) || b == '_' }

  /** The end of the run of word bytes that starts at j. */
  function WordEnd(t: Bytes, j: nat): (e: nat)
    requires j <= |t|
    ensures j <= e <= |t|
    ensures e == |t| || !IsWordByte(t[e])
    decreases |t| - j
  {
    if j == |t| || !IsWordByte(t[j]) then j else WordEnd(t, j + 1)
  }

  lemma {:induction false} WordRun(t: Bytes, j: nat)
    requires j <= |t|
    ensures forall k :: j <= k < WordEnd(t, j) ==> IsWordByte(t[k])
    decreases |t| - j
  {
    if j < |t| && IsWordByte(t[j]) {
      WordRun(t, j + 1);
    }
  }

  lemma {:induction false} WordEndIs(t: Bytes, j: nat, e: nat)
    requires j <= e <= |t| && (forall k :: j <= k < e ==> IsWordByte(t[k]))
    requires e == |t| || !IsWordByte(t[e])
    ensures WordEnd(t, j) == e
    decreases e - j
  {
    if j < e {
      WordEndIs(t, j + 1, e);
    }
  }

  /**
   * The next word of a text: after the leading white space, the first byte
   * whatever it is, then the word bytes that follow it; empty when the text
   * is only white space.
   */
  function FirstWord(str: Bytes): Bytes
  {
    var i := WhiteEnd(str, 0);
    if i < |str| then str[i..WordEnd(str, i + 1)] else []
  }

  method NextWord(str: Bytes) returns (w: Bytes)
    ensures w == FirstWord(str)
  {
    var i := 0;
    var j := 0;
    while i < |str| && IsSpace(str[i])
      invariant i <= |str|
      invariant WhiteEnd(str, i) == WhiteEnd(str, 0)
      decreases |str| - i
    {
      i := i + 1;
    }
    if i < |str| {
      j := i + 1;
      while j < |str| && IsWordByte(str[j])
        invariant i + 1 <= j <= |str|
        invariant WordEnd(str, j) == WordEnd(str, i + 1)
        decreases |str| - j
      {
        j := j + 1;
      }
      return str[i..j];
    }
    return [];
  }

  /** A word as NextWord cuts it: a first byte that is not white space, then word bytes. */
  predicate IsWord(w: Bytes)
  {
    |w| > 0 && !IsSpace(w[0]) && forall k :: 1 <= k < |w| ==> IsWordByte(w[k])
  }

  /** The next word is empty exactly for white space, and is a word otherwise. */
  lemma FirstWordShape(str: Bytes)
    ensures FirstWord(str) == [] <==> forall k :: 0 <= k < |str| ==> IsSpace(str[k])
    ensures FirstWord(str) != [] ==> IsWord(FirstWord(str))
  {
    var i := WhiteEnd(str, 0);
    WhiteRun(str, 0);
    if i < |str| {
      WordRun(str, i + 1);
      var w := FirstWord(str);
      assert w[0] == str[i];
      assert forall k :: 1 <= k < |w| ==> w[k] == str[i + k];
    }
  }

  /** A word after white space, followed by a byte that is not a word byte, is the next word. */
  lemma FirstWordOf(sp: Bytes, w: Bytes, t: Bytes)
    requires forall k :: 0 <= k < |sp| ==> IsSpace(sp[k])
    requires IsWord(w)
    requires t == [] || !IsWordByte(t[0])
    ensures FirstWord(sp + w + t) == w
  {
    var s := sp + w + t;
    var n := |sp| + |w|;
    WhiteEndIs(s, 0, |sp|);
    assert n == |s| || s[n] == t[0];
    WordEndIs(s, |sp| + 1, n);
    assert s[|sp|..n] == w;
  }

  // ----------------------------------------------------------- ParseUsedDB

  /**
   * The database a USE statement names: after the leading comment and
   * blanks, "USE" in any case with more than five bytes from there on, then
   * the next word; empty for any other statement.
   */
  function UsedDB(sql: Bytes): Bytes
  {
    var i := BlankEnd(sql, LeadingCommentEnd(sql));
    if i + 5 < |sql| && EqualFold("USE", sql[i..i + 3]) then FirstWord(sql[i + 3..]) else []
  }

  method ParseUsedDB(sql: Bytes) returns (db: Bytes)
    ensures db == UsedDB(sql)
  {
    var i := ToCommentEnd(sql);
    var length := |sql|;
    ghost var i0 := i;
    while i < length && (sql[i] == '\t' || sql[i] == ' ')
      invariant i0 <= i <= length
      invariant BlankEnd(sql, i) == BlankEnd(sql, i0)
      decreases length - i
    {
      i := i + 1;
    }
    if i + 5 < length && EqualFold("USE", sql[i..i + 3]) {
      db := NextWord(sql[i + 3..]);
      return;
    }
    return [];
  }

  /** Blanks and then a byte that is neither blank nor a slash: no comment, and the blanks end there. */
  lemma BlanksThenStatement(pre: Bytes, rest: Bytes)
    requires forall k :: 0 <= k < |pre| ==> IsBlank(pre[k])
    requires |rest| > 0 && !IsBlank(rest[0]) && rest[0] != '/'
    ensures BlankEnd(pre + rest, LeadingCommentEnd(pre + rest)) == |pre|
  {
    var s := pre + rest;
    assert s[0] == if |pre| == 0 then rest[0] else pre[0];
    assert s[|pre|] == rest[0];
    BlankEndIs(s, 0, |pre|);
  }

  lemma UseAt(s: Bytes, n: nat)
    requires BlankEnd(s, LeadingCommentEnd(s)) == n
    requires n + 5 < |s| && EqualFold("USE", s[n..n + 3])
    ensures UsedDB(s) == FirstWord(s[n + 3..])
  {
  }

  /** Blanks, "USE" in any case, a space and a word name that word as the database. */
  lemma UseNamesDatabase(pre: Bytes, u: Bytes, w: Bytes, t: Bytes)
    requires forall k :: 0 <= k < |pre| ==> IsBlank(pre[k])
    requires |u| == 3 && EqualFold(u, "USE")
    requires IsWord(w) && (t == [] || !IsWordByte(t[0])) && |w| + |t| >= 2
    ensures UsedDB(pre + u + " " + w + t) == w
  {
    var s := pre + u + " " + w + t;
    UseSlices(pre, u, w, t, s);
    UseFromSlices(s, |pre|, u, w, t);
  }

  lemma UseSlices(pre: Bytes, u: Bytes, w: Bytes, t: Bytes, s: Bytes)
    requires |u| == 3 && s == pre + u + " " + w + t
    ensures |s| == |pre| + 4 + |w| + |t|
    ensures forall k :: 0 <= k < |pre| ==> s[k] == pre[k]
    ensures s[|pre|..|pre| + 3] == u
    ensures s[|pre| + 3..] == [' '] + w + t
  {
    assert s == pre + (u + ([' '] + w + t));
  }

  /** Blanks before n, then "USE", a space and a word: the database is that word. */
  lemma UseFromSlices(s: Bytes, n: nat, u: Bytes, w: Bytes, t: Bytes)
    requires n + 3 <= |s| && forall k :: 0 <= k < n ==> IsBlank(s[k])
    requires s[n..n + 3] == u && s[n + 3..] == [' '] + w + t
    requires |u| == 3 && EqualFold(u, "USE")
    requires IsWord(w) && (t == [] || !IsWordByte(t[0])) && |w| + |t| >= 2
    ensures UsedDB(s) == w
  {
    assert s[n] == u[0] && UpperByte(u[0]) == 'U';
    assert LeadingCommentEnd(s) == 0;
    BlankEndIs(s, 0, n);
    UseAt(s, n);
    FirstWordOf([' '], w, t);
  }

  // ---------------------------------------------------------- ToBracketEnd

  /** One past the first ']' at or after index i - 1, or |t|. */
  function CloseBracketFrom(t: Bytes, i: nat): (r: nat)
    requires 1 <= i <= |t|
    ensures i <= r <= |t|
    ensures r == |t| || t[r - 1] == ']'
    decreases |t| - i
  {
    if i == |t| || t[i - 1] == ']' then i else CloseBracketFrom(t, i + 1)
  }

  lemma {:induction false} CloseBracketFromIs(t: Bytes, i: nat, e: nat)
    requires 1 <= i <= e <= |t| && (forall k :: i - 1 <= k < e - 1 ==> t[k] != ']')
    requires e == |t| || t[e - 1] == ']'
    ensures CloseBracketFrom(t, i) == e
    decreases e - i
  {
    if i < e {
      CloseBracketFromIs(t, i + 1, e);
    }
  }

  /**
   * The end of a bracketed prefix: after the leading blanks, one past the
   * first ']' that follows a '[', or the end of the text when none does;
   * without a '[' there, the end of the blanks.
   */
  function BracketEnd(text: Bytes): (r: nat)
    ensures r <= |text|
  {
    var i := BlankEnd(text, 0);
    if i < |text| && text[i] == '[' then CloseBracketFrom(text, i + 1) else i
  }

  method ToBracketEnd(text: Bytes) returns (r: nat)
    ensures r == BracketEnd(text)
  {
    var length := |text|;
    var i := 0;
    while i < length && (text[i] == '\t' || text[i] == ' ')
      invariant i <= length
      invariant BlankEnd(text, i) == BlankEnd(text, 0)
      decreases length - i
    {
      i := i + 1;
    }
    if i < length && text[i] == '[' {
      i := i + 1;
      ghost var i0 := i;
      while i < length && text[i - 1] != ']'
        invariant i0 <= i <= length
        invariant CloseBracketFrom(text, i) == CloseBracketFrom(text, i0)
        decreases length - i
      {
        i := i + 1;
      }
    }
    return i;
  }

  /** Blanks, then a bracketed part without a ']' inside: the end is right after its ']'. */
  lemma BracketedPrefix(pre: Bytes, w: Bytes, t: Bytes)
    requires forall k :: 0 <= k < |pre| ==> IsBlank(pre[k])
    requires ']' !in w
    ensures BracketEnd(pre + "[" + w + "]" + t) == |pre| + |w| + 2
  {
    var s := pre + "[" + w + "]" + t;
    var n := |pre|;
    assert s[n] == '[';
    BlankEndIs(s, 0, n);
    forall k | n <= k < n + |w| + 1
      ensures s[k] != ']'
    {
      if k > n {
        assert s[k] == w[k - n - 1];
      }
    }
    assert s[n + |w| + 1] == ']';
    CloseBracketFromIs(s, n + 1, n + |w| + 2);
  }

  /** Without a '[' after the blanks, only the blanks are skipped. */
  lemma NoBracketSkipsBlanks(pre: Bytes, t: Bytes)
    requires forall k :: 0 <= k < |pre| ==> IsBlank(pre[k])
    requires t == [] || (t[0] != '[' && !IsBlank(t[0]))
    ensures BracketEnd(pre + t) == |pre|
  {
    var s := pre + t;
    assert |pre| == |s| || s[|pre|] == t[0];
    BlankEndIs(s, 0, |pre|);
  }

  // ----------------------------------------------------------- getFirstSQL

  /**
   * The scan of getFirstSQL from i: a backslash that is not the last byte
   * skips the byte after it, a quoted literal is jumped over whole, and the
   * first ';' outside them ends the statement. The result is the statement
   * and the index where the next one starts; without a ';', the whole text
   * and its length.
   */
  function CutFrom(sql: Bytes, i: nat): (r: (Bytes, nat))
    requires i <= |sql|
    ensures (r.0 == sql && r.1 == |sql|) || (i < r.1 <= |sql| && r.0 == sql[..r.1 - 1] && sql[r.1 - 1] == ';')
    decreases |sql| - i
  {
    if i == |sql| then (sql, i)
    else if sql[i] == '\\' && i < |sql| - 1 then CutFrom(sql, i + 2)
    else if sql[i] == ';' then (sql[..i], i + 1)
    else if IsQuoteChar(sql[i]) then CutFrom(sql, i + QuoteEnd(sql[i..], CharsetOf([])))
    else CutFrom(sql, i + 1)
  }

  /** getFirstSQL: the first statement of a multi-statement query and where the rest starts. */
  function FirstStatement(sql: Bytes): (Bytes, nat)
  {
    CutFrom(sql, 0)
  }

  method GetFirstSQL(sql: Bytes) returns (piece: Bytes, next: nat)
    ensures (piece, next) == FirstStatement(sql)
  {
    var i := 0;
    var length := |sql|;
    while i < length
      invariant i <= length
      invariant CutFrom(sql, i) == CutFrom(sql, 0)
      decreases length - i
    {
      if sql[i] == '\\' && i < length - 1 {
        i := i + 2;
        continue;
      }
      if sql[i] == ';' {
        return sql[..i], i + 1;
      } else if sql[i] == '"' || sql[i] == '`' || sql[i] == '\'' {
        var n := ToQuoteEnd(sql[i..], "");
        i := i + n;
      } else {
        i := i + 1;
      }
    }
    return sql, i;
  }

  /** A byte that neither ends, escapes nor quotes anything. */
  predicate PlainByte(b: Byte) { b != ';' && b != '\\' && !IsQuoteChar(b) }

  predicate Plain(w: Bytes) { forall k :: 0 <= k < |w| ==> PlainByte(w[k]) }

  /** Over plain bytes up to e, the scan stops at e: the end of the text or a ';'. */
  lemma {:induction false} PlainCutFrom(s: Bytes, i: nat, e: nat)
    requires i <= e <= |s| && forall k :: i <= k < e ==> PlainByte(s[k])
    requires e == |s| || s[e] == ';'
    ensures CutFrom(s, i) == if e == |s| then (s, |s|) else (s[..e], e + 1)
    decreases e - i
  {
    if i < e {
      PlainCutFrom(s, i + 1, e);
    }
  }

  /** A plain statement followed by ';' is cut right there. */
  lemma PlainStatementCut(w: Bytes, rest: Bytes)
    requires Plain(w)
    ensures FirstStatement(w + ";" + rest) == (w, |w| + 1)
  {
    var s := w + ";" + rest;
    assert s[|w|] == ';';
    PlainCutFrom(s, 0, |w|);
    assert s[..|w|] == w;
  }

  /** A plain text without ';' is one statement. */
  lemma PlainStatementWhole(w: Bytes)
    requires Plain(w)
    ensures FirstStatement(w) == (w, |w|)
  {
    PlainCutFrom(w, 0, |w|);
  }

  /** A ';' inside a quoted literal does not end the statement. */
  lemma QuotedSemicolonKept()
    ensures FirstStatement("'a;b';c") == ("'a;b'", 6)
  {
    var s: Bytes := "'a;b';c";
    var q := s[0..];
    assert q == s;
    assert QuoteEnd(s, Other) == 5 by {
      assert Scan(s, Other, false, 4) == 5;
      assert Scan(s, Other, false, 3) == 5;
      assert Scan(s, Other, false, 2) == 5;
      assert Scan(s, Other, false, 1) == 5;
    }
    assert CharsetOf([]) == Other;
    assert CutFrom(s, 5) == ("'a;b'", 6) by {
      assert s[..5] == "'a;b'";
    }
  }

  /**
   * The pieces a statement is made of, as getFirstSQL reads it: a byte that
   * starts nothing, a backslash and the byte it escapes, or a closed quoted
   * literal whose body is ASCII with neither a backslash nor its delimiter.
   */
  datatype Part = Bare(b: Byte) | Escaped(e: Byte) | Quoted(q: Byte, body: Bytes)

  predicate GoodPart(p: Part)
  {
    match p
    case Bare(b) => PlainByte(b)
    case Escaped(_) => true
    case Quoted(q, body) => IsQuoteChar(q) && forall k :: 0 <= k < |body| ==> SimpleBodyByte(body[k], q)
  }

  predicate GoodParts(ps: seq<Part>)
    decreases |ps|
  {
    |ps| == 0 || (GoodPart(ps[0]) && GoodParts(ps[1..]))
  }

  function PartText(p: Part): Bytes
  {
    match p
    case Bare(b) => [b]
    case Escaped(e) => ['\\', e]
    case Quoted(q, body) => [q] + body + [q]
  }

  function PartsText(ps: seq<Part>): Bytes
    decreases |ps|
  {
    if |ps| == 0 then [] else PartText(ps[0]) + PartsText(ps[1..])
  }

  /** The text w stands in s from i on. */
  predicate TextAt(s: Bytes, i: nat, w: Bytes)
    decreases |w|
  {
    if |w| == 0 then i <= |s| else i < |s| && s[i] == w[0] && TextAt(s, i + 1, w[1..])
  }

  lemma {:induction false} TextAtBytes(s: Bytes, i: nat, w: Bytes)
    requires TextAt(s, i, w)
    ensures i + |w| <= |s| && forall k :: 0 <= k < |w| ==> s[i + k] == w[k]
    decreases |w|
  {
    if |w| > 0 {
      TextAtBytes(s, i + 1, w[1..]);
      assert forall k :: 1 <= k < |w| ==> w[k] == w[1..][k - 1];
    }
  }

  lemma {:induction false} BytesTextAt(s: Bytes, i: nat, w: Bytes)
    requires i + |w| <= |s| && forall k :: 0 <= k < |w| ==> s[i + k] == w[k]
    ensures TextAt(s, i, w)
    decreases |w|
  {
    if |w| > 0 {
      assert forall k :: 0 <= k < |w| - 1 ==> w[1..][k] == w[k + 1] == s[i + 1 + k];
      BytesTextAt(s, i + 1, w[1..]);
    }
  }

  lemma TextAtSplit(s: Bytes, i: nat, a: Bytes, b: Bytes)
    requires TextAt(s, i, a + b)
    ensures TextAt(s, i, a) && TextAt(s, i + |a|, b)
  {
    TextAtBytes(s, i, a + b);
    assert forall k :: 0 <= k < |a| ==> (a + b)[k] == a[k];
    assert forall k :: 0 <= k < |b| ==> (a + b)[|a| + k] == b[k];
    BytesTextAt(s, i, a);
    BytesTextAt(s, i + |a|, b);
  }

  /** The scan of getFirstSQL from i. */
  function CutAt(s: Bytes, i: nat): (Bytes, nat)
    requires i <= |s|
  {
    CutFrom(s, i)
  }

  /** One good piece at i, with more text after it: the scan resumes right after it. */
  lemma PartSkipped(s: Bytes, i: nat, p: Part)
    requires GoodPart(p) && TextAt(s, i, PartText(p)) && i + |PartText(p)| < |s|
    ensures CutAt(s, i) == CutAt(s, i + |PartText(p)|)
  {
    var a := PartText(p);
    TextAtBytes(s, i, a);
    match p
    case Bare(b) =>
      assert s[i] == a[0];
    case Escaped(e) =>
      assert s[i] == a[0] == '\\' && i < |s| - 1;
    case Quoted(q, body) =>
      var t := s[i..];
      assert t[0] == a[0] == q && t[|body| + 1] == a[|body| + 1] == q;
      assert forall k :: 1 <= k < |body| + 1 ==> t[k] == a[k] == body[k - 1];
      SimpleLiteralEnd(t, CharsetOf([]), |body| + 1);
  }

  /** Pieces standing at i: the first one, then the others right after it. */
  lemma FirstPartAt(s: Bytes, i: nat, ps: seq<Part>)
    requires |ps| > 0 && TextAt(s, i, PartsText(ps))
    ensures TextAt(s, i, PartText(ps[0]))
    ensures TextAt(s, i + |PartText(ps[0])|, PartsText(ps[1..]))
    ensures |PartsText(ps)| == |PartText(ps[0])| + |PartsText(ps[1..])|
  {
    TextAtSplit(s, i, PartText(ps[0]), PartsText(ps[1..]));
  }

  /** A text stands at the start of any text it begins. */
  lemma PrefixTextAt(a: Bytes, b: Bytes)
    ensures TextAt(a + b, 0, a)
  {
    assert forall k :: 0 <= k < |a| ==> (a + b)[k] == a[k];
    BytesTextAt(a + b, 0, a);
  }

  /** A ';' at i ends the statement there. */
  lemma SemicolonCut(s: Bytes, i: nat)
    requires i < |s| && s[i] == ';'
    ensures CutAt(s, i) == (s[..i], i + 1)
  {
  }

  /** Good pieces from i to e, then ';' at e: the scan from i stops at that ';'. */
  lemma {:induction false} PartsCut(s: Bytes, i: nat, e: nat, ps: seq<Part>)
    requires GoodParts(ps) && TextAt(s, i, PartsText(ps))
    requires e == i + |PartsText(ps)| && e < |s| && s[e] == ';'
    ensures CutAt(s, i) == (s[..e], e + 1)
    decreases |ps|
  {
    if |ps| == 0 {
      SemicolonCut(s, i);
    } else {
      FirstPartAt(s, i, ps);
      PartSkipped(s, i, ps[0]);
      PartsCut(s, i + |PartText(ps[0])|, e, ps[1..]);
    }
  }

  /**
   * getFirstSQL cuts at the first ';' that is neither escaped by a backslash
   * nor inside a quoted literal: a statement made of good pieces, followed
   * by ';', comes back whole, with the next statement after the ';'.
   */
  lemma EscapedAndQuotedCut(ps: seq<Part>, rest: Bytes)
    requires GoodParts(ps)
    ensures var w := PartsText(ps); FirstStatement(w + ";" + rest) == (w, |w| + 1)
  {
    var w := PartsText(ps);
    var s := w + ";" + rest;
    PrefixTextAt(w, ";" + rest);
    assert s == w + (";" + rest) && s[|w|] == ';';
    PartsCut(s, 0, |w|, ps);
    assert s[..|w|] == w;
  }

  /** "a\;b;c": the escaped ';' stays in the first statement. */
  lemma EscapedSemicolonKept()
    ensures FirstStatement("a\\;b;c") == ("a\\;b", 5)
  {
    var ps := [Bare('a'), Escaped(';'), Bare('b')];
    assert PartsText(ps[3..]) == [];
    assert PartsText(ps[2..]) == "b";
    assert PartsText(ps[1..]) == "\\;b";
    assert PartsText(ps) == "a\\;b";
    EscapedAndQuotedCut(ps, "c");
    assert "a\\;b" + ";" + "c" == "a\\;b;c";
  }

  // ----------------------------------------------------------- GetMultiSQL

  /**
   * GetMultiSQL: the statements of a query in order. After each statement
   * the white space is skipped; the split stops at the end of the text or at
   * the first empty statement.
   */
  function Pieces(sql: Bytes): (ps: seq<Bytes>)
    ensures forall k :: 0 <= k < |ps| ==> |ps[k]| > 0
    decreases |sql|
  {
    var (fs, i) := FirstStatement(sql);
    if |fs| == 0 then []
    else
      var j := WhiteEnd(sql, i);
      if j == |sql| then [fs] else [fs] + Pieces(sql[j..])
  }

  method GetMultiSQL(sql0: Bytes) returns (sqlList: seq<Bytes>)
    ensures sqlList == Pieces(sql0)
  {
    var sql := sql0;
    sqlList := [];
    var fs, i := GetFirstSQL(sql);
    while |fs| > 0
      invariant i <= |sql|
      invariant (fs, i) == FirstStatement(sql)
      invariant sqlList + Pieces(sql) == Pieces(sql0)
      decreases |sql|
    {
      sqlList := sqlList + [fs];
      ghost var i0 := i;
      while i < |sql| && IsSpace(sql[i])
        invariant i0 <= i <= |sql|
        invariant WhiteEnd(sql, i) == WhiteEnd(sql, i0)
        decreases |sql| - i
      {
        i := i + 1;
      }
      if i == |sql| {
        break;
      }
      sql := sql[i..];
      fs, i := GetFirstSQL(sql);
    }
  }

  /** A statement that can be joined with others: not empty, plain, and not opening with white space. */
  predicate PlainStatement(w: Bytes) { |w| > 0 && !IsSpace(w[0]) && Plain(w) }

  /** A run of white space (unicode.IsSpace), as may follow a ';'. */
  predicate AllWhite(g: Bytes) { forall k :: 0 <= k < |g| ==> IsSpace(g[k]) }

  /** Statements joined with ';', the k-th ';' followed by the white space gaps[k]. */
  function JoinStatements(ws: seq<Bytes>, gaps: seq<Bytes>): (s: Bytes)
    requires |ws| > 0 && |gaps| == |ws| - 1 && forall k :: 0 <= k < |ws| ==> |ws[k]| > 0
    ensures |s| > 0 && s[0] == ws[0][0]
    decreases |ws|
  {
    if |ws| == 1 then ws[0] else ws[0] + ";" + gaps[0] + JoinStatements(ws[1..], gaps[1..])
  }

  /**
   * Splitting plain statements joined with ';' and any white space after
   * each ';' gives the statements back: the white space is skipped.
   */
  lemma {:induction false} SplitJoinedStatements(ws: seq<Bytes>, gaps: seq<Bytes>)
    requires |ws| > 0 && |gaps| == |ws| - 1
    requires forall k :: 0 <= k < |ws| ==> |ws[k]| > 0 && PlainStatement(ws[k])
    requires forall k :: 0 <= k < |gaps| ==> AllWhite(gaps[k])
    ensures Pieces(JoinStatements(ws, gaps)) == ws
    decreases |ws|
  {
    assert PlainStatement(ws[0]);
    if |ws| == 1 {
      PlainStatementWhole(ws[0]);
    } else {
      var rest := JoinStatements(ws[1..], gaps[1..]);
      assert PlainStatement(ws[1]) && rest[0] == ws[1][0];
      JoinedStep(ws[0], gaps[0], rest);
      SplitJoinedStatements(ws[1..], gaps[1..]);
      assert ws == [ws[0]] + ws[1..];
    }
  }

  /** A plain statement, ';' and white space: the split yields the statement and goes on after the white space. */
  lemma JoinedStep(w: Bytes, g: Bytes, rest: Bytes)
    requires PlainStatement(w) && AllWhite(g)
    requires |rest| > 0 && !IsSpace(rest[0])
    ensures Pieces(w + ";" + g + rest) == [w] + Pieces(rest)
  {
    var s := w + ";" + g + rest;
    assert s == w + ";" + (g + rest);
    PlainStatementCut(w, g + rest);
    var e := |w| + 1 + |g|;
    forall k | |w| + 1 <= k < e
      ensures IsSpace(s[k])
    {
      assert s[k] == g[k - |w| - 1];
    }
    assert s[e] == rest[0];
    WhiteEndIs(s, |w| + 1, e);
    assert s[e..] == rest;
    PiecesStep(s, w, e);
  }

  /** A first statement w, with white space up to e inside the text: the split yields w and goes on at e. */
  lemma PiecesStep(s: Bytes, w: Bytes, e: nat)
    requires |w| > 0 && FirstStatement(s) == (w, |w| + 1)
    requires WhiteEnd(s, |w| + 1) == e < |s|
    ensures Pieces(s) == [w] + Pieces(s[e..])
  {
  }

  /** An empty statement ends the split: what follows ";;" is dropped. */
  lemma EmptyStatementStops(w: Bytes, rest: Bytes)
    requires PlainStatement(w)
    ensures Pieces(w + ";;" + rest) == [w]
  {
    var s := w + ";;" + rest;
    assert s == w + ";" + (";" + rest);
    PlainStatementCut(w, ";" + rest);
    assert s[|w| + 1] == ';';
    WhiteEndIs(s, |w| + 1, |w| + 1);
    var t := s[|w| + 1..];
    assert t == [] + ";" + rest;
    PlainStatementCut([], rest);
  }
}
