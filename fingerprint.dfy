/**
 * The SQL fingerprint (FingerPrint.GenerateFinger in utils/fingerprint.go).
 *
 * One pass over the statement, without its trailing white space, replaces
 * string literals by 's', numbers by 1, IN lists by IN(1) / IN('s') or by
 * their first group, VALUES lists by their first group, drops comments and
 * collapses blanks. When a hint opener (slash, star, '!') was copied, a
 * second pass removes the hint markers. The fingerprint is then classified by
 * getSQLCom on its upper-cased text.
 */
module Fingerprint {
  import opened ByteText
  import opened QuoteScan
  import opened NumberScan
  import opened ListScan
  import opened ListShapes
  import opened SqlCom

  /** Every byte is Normal: no double quote, no tab, and every digit is '1'. */
  predicate AllNormal(s: Bytes)
  {
    forall k :: 0 <= k < |s| ==> Normal(s[k])
  }

  /** No two adjacent spaces. */
  predicate SingleSpaced(s: Bytes)
  {
    forall k :: 0 < k < |s| ==> !(s[k - 1] == ' ' && s[k] == ' ')
  }

  predicate EndsWithSpace(s: Bytes)
  {
    |s| > 0 && s[|s| - 1] == ' '
  }

  lemma AppendNormal(a: Bytes, b: Bytes)
    requires AllNormal(a) && AllNormal(b)
    ensures AllNormal(a + b)
  {
    forall k | 0 <= k < |a + b|
      ensures Normal((a + b)[k])
    {
      if k >= |a| {
        assert (a + b)[k] == b[k - |a|];
      }
    }
  }

  /** Joining two single-spaced texts keeps it single-spaced unless a space meets a space. */
  lemma AppendSingleSpaced(a: Bytes, b: Bytes)
    requires SingleSpaced(a) && SingleSpaced(b)
    requires !(EndsWithSpace(a) && |b| > 0 && b[0] == ' ')
    ensures SingleSpaced(a + b)
  {
    forall k | 0 < k < |a + b|
      ensures !((a + b)[k - 1] == ' ' && (a + b)[k] == ' ')
    {
      if k > |a| {
        assert (a + b)[k - 1] == b[k - 1 - |a|] && (a + b)[k] == b[k - |a|];
      } else if k == |a| {
        assert (a + b)[k - 1] == a[|a| - 1] && (a + b)[k] == b[0];
      }
    }
  }

  // ------------------------------------------------------------ main pass

  /** Where the statement ends once trailing white space (unicode.IsSpace) is dropped. */
  function TrimTo(sql: Bytes, n: nat): (r: nat)
    requires n <= |sql|
    ensures r <= n
    ensures forall k :: r <= k < n ==> IsSpace(sql[k])
    ensures r == 0 || !IsSpace(sql[r - 1])
  {
    if n > 0 && IsSpace(sql[n - 1]) then TrimTo(sql, n - 1) else n
  }

  function TrimmedLength(sql: Bytes): nat
  {
    TrimTo(sql, |sql|)
  }

  /** The case-insensitive keyword IN, after a space and before a non-letter, well inside the statement. */
  predicate InAt(sql: Bytes, length: nat, i: nat)
    requires length <= |sql|
  {
    i > 0 && i + 4 < length && EqualFold(sql[i - 1..i + 2], " IN") && !IsEnglishLetter(sql[i + 2])
  }

  /** The case-insensitive keyword VALUES, under the same conditions. */
  predicate ValuesAt(sql: Bytes, length: nat, i: nat)
    requires length <= |sql|
  {
    i > 0 && i + 8 < length && EqualFold(sql[i - 1..i + 6], " VALUES") && !IsEnglishLetter(sql[i + 6])
  }

  /** One step of the main pass: the bytes it appends, where it resumes, and whether it copied a hint opener. */
  datatype Step = Step(piece: Bytes, next: nat, hint: bool)

  /** A '/' followed by '*' that starts a comment or a hint. */
  predicate CommentAt(sql: Bytes, length: nat, i: nat)
    requires i < length <= |sql|
  {
    sql[i] == '/' && i + 4 < length && sql[i + 1] == '*'
  }

  /**
   * What every step of the main pass promises: it appends Normal,
   * single-spaced bytes that begin with a space only after a non-space, and
   * it fails only on a statement that ends in a list separator.
   */
  predicate GoodStep(sql: Bytes, acc: Bytes, r: Option<Step>)
  {
    match r
    case Some(s) =>
      AllNormal(s.piece) && SingleSpaced(s.piece) &&
      (|s.piece| > 0 && s.piece[0] == ' ' ==> |acc| > 0 && !EndsWithSpace(acc))
    case None => 0 < |sql| && IsSep(sql[|sql| - 1])
  }

  /**
   * A keyword followed by the output of the value list that starts at p
   * (toValueListEnd appends to the keyword already written).
   */
  function ListStep(sql: Bytes, cs: Charset, word: Bytes, p: nat): (r: Option<Step>)
    requires p <= |sql| && (word == "IN" || word == "VALUES")
    ensures r.Some? ==> p <= r.value.next <= |sql| && !r.value.hint
  {
    match ValueListEnd(sql, cs, p)
    case None => None
    case Some(v) => Some(Step(word + v.out, v.next, false))
  }

  /** The fixed texts the main pass writes are Normal and single-spaced. */
  lemma FixedPiecesAreGood()
    ensures AllNormal("IN") && SingleSpaced("IN")
    ensures AllNormal("VALUES") && SingleSpaced("VALUES")
    ensures AllNormal("IN(1) ") && SingleSpaced("IN(1) ")
    ensures AllNormal("IN('s') ") && SingleSpaced("IN('s') ")
    ensures AllNormal("'s'") && SingleSpaced("'s'")
    ensures AllNormal("/*!") && SingleSpaced("/*!")
    ensures AllNormal("1") && AllNormal("1.") && AllNormal(".")
  {
  }

  lemma ListStepIsGood(sql: Bytes, cs: Charset, word: Bytes, p: nat, acc: Bytes)
    requires p <= |sql| && (word == "IN" || word == "VALUES")
    ensures GoodStep(sql, acc, ListStep(sql, cs, word, p))
    ensures ListStep(sql, cs, word, p).Some? ==> ListStep(sql, cs, word, p).value.piece[0] != ' '
  {
    var r := ValueListEnd(sql, cs, p);
    ValueListEndNormal(sql, cs, p);
    if r.Some? {
      var out := r.value.out;
      FixedPiecesAreGood();
      assert !EndsWithSpace(word);
      assert AllNormal(out);
      assert SingleSpaced(out) by {
        forall k | 0 < k < |out|
          ensures !(out[k - 1] == ' ' && out[k] == ' ')
        {
          assert out[k - 1] == ' ' ==> 0 < k - 1 == |out| - 1;
        }
      }
      AppendNormal(word, out);
      AppendSingleSpaced(word, out);
      assert (word + out)[0] == word[0];
    }
  }

  /** What follows the keyword IN at p: IN(1) or IN('s') for a literal list, or the value list. */
  function InStep(sql: Bytes, cs: Charset, p: nat): (r: Option<Step>)
    requires p <= |sql|
    ensures r.Some? ==> p <= r.value.next <= |sql| && !r.value.hint
  {
    var a := ArgListEnd(sql[p..], cs);
    InTail(sql, cs, p + a.0, a.1)
  }

  /** The IN output once the argument list has been scanned up to q with kind gtype. */
  function InTail(sql: Bytes, cs: Charset, q: nat, gtype: GType): (r: Option<Step>)
    requires q <= |sql|
    ensures r.Some? ==> q <= r.value.next <= |sql| && !r.value.hint
  {
    if gtype == GenericInt then Some(Step("IN(1) ", q, false))
    else if gtype == GenericString then Some(Step("IN('s') ", q, false))
    else ListStep(sql, cs, "IN", q)
  }

  lemma InTailIsGood(sql: Bytes, cs: Charset, q: nat, gtype: GType, acc: Bytes, r: Option<Step>)
    requires q <= |sql| && r == InTail(sql, cs, q, gtype)
    ensures GoodStep(sql, acc, r)
  {
    FixedPiecesAreGood();
    if gtype == GenericNone {
      ListStepIsGood(sql, cs, "IN", q, acc);
    }
  }

  lemma InStepIsGood(sql: Bytes, cs: Charset, p: nat, acc: Bytes, r: Option<Step>)
    requires p <= |sql| && r == InStep(sql, cs, p)
    ensures GoodStep(sql, acc, r)
  {
    var a := ArgListEnd(sql[p..], cs);
    InTailIsGood(sql, cs, p + a.0, a.1, acc, r);
  }

  /**
   * The case of the main loop for the byte at i. acc is the output so far:
   * a blank becomes one ' ' unless the output is empty or already ends in one.
   * The step fails only where toValueListEnd would read past the statement.
   */
  function MainStep(sql: Bytes, length: nat, cs: Charset, i: nat, acc: Bytes): (r: Option<Step>)
    requires i < length <= |sql|
    ensures r.Some? ==> i < r.value.next <= |sql|
  {
    var c := sql[i];
    if c == '\'' || c == '"' then
      Some(Step("'s'", i + QuoteEnd(sql[i..], cs), false))
    else if IsDigit(c) || c == '.' then
      var e := i + NumberEnd(sql[i..]);
      Some(Step(NumberPlaceholder(sql, e), e, false))
    else if (c == 'I' || c == 'i') && InAt(sql, length, i) then
      InStep(sql, cs, i + 2)
    else if (c == 'V' || c == 'v') && ValuesAt(sql, length, i) then
      ListStep(sql, cs, "VALUES", i + 6)
    else if CommentAt(sql, length, i) then
      if sql[i + 2] == '!' then Some(Step("/*!", i + 3, true))
      else Some(Step([], i + CommentEnd(sql[i..]), false))
    else if IsBlank(c) then
      Some(Step(if |acc| > 0 && !EndsWithSpace(acc) then " " else [], i + 1, false))
    else
      Some(Step([c], i + 1, false))
  }

  /** A string or number literal becomes 's' or its number placeholder. */
  lemma LiteralStepIsGood(sql: Bytes, length: nat, cs: Charset, i: nat, acc: Bytes)
    requires i < length <= |sql|
    requires IsLiteralQuote(sql[i]) || IsDigit(sql[i]) || sql[i] == '.'
    ensures GoodStep(sql, acc, MainStep(sql, length, cs, i, acc))
    ensures !MainStep(sql, length, cs, i, acc).value.hint
  {
    var r := MainStep(sql, length, cs, i, acc);
    FixedPiecesAreGood();
    if IsLiteralQuote(sql[i]) {
      assert r.value.piece == "'s'" && !r.value.hint;
    } else {
      var e := i + NumberEnd(sql[i..]);
      assert r.value.piece == NumberPlaceholder(sql, e) && !r.value.hint;
    }
  }

  /** An IN or VALUES keyword in place. */
  lemma KeywordStepIsGood(sql: Bytes, length: nat, cs: Charset, i: nat, acc: Bytes)
    requires i < length <= |sql| && !IsLiteralQuote(sql[i]) && !IsDigit(sql[i]) && sql[i] != '.'
    requires InAt(sql, length, i) || ValuesAt(sql, length, i)
    ensures GoodStep(sql, acc, MainStep(sql, length, cs, i, acc))
    ensures MainStep(sql, length, cs, i, acc).Some? ==> !MainStep(sql, length, cs, i, acc).value.hint
  {
    var r := MainStep(sql, length, cs, i, acc);
    if InAt(sql, length, i) {
      assert sql[i - 1..i + 2][1] == sql[i];
      assert UpperByte(sql[i]) == 'I';
      assert r == InStep(sql, cs, i + 2);
      InStepIsGood(sql, cs, i + 2, acc, r);
    } else {
      assert sql[i - 1..i + 6][1] == sql[i];
      assert UpperByte(sql[i]) == 'V';
      assert r == ListStep(sql, cs, "VALUES", i + 6);
      ListStepIsGood(sql, cs, "VALUES", i + 6, acc);
    }
  }

  /** A comment, a hint opener, a blank or a byte copied as it is. */
  lemma OtherStepIsGood(sql: Bytes, length: nat, cs: Charset, i: nat, acc: Bytes)
    requires i < length <= |sql| && !IsLiteralQuote(sql[i]) && !IsDigit(sql[i]) && sql[i] != '.'
    requires !InAt(sql, length, i) && !ValuesAt(sql, length, i)
    ensures GoodStep(sql, acc, MainStep(sql, length, cs, i, acc))
    ensures MainStep(sql, length, cs, i, acc).Some?
    ensures MainStep(sql, length, cs, i, acc).value.hint ==> i + 3 <= |sql| && sql[i..i + 3] == "/*!"
  {
    var r := MainStep(sql, length, cs, i, acc);
    FixedPiecesAreGood();
    if CommentAt(sql, length, i) {
      if sql[i + 2] == '!' {
        assert r.value.piece == "/*!";
        assert sql[i..i + 3] == "/*!";
      } else {
        assert r.value.piece == [] && !r.value.hint;
      }
    } else if IsBlank(sql[i]) {
      assert r.value.piece == (if |acc| > 0 && !EndsWithSpace(acc) then " " else []) && !r.value.hint;
    } else {
      assert r.value.piece == [sql[i]] && !r.value.hint;
    }
  }

  /** Every step is good, and only a copied hint opener sets the hint flag. */
  lemma MainStepIsGood(sql: Bytes, length: nat, cs: Charset, i: nat, acc: Bytes)
    requires i < length <= |sql|
    ensures GoodStep(sql, acc, MainStep(sql, length, cs, i, acc))
    ensures MainStep(sql, length, cs, i, acc).Some? && MainStep(sql, length, cs, i, acc).value.hint ==>
      i + 3 <= |sql| && sql[i..i + 3] == "/*!"
  {
    if IsLiteralQuote(sql[i]) || IsDigit(sql[i]) || sql[i] == '.' {
      LiteralStepIsGood(sql, length, cs, i, acc);
    } else if InAt(sql, length, i) || ValuesAt(sql, length, i) {
      KeywordStepIsGood(sql, length, cs, i, acc);
    } else {
      OtherStepIsGood(sql, length, cs, i, acc);
    }
  }

  /** The output of a main pass and whether it copied a hint opener. */
  datatype Pass = Pass(out: Bytes, hint: bool)

  /**
   * The main loop from i with output acc. Its output keeps acc in front, is
   * Normal and single-spaced when acc is, and the pass fails only on a
   * statement that ends in a list separator.
   */
  function MainFrom(sql: Bytes, length: nat, cs: Charset, i: nat, acc: Bytes, hint: bool): (r: Option<Pass>)
    requires length <= |sql| && i <= |sql|
    ensures r.Some? ==> |acc| <= |r.value.out| && r.value.out[..|acc|] == acc
    ensures r.Some? && AllNormal(acc) ==> AllNormal(r.value.out)
    ensures r.Some? && SingleSpaced(acc) ==> SingleSpaced(r.value.out)
    ensures r.Some? && hint ==> r.value.hint
    ensures r.None? ==> 0 < |sql| && IsSep(sql[|sql| - 1])
    decreases |sql| - i
  {
    if i >= length then Some(Pass(acc, hint))
    else
      match MainStep(sql, length, cs, i, acc)
      case None =>
        MainStepIsGood(sql, length, cs, i, acc);
        None
      case Some(s) =>
        MainStepIsGood(sql, length, cs, i, acc);
        AppendNormalIf(acc, s.piece);
        AppendSingleSpacedIf(acc, s.piece);
        MainFrom(sql, length, cs, s.next, acc + s.piece, hint || s.hint)
  }

  lemma AppendNormalIf(a: Bytes, b: Bytes)
    ensures AllNormal(a) && AllNormal(b) ==> AllNormal(a + b)
    ensures (a + b)[..|a|] == a
  {
    if AllNormal(a) && AllNormal(b) {
      AppendNormal(a, b);
    }
  }

  lemma AppendSingleSpacedIf(a: Bytes, b: Bytes)
    requires SingleSpaced(b)
    requires !(EndsWithSpace(a) && |b| > 0 && b[0] == ' ')
    ensures SingleSpaced(a) ==> SingleSpaced(a + b)
  {
    if SingleSpaced(a) {
      AppendSingleSpaced(a, b);
    }
  }

  // ------------------------------------------------------------ hint pass

  /** A hint opener (slash, star, '!') at i that the hint pass acts on: six or more bytes from the end. */
  predicate OpenerAt(src: Bytes, i: nat)
  {
    i + 5 < |src| && src[i] == '/' && src[i + 1] == '*' && src[i + 2] == '!'
  }

  /** A hint closer (star, slash) at i. */
  predicate CloserAt(src: Bytes, i: nat)
  {
    i + 1 < |src| && src[i] == '*' && src[i + 1] == '/'
  }

  /** The space written for a blank or a hint opener: none at the start of the output or after a space. */
  function SpaceAfter(acc: Bytes): Bytes
  {
    if |acc| > 0 && !EndsWithSpace(acc) then " " else []
  }

  /**
   * The hint pass from i: outside a hint, a hint opener (slash, star, '!')
   * and one following digit are replaced by a single ' ' (none if the output
   * is empty or already ends in one); inside a hint, a closer (star, slash)
   * is dropped; a ' ' after a ' ' is dropped;
   * every other byte is copied.
   */
  function HintFrom(src: Bytes, i: nat, inHint: bool, acc: Bytes): (r: Bytes)
    requires i <= |src|
    ensures |acc| <= |r| <= |acc| + |src| - i
    ensures r[..|acc|] == acc
    ensures AllNormal(acc) && AllNormal(src) ==> AllNormal(r)
    ensures SingleSpaced(acc) ==> SingleSpaced(r)
    decreases |src| - i
  {
    if i == |src| then acc
    else if !inHint && OpenerAt(src, i) then
      var j := if IsDigit(src[i + 3]) then i + 4 else i + 3;
      var space := SpaceAfter(acc);
      AppendNormalIf(acc, space);
      AppendSingleSpacedIf(acc, space);
      HintFrom(src, j, true, acc + space)
    else if inHint && CloserAt(src, i) then
      HintFrom(src, i + 2, false, acc)
    else if src[i] == ' ' && EndsWithSpace(acc) then
      HintFrom(src, i + 1, inHint, acc)
    else
      AppendNormalIf(acc, [src[i]]);
      AppendSingleSpacedIf(acc, [src[i]]);
      HintFrom(src, i + 1, inHint, acc + [src[i]])
  }

  function HintPass(src: Bytes): Bytes
  {
    HintFrom(src, 0, false, [])
  }

  /** No hint opener anywhere in s. */
  predicate NoOpener(s: Bytes)
  {
    forall k :: 0 <= k < |s| - 2 ==> !(s[k] == '/' && s[k + 1] == '*' && s[k + 2] == '!')
  }

  /** No hint closer anywhere in s. */
  predicate NoCloser(s: Bytes)
  {
    forall k :: 0 <= k < |s| - 1 ==> !(s[k] == '*' && s[k + 1] == '/')
  }

  lemma SingleSpacedPrefix(s: Bytes, n: nat)
    requires n <= |s| && SingleSpaced(s)
    ensures SingleSpaced(s[..n])
  {
    forall k | 0 < k < n
      ensures !(s[..n][k - 1] == ' ' && s[..n][k] == ' ')
    {
      assert s[..n][k - 1] == s[k - 1] && s[..n][k] == s[k];
    }
  }

  /**
   * Bytes i up to j where the hint pass meets no marker are copied as they
   * are, as long as the output stays single-spaced.
   */
  lemma {:induction false} HintRun(src: Bytes, i: nat, j: nat, inHint: bool, acc: Bytes)
    requires i <= j <= |src|
    requires forall k :: i <= k < j ==> !(if inHint then CloserAt(src, k) else OpenerAt(src, k))
    requires SingleSpaced(acc + src[i..j])
    ensures HintFrom(src, i, inHint, acc) == HintFrom(src, j, inHint, acc + src[i..j])
    decreases j - i
  {
    if i < j {
      var next := acc + [src[i]];
      assert (acc + src[i..j])[|acc|] == src[i];
      if |acc| > 0 {
        assert (acc + src[i..j])[|acc| - 1] == acc[|acc| - 1];
      }
      assert next + src[i + 1..j] == acc + src[i..j];
      HintRun(src, i + 1, j, inHint, next);
    } else {
      assert acc + src[i..j] == acc;
    }
  }

  /** A single-spaced text without a hint opener is left as it is by the hint pass. */
  lemma HintFreeUnchanged(s: Bytes)
    requires SingleSpaced(s) && NoOpener(s)
    ensures HintPass(s) == s
  {
    assert [] + s[0..|s|] == s;
    HintRun(s, 0, |s|, false, []);
  }

  /** Where each part of a text with one hint stands. */
  lemma HintLayout(p: Bytes, d: Bytes, body: Bytes, q: Bytes, src: Bytes)
    requires src == p + "/*!" + d + body + "*/" + q
    ensures |src| == |p| + 5 + |d| + |body| + |q|
    ensures src[0..|p|] == p
    ensures src[|p|] == '/' && src[|p| + 1] == '*' && src[|p| + 2] == '!'
    ensures |d| > 0 ==> src[|p| + 3] == d[0]
    ensures |d| == 0 && |body| > 0 ==> src[|p| + 3] == body[0]
    ensures |d| == 0 && |body| == 0 ==> src[|p| + 3] == '*'
    ensures src[|p| + 3 + |d|..|p| + 3 + |d| + |body|] == body
    ensures src[|p| + 3 + |d| + |body|] == '*' && src[|p| + 4 + |d| + |body|] == '/'
    ensures src[|p| + 5 + |d| + |body|..] == q
  {
    var a := |p| + 3 + |d|;
    var c := a + |body|;
    assert src == p + ("/*!" + d + body + "*/" + q);
    assert src[..c] == p + "/*!" + d + body;
    assert src[c..] == "*/" + q;
  }

  /** The hint pass finds no opener inside p, nor where p meets the opener after it. */
  lemma NoOpenerBefore(p: Bytes, src: Bytes)
    requires NoOpener(p) && |p| + 3 <= |src| && src[0..|p|] == p
    requires src[|p|] == '/' && src[|p| + 1] == '*'
    ensures forall k :: 0 <= k < |p| ==> !OpenerAt(src, k)
  {
    forall k | 0 <= k < |p|
      ensures !OpenerAt(src, k)
    {
      assert src[k] == p[k];
      if k + 2 < |p| {
        assert src[k + 1] == p[k + 1] && src[k + 2] == p[k + 2];
      }
    }
  }

  /** The hint pass finds no closer inside the body of a hint, nor where the body meets its closer. */
  lemma NoCloserWithin(body: Bytes, src: Bytes, j: nat)
    requires NoCloser(body) && j + |body| + 1 < |src| && src[j..j + |body|] == body
    requires src[j + |body|] == '*'
    ensures forall k :: j <= k < j + |body| ==> !CloserAt(src, k)
  {
    forall k | j <= k < j + |body|
      ensures !CloserAt(src, k)
    {
      assert src[k] == body[k - j];
      if k + 1 < j + |body| {
        assert src[k + 1] == body[k + 1 - j];
      }
    }
  }

  /** The hint pass finds no opener in a tail q that holds none. */
  lemma NoOpenerAfter(q: Bytes, src: Bytes, c: nat)
    requires NoOpener(q) && c <= |src| && src[c..] == q
    ensures forall k :: c <= k < |src| ==> !OpenerAt(src, k)
  {
    forall k | c <= k < |src|
      ensures !OpenerAt(src, k)
    {
      if k + 2 < |src| {
        assert src[k] == q[k - c] && src[k + 1] == q[k + 1 - c] && src[k + 2] == q[k + 2 - c];
      }
    }
  }

  /**
   * The hint pass removes a hint's opener, the one digit after it and its
   * closer, writes one ' ' where the opener stood (none at the start of the
   * output or after a space) and keeps the text before, the hint's body and
   * the text after, as long as the result is single-spaced. The opener is
   * seen only six or more bytes from the end.
   */
  lemma HintRemoved(p: Bytes, d: Bytes, body: Bytes, q: Bytes)
    requires NoOpener(p) && NoCloser(body) && NoOpener(q)
    requires d == [] || (|d| == 1 && IsDigit(d[0]))
    requires d == [] && |body| > 0 ==> !IsDigit(body[0])
    requires |d| + |body| + |q| > 0
    requires SingleSpaced(p + SpaceAfter(p) + body + q)
    ensures HintPass(p + "/*!" + d + body + "*/" + q) == p + SpaceAfter(p) + body + q
  {
    var src := p + "/*!" + d + body + "*/" + q;
    HintLayout(p, d, body, q, src);
    HintRemovedAt(p, d, body, q, src);
  }

  /** HintRemoved over the positions HintLayout gives. */
  lemma HintRemovedAt(p: Bytes, d: Bytes, body: Bytes, q: Bytes, src: Bytes)
    requires NoOpener(p) && NoCloser(body) && NoOpener(q)
    requires d == [] || (|d| == 1 && IsDigit(d[0]))
    requires d == [] && |body| > 0 ==> !IsDigit(body[0])
    requires |d| + |body| + |q| > 0
    requires SingleSpaced(p + SpaceAfter(p) + body + q)
    requires |src| == |p| + 5 + |d| + |body| + |q|
    requires src[0..|p|] == p
    requires src[|p|] == '/' && src[|p| + 1] == '*' && src[|p| + 2] == '!'
    requires |d| > 0 ==> src[|p| + 3] == d[0]
    requires |d| == 0 && |body| > 0 ==> src[|p| + 3] == body[0]
    requires |d| == 0 && |body| == 0 ==> src[|p| + 3] == '*'
    requires src[|p| + 3 + |d|..|p| + 3 + |d| + |body|] == body
    requires src[|p| + 3 + |d| + |body|] == '*' && src[|p| + 4 + |d| + |body|] == '/'
    requires src[|p| + 5 + |d| + |body|..] == q
    ensures HintPass(src) == p + SpaceAfter(p) + body + q
  {
    var head := p + SpaceAfter(p);
    var j := |p| + 3 + |d|;
    var c := j + |body|;
    SpacedParts(p, SpaceAfter(p), body, q);
    HintBefore(p, src);
    HintOpener(src, |p|, j, p);
    HintBody(body, src, j, head);
    HintAfter(q, src, c, head + body);
  }

  /** A single-spaced text is single-spaced up to the end of each of its parts. */
  lemma SpacedParts(p: Bytes, sp: Bytes, body: Bytes, q: Bytes)
    requires SingleSpaced(p + sp + body + q)
    ensures SingleSpaced(p) && SingleSpaced(p + sp + body)
  {
    var out := p + sp + body + q;
    assert out[..|p|] == p;
    assert out[..|p + sp + body|] == p + sp + body;
    SingleSpacedPrefix(out, |p|);
    SingleSpacedPrefix(out, |p + sp + body|);
  }

  /** The text before a hint opener is copied. */
  lemma HintBefore(p: Bytes, src: Bytes)
    requires NoOpener(p) && SingleSpaced(p) && |p| + 3 <= |src| && src[0..|p|] == p
    requires src[|p|] == '/' && src[|p| + 1] == '*'
    ensures HintPass(src) == HintFrom(src, |p|, false, p)
  {
    NoOpenerBefore(p, src);
    assert [] + src[0..|p|] == p;
    HintRun(src, 0, |p|, false, []);
  }

  /** An opener at a, with the digit after it if there is one, becomes the space SpaceAfter gives. */
  lemma HintOpener(src: Bytes, a: nat, j: nat, acc: Bytes)
    requires OpenerAt(src, a)
    requires j == (if IsDigit(src[a + 3]) then a + 4 else a + 3)
    ensures HintFrom(src, a, false, acc) == HintFrom(src, j, true, acc + SpaceAfter(acc))
  {
  }

  /** The body of a hint is copied. */
  lemma HintBody(body: Bytes, src: Bytes, j: nat, head: Bytes)
    requires NoCloser(body) && j + |body| + 1 < |src| && src[j..j + |body|] == body
    requires src[j + |body|] == '*' && SingleSpaced(head + body)
    ensures HintFrom(src, j, true, head) == HintFrom(src, j + |body|, true, head + body)
  {
    NoCloserWithin(body, src, j);
    HintRun(src, j, j + |body|, true, head);
  }

  /** The closer of a hint is dropped and the text after it copied. */
  lemma HintAfter(q: Bytes, src: Bytes, c: nat, acc: Bytes)
    requires CloserAt(src, c) && src[c + 2..] == q && NoOpener(q) && SingleSpaced(acc + q)
    ensures HintFrom(src, c, true, acc) == acc + q
  {
    NoOpenerAfter(q, src, c + 2);
    assert src[c + 2..|src|] == q;
    HintRun(src, c + 2, |src|, false, acc);
  }

  // ------------------------------------------------------------ the fingerprint

  /**
   * GenerateFinger's result, or None where the source would index past the
   * end of the statement (a VALUES or IN list followed only by separators).
   * A fingerprint is Normal and single-spaced.
   */
  function Finger(sql: Bytes, cs: Charset): (r: Option<Bytes>)
    ensures r.Some? ==> AllNormal(r.value) && SingleSpaced(r.value)
    ensures r.None? ==> 0 < |sql| && IsSep(sql[|sql| - 1])
  {
    match MainFrom(sql, TrimmedLength(sql), cs, 0, [], false)
    case None => None
    case Some(p) =>
      if p.hint then
        Some(HintPass(p.out))
      else Some(p.out)
  }

  // ------------------------------------------------------------ properties

  /** The byte at k is copied as it is: no literal, blank tab, IN, VALUES or comment starts there. */
  predicate CopiedAt(sql: Bytes, length: nat, k: nat)
    requires k < length <= |sql|
  {
    && !IsLiteralQuote(sql[k]) && !IsDigit(sql[k]) && sql[k] != '.' && sql[k] != '\t'
    && !InAt(sql, length, k) && !ValuesAt(sql, length, k) && !CommentAt(sql, length, k)
  }

  /** A byte that starts nothing is copied: one main-pass step of one byte. */
  lemma CopiedStep(sql: Bytes, length: nat, cs: Charset, i: nat, acc: Bytes)
    requires i < length <= |sql| && CopiedAt(sql, length, i)
    requires sql[i] == ' ' ==> |acc| > 0 && !EndsWithSpace(acc)
    ensures MainStep(sql, length, cs, i, acc) == Some(Step([sql[i]], i + 1, false))
  {
  }

  lemma {:induction false} PlainFrom(sql: Bytes, length: nat, cs: Charset, i: nat)
    requires i <= length <= |sql|
    requires forall k :: 0 <= k < length ==> CopiedAt(sql, length, k)
    requires SingleSpaced(sql[..length]) && (0 < length ==> sql[0] != ' ')
    ensures MainFrom(sql, length, cs, i, sql[..i], false) == Some(Pass(sql[..length], false))
    decreases length - i
  {
    if i < length {
      PlainSpacing(sql, length, i);
      CopiedStep(sql, length, cs, i, sql[..i]);
      CopiedThenRest(sql, length, cs, i);
      PlainFrom(sql, length, cs, i + 1);
    }
  }

  /** In a single-spaced text that does not start with a space, a space follows a non-space. */
  lemma PlainSpacing(sql: Bytes, length: nat, i: nat)
    requires i < length <= |sql|
    requires SingleSpaced(sql[..length]) && sql[0] != ' '
    ensures sql[i] == ' ' ==> |sql[..i]| > 0 && !EndsWithSpace(sql[..i])
  {
    if sql[i] == ' ' {
      assert sql[..length][i - 1] == sql[i - 1] && sql[..length][i] == sql[i];
      assert sql[..i][i - 1] == sql[i - 1];
    }
  }

  /** One copied byte, then the rest of the pass. */
  lemma CopiedThenRest(sql: Bytes, length: nat, cs: Charset, i: nat)
    requires i < length <= |sql|
    requires MainStep(sql, length, cs, i, sql[..i]) == Some(Step([sql[i]], i + 1, false))
    ensures MainFrom(sql, length, cs, i, sql[..i], false) == MainFrom(sql, length, cs, i + 1, sql[..i + 1], false)
  {
    assert sql[..i] + [sql[i]] == sql[..i + 1];
  }

  /**
   * A statement with no literal, tab, comment, IN or VALUES list, that does
   * not start with a space and has no two adjacent spaces, is its own
   * fingerprint once trailing white space is dropped.
   */
  lemma PlainStatementUnchanged(sql: Bytes, cs: Charset)
    requires forall k :: 0 <= k < TrimmedLength(sql) ==> CopiedAt(sql, TrimmedLength(sql), k)
    requires SingleSpaced(sql[..TrimmedLength(sql)]) && (0 < |sql| ==> sql[0] != ' ')
    ensures Finger(sql, cs) == Some(sql[..TrimmedLength(sql)])
  {
    PlainFrom(sql, TrimmedLength(sql), cs, 0);
  }

  /** The main pass from i with output acc, before any hint opener was copied. */
  function Resume(sql: Bytes, length: nat, cs: Charset, i: nat, acc: Bytes): Option<Pass>
    requires length <= |sql| && i <= |sql|
  {
    MainFrom(sql, length, cs, i, acc, false)
  }

  /** One byte that starts nothing, then the rest of the pass; the output still admits the next byte. */
  lemma CopiedOne(sql: Bytes, length: nat, cs: Charset, i: nat, j: nat, acc: Bytes, next: Bytes)
    requires i < j <= length <= |sql| && CopiedAt(sql, length, i) && next == acc + [sql[i]]
    requires sql[i] == ' ' ==> |acc| > 0 && !EndsWithSpace(acc)
    requires i + 1 < j ==> !(sql[i] == ' ' && sql[i + 1] == ' ')
    ensures Resume(sql, length, cs, i, acc) == Resume(sql, length, cs, i + 1, next)
    ensures i + 1 < j && sql[i + 1] == ' ' ==> |next| > 0 && !EndsWithSpace(next)
    ensures next + sql[i + 1..j] == acc + sql[i..j]
  {
    CopiedStep(sql, length, cs, i, acc);
    assert next[|next| - 1] == sql[i];
    assert next + sql[i + 1..j] == acc + sql[i..j];
  }

  /**
   * A run of bytes that start nothing, with no two adjacent spaces, is
   * copied as it is, from any output that a leading space may follow.
   */
  lemma {:induction false} CopiedRun(sql: Bytes, length: nat, cs: Charset, i: nat, j: nat, acc: Bytes)
    requires i <= j <= length <= |sql|
    requires forall k :: i <= k < j ==> CopiedAt(sql, length, k)
    requires forall k :: i < k < j ==> !(sql[k - 1] == ' ' && sql[k] == ' ')
    requires i < j && sql[i] == ' ' ==> |acc| > 0 && !EndsWithSpace(acc)
    ensures Resume(sql, length, cs, i, acc) == Resume(sql, length, cs, j, acc + sql[i..j])
    decreases j - i
  {
    if i < j {
      var next := acc + [sql[i]];
      CopiedOne(sql, length, cs, i, j, acc, next);
      CopiedRun(sql, length, cs, i + 1, j, next);
    } else {
      assert acc + sql[i..j] == acc;
    }
  }

  /**
   * A string literal from a to b whose body is ASCII without a backslash or
   * its delimiter becomes 's', and the pass resumes after its closing quote.
   */
  lemma LiteralSkipped(sql: Bytes, length: nat, cs: Charset, a: nat, b: nat, acc: Bytes)
    requires a + 2 <= b <= length <= |sql|
    requires IsLiteralQuote(sql[a]) && sql[b - 1] == sql[a]
    requires forall k :: a < k < b - 1 ==> SimpleBodyByte(sql[k], sql[a])
    ensures Resume(sql, length, cs, a, acc) == Resume(sql, length, cs, b, acc + "'s'")
  {
    var t := sql[a..];
    forall k | 1 <= k < b - 1 - a
      ensures SimpleBodyByte(t[k], t[0])
    {
      assert t[k] == sql[a + k];
    }
    SimpleLiteralEnd(t, cs, b - 1 - a);
    QuoteStep(sql, length, cs, a, acc, b);
    StepThenRest(sql, length, cs, a, acc, "'s'", b);
  }

  /**
   * A run of n decimal digits that no '.', x or X continues becomes 1, and
   * the pass resumes after it.
   */
  lemma DigitsSkipped(sql: Bytes, length: nat, cs: Charset, a: nat, n: nat, acc: Bytes)
    requires 1 <= n && a + n <= length <= |sql|
    requires forall k :: a <= k < a + n ==> IsDigit(sql[k])
    requires a + n == |sql| || (!IsDigit(sql[a + n]) && sql[a + n] != '.' && sql[a + n] != 'x' && sql[a + n] != 'X')
    ensures Resume(sql, length, cs, a, acc) == Resume(sql, length, cs, a + n, acc + "1")
  {
    DigitsNumberAt(sql, a, n);
    NumberSkipped(sql, length, cs, a, n, acc);
  }

  lemma NumberSkipped(sql: Bytes, length: nat, cs: Charset, a: nat, n: nat, acc: Bytes)
    requires 1 <= n && a + n <= length <= |sql|
    requires IsDigit(sql[a]) && IsDigit(sql[a + n - 1]) && NumberEnd(sql[a..]) == n
    ensures Resume(sql, length, cs, a, acc) == Resume(sql, length, cs, a + n, acc + "1")
  {
    DigitStep(sql, length, cs, a, acc, a + n);
    StepThenRest(sql, length, cs, a, acc, "1", a + n);
  }

  /** A number whose last byte is a digit becomes 1. */
  lemma DigitStep(sql: Bytes, length: nat, cs: Charset, a: nat, acc: Bytes, e: nat)
    requires a < length <= |sql| && IsDigit(sql[a]) && e == a + NumberEnd(sql[a..]) && IsDigit(sql[e - 1])
    ensures MainStep(sql, length, cs, a, acc) == Some(Step("1", e, false))
  {
    assert NumberPlaceholder(sql, e) == "1";
  }

  lemma QuoteStep(sql: Bytes, length: nat, cs: Charset, a: nat, acc: Bytes, e: nat)
    requires a < length <= |sql| && IsLiteralQuote(sql[a]) && e == a + QuoteEnd(sql[a..], cs)
    ensures MainStep(sql, length, cs, a, acc) == Some(Step("'s'", e, false))
  {
  }

  /** A step that appends piece and resumes at next, then the rest of the pass. */
  lemma StepThenRest(sql: Bytes, length: nat, cs: Charset, i: nat, acc: Bytes, piece: Bytes, next: nat)
    requires i < length <= |sql| && MainStep(sql, length, cs, i, acc) == Some(Step(piece, next, false))
    ensures Resume(sql, length, cs, i, acc) == Resume(sql, length, cs, next, acc + piece)
  {
  }

  lemma DigitsNumberAt(sql: Bytes, a: nat, n: nat)
    requires 1 <= n && a + n <= |sql|
    requires forall k :: a <= k < a + n ==> IsDigit(sql[k])
    requires a + n == |sql| || (!IsDigit(sql[a + n]) && sql[a + n] != '.' && sql[a + n] != 'x' && sql[a + n] != 'X')
    ensures NumberEnd(sql[a..]) == n
  {
    var t := sql[a..];
    assert forall k :: 0 <= k < n ==> t[k] == sql[a + k];
    DigitsNumber(t, n);
  }

  /**
   * A statement that is plain text around one simple string literal (from a
   * to b) has that text, with the literal replaced by 's', as its
   * fingerprint: statements that differ only in the literal's content share
   * their fingerprint.
   */
  lemma LiteralErased(sql: Bytes, cs: Charset, a: nat, b: nat)
    requires a + 2 <= b <= TrimmedLength(sql)
    requires IsLiteralQuote(sql[a]) && sql[b - 1] == sql[a]
    requires forall k :: a < k < b - 1 ==> SimpleBodyByte(sql[k], sql[a])
    requires forall k :: 0 <= k < TrimmedLength(sql) && !(a <= k < b) ==> CopiedAt(sql, TrimmedLength(sql), k)
    requires forall k :: 0 < k < TrimmedLength(sql) && k != a && k != b ==> !(sql[k - 1] == ' ' && sql[k] == ' ')
    requires 0 < a ==> sql[0] != ' '
    ensures Finger(sql, cs) == Some(sql[..a] + "'s'" + sql[b..TrimmedLength(sql)])
  {
    var length := TrimmedLength(sql);
    CopiedHead(sql, length, cs, a);
    LiteralSkipped(sql, length, cs, a, b, sql[0..a]);
    var acc := sql[0..a] + "'s'";
    assert acc[|acc| - 1] == '\'';
    CopiedRun(sql, length, cs, b, length, acc);
    assert sql[0..a] == sql[..a];
    PassCompletes(sql, cs, acc + sql[b..length]);
  }

  /** The keyword VALUES in place hands over to the value list after it. */
  lemma ValuesStep(sql: Bytes, length: nat, cs: Charset, v: nat, acc: Bytes)
    requires v < length <= |sql| && ValuesAt(sql, length, v)
    ensures MainStep(sql, length, cs, v, acc) == ListStep(sql, cs, "VALUES", v + 6)
  {
    assert sql[v - 1..v + 6][1] == sql[v];
  }

  /**
   * A VALUES keyword followed by a value list of the shape es, rs becomes
   * VALUES, the copy of the first group and, when other groups follow, one
   * space; the pass resumes after the last group.
   */
  lemma ValuesSkipped(sql: Bytes, length: nat, cs: Charset, v: nat, p: nat, es: seq<Elem>, rs: seq<Repeat>, acc: Bytes)
    returns (piece: Bytes)
    requires v < length <= |sql| && ValuesAt(sql, length, v)
    requires v + 6 <= p <= |sql| && SpacesIn(sql, v + 6, p)
    requires |es| > 0 && GroupAt(sql, p, es) && RepeatsAt(sql, p + GroupWidth(es), rs)
    requires p + GroupWidth(es) + RepeatsWidth(rs) == |sql|
    ensures piece == "VALUES" + GroupCopy(sql, p, es) + (if |rs| > 0 then " " else "")
    ensures Resume(sql, length, cs, v, acc) == Resume(sql, length, cs, |sql|, acc + piece)
  {
    var out, q, j := ValueListAt(sql, cs, v + 6, p, es, rs);
    RepeatsWidthPositive(rs);
    ValuesListStep(sql, cs, v, out, j != q, j);
    piece := "VALUES" + out + (if j != q then " " else "");
    ValuesStep(sql, length, cs, v, acc);
    StepThenRest(sql, length, cs, v, acc, piece, j);
  }

  /** The list after a keyword is written as its first group, and one space when the cursor moved past it. */
  lemma ListStepOf(sql: Bytes, cs: Charset, word: Bytes, p: nat, out: Bytes, moved: bool, j: nat)
    requires p <= |sql| && (word == "IN" || word == "VALUES")
    requires ValueListEnd(sql, cs, p) == Some(Emit(if moved then out + " " else out, j))
    ensures ListStep(sql, cs, word, p) == Some(Step(word + out + (if moved then " " else ""), j, false))
  {
    ListedPiece(word, out, moved);
  }

  lemma ValuesListStep(sql: Bytes, cs: Charset, v: nat, out: Bytes, moved: bool, j: nat)
    requires v + 6 <= |sql| && ValueListEnd(sql, cs, v + 6) == Some(Emit(if moved then out + " " else out, j))
    ensures ListStep(sql, cs, "VALUES", v + 6) == Some(Step("VALUES" + out + (if moved then " " else ""), j, false))
  {
    ListStepOf(sql, cs, "VALUES", v + 6, out, moved, j);
  }

  lemma ListedPiece(word: Bytes, out: Bytes, moved: bool)
    ensures word + (if moved then out + " " else out) == word + out + (if moved then " " else "")
  {
    if !moved {
      assert out + "" == out;
    }
  }

  /**
   * A statement made of plain text and an INSERT-style VALUES list has that
   * text, VALUES and the copy of the first group as its fingerprint, with one
   * space when more groups follow: however many rows a statement inserts,
   * and whatever literals they hold, the fingerprint is the same.
   */
  lemma ValuesListErased(sql: Bytes, cs: Charset, v: nat, p: nat, es: seq<Elem>, rs: seq<Repeat>)
    requires TrimmedLength(sql) == |sql| && v < |sql| && ValuesAt(sql, |sql|, v)
    requires forall k :: 0 <= k < v ==> CopiedAt(sql, |sql|, k)
    requires forall k :: 0 < k < v ==> !(sql[k - 1] == ' ' && sql[k] == ' ')
    requires sql[0] != ' '
    requires v + 6 <= p <= |sql| && SpacesIn(sql, v + 6, p)
    requires |es| > 0 && GroupAt(sql, p, es) && RepeatsAt(sql, p + GroupWidth(es), rs)
    requires p + GroupWidth(es) + RepeatsWidth(rs) == |sql|
    ensures Finger(sql, cs) == Some(sql[0..v] + "VALUES" + GroupCopy(sql, p, es) + (if |rs| > 0 then " " else ""))
  {
    CopiedHead(sql, |sql|, cs, v);
    var piece := ValuesSkipped(sql, |sql|, cs, v, p, es, rs, sql[0..v]);
    PassCompletes(sql, cs, sql[0..v] + piece);
    AppendRegroup(sql[0..v], "VALUES", GroupCopy(sql, p, es), if |rs| > 0 then " " else "");
  }

  lemma AppendRegroup(a: Bytes, b: Bytes, c: Bytes, d: Bytes)
    ensures a + (b + c + d) == a + b + c + d
  {
  }

  /**
   * Outside bytes i up to e, the statement is plain text: up to i and from e
   * to its trimmed end no byte starts a literal, a number, a tab, IN, VALUES
   * or a comment, no two spaces are adjacent, and it does not open with a
   * space.
   */
  predicate PlainOutside(sql: Bytes, i: nat, e: nat)
  {
    var length := TrimmedLength(sql);
    && i <= e && i <= length <= |sql|
    && (forall k :: 0 <= k < i ==> CopiedAt(sql, length, k))
    && (forall k :: 0 < k < i ==> !SpacePairAt(sql, k))
    && (0 < i ==> sql[0] != ' ')
    && (forall k :: e <= k < length ==> CopiedAt(sql, length, k))
    && (forall k :: e < k < length ==> !SpacePairAt(sql, k))
  }

  /** Bytes k - 1 and k are both spaces. */
  predicate SpacePairAt(sql: Bytes, k: nat)
  {
    0 < k < |sql| && sql[k - 1] == ' ' && sql[k] == ' '
  }

  // ------------------------------------------------------------ comments

  /** A comment that is no hint is dropped: the pass resumes after it and writes nothing. */
  lemma CommentStep(sql: Bytes, length: nat, cs: Charset, a: nat, acc: Bytes)
    requires a < length <= |sql| && CommentAt(sql, length, a) && sql[a + 2] != '!'
    ensures MainStep(sql, length, cs, a, acc) == Some(Step([], a + CommentEnd(sql[a..]), false))
  {
  }

  /**
   * A statement that is plain text around one comment (from a to b) that
   * is no hint has that text, without the comment, as its fingerprint: what
   * a comment holds never reaches the fingerprint.
   */
  lemma CommentErased(sql: Bytes, cs: Charset, a: nat, b: nat)
    requires a < TrimmedLength(sql) && CommentAt(sql, TrimmedLength(sql), a) && sql[a + 2] != '!'
    requires b == a + CommentEnd(sql[a..]) && b <= TrimmedLength(sql)
    requires forall k :: 0 <= k < TrimmedLength(sql) && !(a <= k < b) ==> CopiedAt(sql, TrimmedLength(sql), k)
    requires forall k :: (0 < k < a || b < k < TrimmedLength(sql)) ==> !(sql[k - 1] == ' ' && sql[k] == ' ')
    requires 0 < a ==> sql[0] != ' '
    requires b < TrimmedLength(sql) && sql[b] == ' ' ==> 0 < a && sql[a - 1] != ' '
    ensures Finger(sql, cs) == Some(sql[..a] + sql[b..TrimmedLength(sql)])
  {
    var length := TrimmedLength(sql);
    var acc := sql[0..a];
    CopiedHead(sql, length, cs, a);
    CommentStep(sql, length, cs, a, acc);
    assert acc + [] == acc;
    StepThenRest(sql, length, cs, a, acc, [], b);
    if 0 < a {
      assert acc[a - 1] == sql[a - 1];
    }
    CopiedRun(sql, length, cs, b, length, acc);
    assert acc == sql[..a];
    PassCompletes(sql, cs, acc + sql[b..length]);
  }

  // ------------------------------------------------------------ IN lists

  /** The keyword IN in place hands over to the argument list after it. */
  lemma InStepAt(sql: Bytes, length: nat, cs: Charset, i: nat, acc: Bytes)
    requires i < length <= |sql| && InAt(sql, length, i)
    ensures MainStep(sql, length, cs, i, acc) == InStep(sql, cs, i + 2)
  {
    assert sql[i - 1..i + 2][1] == sql[i];
  }

  /** What IN and a list that opens with a literal become. */
  function InLiteralPiece(kind: GType): Bytes
  {
    if kind == GenericInt then "IN(1) " else "IN('s') "
  }

  /**
   * A statement that is plain text around IN and a list that opens with a
   * number or a string literal has that text, with the keyword and the
   * whole list replaced by IN(1) or IN('s') and a space, as its
   * fingerprint, whatever the list holds and however long it is.
   */
  lemma InListErased(sql: Bytes, cs: Charset, i: nat)
    requires TrimmedLength(sql) <= |sql| && InAt(sql, TrimmedLength(sql), i)
    requires ArgListEnd(sql[i + 2..], cs).1 != GenericNone
    requires PlainOutside(sql, i, i + 2 + ArgListEnd(sql[i + 2..], cs).0)
    ensures var q := i + 2 + ArgListEnd(sql[i + 2..], cs).0;
      Finger(sql, cs) == Some(sql[..i] + InLiteralPiece(ArgListEnd(sql[i + 2..], cs).1) +
                              (if q < TrimmedLength(sql) then sql[q..TrimmedLength(sql)] else []))
  {
    var q, piece := InLiteralStep(sql, cs, i);
    InStepAt(sql, TrimmedLength(sql), cs, i, sql[..i]);
    LiteralRunErased(sql, cs, i, piece, q);
  }

  /** IN and a list that opens with a literal: one step that writes IN(1) or IN('s') and a space. */
  lemma InLiteralStep(sql: Bytes, cs: Charset, i: nat) returns (q: nat, piece: Bytes)
    requires i + 2 <= |sql| && ArgListEnd(sql[i + 2..], cs).1 != GenericNone
    ensures q == i + 2 + ArgListEnd(sql[i + 2..], cs).0 && piece == InLiteralPiece(ArgListEnd(sql[i + 2..], cs).1)
    ensures q <= |sql| && (q < |sql| ==> sql[q] != ' ')
    ensures InStep(sql, cs, i + 2) == Some(Step(piece, q, false))
  {
    var a := ArgListEnd(sql[i + 2..], cs);
    q, piece := i + 2 + a.0, InLiteralPiece(a.1);
    InStepIsTail(sql, cs, i + 2, a.0, a.1);
    assert q < |sql| ==> sql[q] == sql[i + 2..][a.0];
  }

  /** Plain text around one step that writes piece and stops at q, which holds no blank. */
  lemma LiteralRunErased(sql: Bytes, cs: Charset, i: nat, piece: Bytes, q: nat)
    requires i < TrimmedLength(sql) <= |sql| && q <= |sql| && (q < |sql| ==> sql[q] != ' ')
    requires MainStep(sql, TrimmedLength(sql), cs, i, sql[..i]) == Some(Step(piece, q, false))
    requires PlainOutside(sql, i, q) && i < q
    ensures Finger(sql, cs) == Some(sql[..i] + piece + (if q < TrimmedLength(sql) then sql[q..TrimmedLength(sql)] else []))
  {
    var length := TrimmedLength(sql);
    if q <= length {
      StepErased(sql, cs, i, piece, q);
    } else {
      StepThenRest(sql, length, cs, i, sql[..i], piece, q);
      RunErased(sql, cs, i, piece, length);
      assert sql[length..length] == [];
    }
  }

  /**
   * After IN and blanks, a group whose first element is no literal makes
   * toArgListEnd stop at the group's '(' with GenericNone.
   */
  lemma ArgListAtGroup(sql: Bytes, cs: Charset, i: nat, p: nat, es: seq<Elem>)
    requires i + 2 <= p <= |sql| && (forall k :: i + 2 <= k < p ==> sql[k] == ' ')
    requires GroupAt(sql, p, es)
    requires ArgListEnd(sql[i + 2..], cs).1 == GenericNone
    ensures ArgListEnd(sql[i + 2..], cs) == (p - (i + 2), GenericNone)
  {
    var t := sql[i + 2..];
    var o := p - (i + 2);
    var close := o + 1 + ElemsWidth(es);
    assert t[o] == '(' && t[close] == ')';
    SpaceEndIs(t, 0, o);
    var j := SpaceEnd(t, o + 1);
    SpaceRun(t, o + 1);
    assert j <= close;
  }

  /**
   * A statement that is plain text around IN and a list of groups whose
   * first group opens with no literal has that text, IN, the copy of the
   * first group and, when other groups follow, one space as its
   * fingerprint; the text after the list is copied.
   */
  lemma InGroupListErased(sql: Bytes, cs: Charset, i: nat, p: nat, es: seq<Elem>, rs: seq<Repeat>) returns (group: Bytes, e: nat)
    requires TrimmedLength(sql) <= |sql| && InAt(sql, TrimmedLength(sql), i)
    requires i + 2 <= p <= |sql| && (forall k :: i + 2 <= k < p ==> sql[k] == ' ')
    requires |es| > 0 && GroupAt(sql, p, es) && RepeatsAt(sql, p + GroupWidth(es), rs)
    requires ArgListEnd(sql[i + 2..], cs).1 == GenericNone
    requires var e := p + GroupWidth(es) + RepeatsWidth(rs);
      e <= TrimmedLength(sql) && (e < |sql| ==> !IsSep(sql[e])) && PlainOutside(sql, i, e)
    ensures group == GroupCopy(sql, p, es) && e == p + GroupWidth(es) + RepeatsWidth(rs)
    ensures Finger(sql, cs) == Some(sql[..i] + "IN" + group + (if |rs| > 0 then " " else "") + sql[e..TrimmedLength(sql)])
  {
    group, e := GroupListEnd(sql, cs, p, es, rs);
    ArgListAtGroup(sql, cs, i, p, es);
    InListRunErased(sql, cs, i, p, group, |rs| > 0, e);
  }

  /** The IN step over a list that toValueListEnd ends at j, between plain text. */
  lemma InListRunErased(sql: Bytes, cs: Charset, i: nat, p: nat, out: Bytes, moved: bool, j: nat)
    requires TrimmedLength(sql) <= |sql| && InAt(sql, TrimmedLength(sql), i)
    requires i + 2 <= p <= |sql| && ArgListEnd(sql[i + 2..], cs) == (p - (i + 2), GenericNone)
    requires ValueListEnd(sql, cs, p) == Some(Emit(if moved then out + " " else out, j))
    requires i < j <= TrimmedLength(sql) && (j < |sql| ==> !IsSep(sql[j])) && PlainOutside(sql, i, j)
    ensures Finger(sql, cs) == Some(sql[..i] + "IN" + out + (if moved then " " else "") + sql[j..TrimmedLength(sql)])
  {
    InStepAt(sql, TrimmedLength(sql), cs, i, sql[..i]);
    InStepToList(sql, cs, i, p);
    ListStepOf(sql, cs, "IN", p, out, moved, j);
    StepErased(sql, cs, i, "IN" + out + (if moved then " " else ""), j);
    Regroup(sql[..i], "IN", out, if moved then " " else "", sql[j..TrimmedLength(sql)]);
  }

  lemma Regroup(a: Bytes, b: Bytes, c: Bytes, d: Bytes, f: Bytes)
    ensures a + (b + c + d) + f == a + b + c + d + f
  {
  }

  /**
   * Plain text, one step of the main pass from i to e that writes piece, and
   * plain text again: the fingerprint is the first text, piece and the
   * second text.
   */
  lemma StepErased(sql: Bytes, cs: Charset, i: nat, piece: Bytes, e: nat)
    requires i < e <= TrimmedLength(sql)
    requires MainStep(sql, TrimmedLength(sql), cs, i, sql[..i]) == Some(Step(piece, e, false))
    requires PlainOutside(sql, i, e)
    requires e < TrimmedLength(sql) && sql[e] == ' ' ==> |sql[..i] + piece| > 0 && !EndsWithSpace(sql[..i] + piece)
    ensures Finger(sql, cs) == Some(sql[..i] + piece + sql[e..TrimmedLength(sql)])
  {
    StepThenRest(sql, TrimmedLength(sql), cs, i, sql[..i], piece, e);
    RunErased(sql, cs, i, piece, e);
  }

  /**
   * Plain text, a run of the main pass from i to e that writes piece, and
   * plain text again: the fingerprint is the first text, piece and the
   * second text.
   */
  lemma RunErased(sql: Bytes, cs: Charset, i: nat, piece: Bytes, e: nat)
    requires i < e <= TrimmedLength(sql)
    requires Resume(sql, TrimmedLength(sql), cs, i, sql[..i]) == Resume(sql, TrimmedLength(sql), cs, e, sql[..i] + piece)
    requires PlainOutside(sql, i, e)
    requires e < TrimmedLength(sql) && sql[e] == ' ' ==> |sql[..i] + piece| > 0 && !EndsWithSpace(sql[..i] + piece)
    ensures Finger(sql, cs) == Some(sql[..i] + piece + sql[e..TrimmedLength(sql)])
  {
    var length := TrimmedLength(sql);
    forall k | 0 < k < i || e < k < length
      ensures !(sql[k - 1] == ' ' && sql[k] == ' ')
    {
      assert !SpacePairAt(sql, k);
    }
    CopiedHead(sql, length, cs, i);
    assert sql[0..i] == sql[..i];
    CopiedRun(sql, length, cs, e, length, sql[..i] + piece);
    PassCompletes(sql, cs, sql[..i] + piece + sql[e..length]);
  }

  /** An argument list that stops at p with GenericNone hands over to the value list at p. */
  lemma InStepToList(sql: Bytes, cs: Charset, i: nat, p: nat)
    requires i + 2 <= p <= |sql| && ArgListEnd(sql[i + 2..], cs) == (p - (i + 2), GenericNone)
    ensures InStep(sql, cs, i + 2) == ListStep(sql, cs, "IN", p)
  {
    assert InStep(sql, cs, i + 2) == InTail(sql, cs, p, GenericNone);
  }

  /** toValueListEnd on a list of groups that starts at its first '('. */
  lemma GroupListEnd(sql: Bytes, cs: Charset, p: nat, es: seq<Elem>, rs: seq<Repeat>) returns (out: Bytes, j: nat)
    requires p <= |sql| && |es| > 0 && GroupAt(sql, p, es) && RepeatsAt(sql, p + GroupWidth(es), rs)
    requires var e := p + GroupWidth(es) + RepeatsWidth(rs); e <= |sql| && (e < |sql| ==> !IsSep(sql[e]))
    ensures out == GroupCopy(sql, p, es) && j == p + GroupWidth(es) + RepeatsWidth(rs)
    ensures ValueListEnd(sql, cs, p) == Some(Emit(if |rs| > 0 then out + " " else out, j))
  {
    var q;
    out, q, j := ValueListAt(sql, cs, p, p, es, rs);
    RepeatsWidthPositive(rs);
  }

  /**
   * The byte at k starts nothing: it is no quote, digit, '.', tab or '/',
   * and no I or V followed by an N or an A.
   */
  predicate Inert(sql: Bytes, k: nat)
    requires k < |sql|
  {
    && !IsLiteralQuote(sql[k]) && !IsDigit(sql[k]) && sql[k] != '.' && sql[k] != '\t' && sql[k] != '/'
    && !(UpperByte(sql[k]) in "IV" && k + 1 < |sql| && UpperByte(sql[k + 1]) in "NA")
  }

  /** IN and VALUES at k begin with I followed by N, and with V followed by A. */
  lemma KeywordLetters(sql: Bytes, length: nat, k: nat)
    requires k < length <= |sql|
    ensures InAt(sql, length, k) ==> UpperByte(sql[k]) == 'I' && UpperByte(sql[k + 1]) == 'N'
    ensures ValuesAt(sql, length, k) ==> UpperByte(sql[k]) == 'V' && UpperByte(sql[k + 1]) == 'A'
  {
    if k > 0 && k + 6 < |sql| {
      var w := sql[k - 1..k + 6];
      assert w[1] == sql[k] && w[2] == sql[k + 1];
    }
    if k > 0 && k + 2 < |sql| {
      var w := sql[k - 1..k + 2];
      assert w[1] == sql[k] && w[2] == sql[k + 1];
    }
  }

  lemma InertCopied(sql: Bytes, length: nat, k: nat)
    requires k < length <= |sql| && Inert(sql, k)
    ensures CopiedAt(sql, length, k)
  {
    KeywordLetters(sql, length, k);
  }

  /** Bytes i up to j of sql start nothing, so a pass over them copies each. */
  lemma InertRun(sql: Bytes, length: nat, i: nat, j: nat)
    requires i <= j <= length <= |sql|
    requires forall k :: i <= k < j ==> Inert(sql, k)
    ensures forall k :: i <= k < j ==> CopiedAt(sql, length, k)
  {
    forall k | i <= k < j
      ensures CopiedAt(sql, length, k)
    {
      InertCopied(sql, length, k);
    }
  }

  lemma SelectHeadInert(sql: Bytes)
    requires sql == "select * from t where id=123 and name='bob'"
    ensures forall k :: 0 <= k < 25 ==> Inert(sql, k)
  {
  }

  lemma SelectMiddleInert(sql: Bytes)
    requires sql == "select * from t where id=123 and name='bob'"
    ensures forall k :: 28 <= k < 38 ==> Inert(sql, k)
  {
  }

  lemma SelectSpacing(sql: Bytes)
    requires sql == "select * from t where id=123 and name='bob'"
    ensures TrimmedLength(sql) == 43
    ensures forall k :: 0 < k < 43 ==> !(sql[k - 1] == ' ' && sql[k] == ' ')
  {
    assert !IsSpace(sql[42]);
  }

  lemma SelectShape(sql: Bytes)
    requires sql == "select * from t where id=123 and name='bob'"
    ensures TrimmedLength(sql) == 43
    ensures forall k :: 0 <= k < 25 ==> CopiedAt(sql, TrimmedLength(sql), k)
    ensures forall k :: 28 <= k < 38 ==> CopiedAt(sql, TrimmedLength(sql), k)
    ensures forall k :: 0 < k < TrimmedLength(sql) ==> !(sql[k - 1] == ' ' && sql[k] == ' ')
  {
    SelectSpacing(sql);
    SelectHeadInert(sql);
    InertRun(sql, 43, 0, 25);
    SelectMiddleInert(sql);
    InertRun(sql, 43, 28, 38);
  }

  lemma SelectPieces(sql: Bytes)
    requires sql == "select * from t where id=123 and name='bob'"
    ensures sql[0..25] == "select * from t where id=" && sql[28..38] == " and name="
    ensures forall k :: 25 <= k < 28 ==> IsDigit(sql[k])
    ensures !IsDigit(sql[28]) && sql[28] != '.' && sql[28] != 'x' && sql[28] != 'X'
    ensures IsLiteralQuote(sql[38]) && sql[42] == sql[38]
    ensures forall k :: 38 < k < 42 ==> SimpleBodyByte(sql[k], sql[38])
  {
  }

  /**
   * A statement made of plain text, a digit run, plain text and a simple
   * string literal has the two texts, 1 and 's' as its fingerprint.
   */
  lemma NumberThenLiteralErased(sql: Bytes, cs: Charset, a: nat, b: nat, c: nat)
    requires a < b <= c && c + 2 <= TrimmedLength(sql)
    requires forall k :: 0 <= k < a ==> CopiedAt(sql, TrimmedLength(sql), k)
    requires forall k :: b <= k < c ==> CopiedAt(sql, TrimmedLength(sql), k)
    requires forall k :: 0 < k < TrimmedLength(sql) ==> !(sql[k - 1] == ' ' && sql[k] == ' ')
    requires 0 < a ==> sql[0] != ' '
    requires forall k :: a <= k < b ==> IsDigit(sql[k])
    requires !IsDigit(sql[b]) && sql[b] != '.' && sql[b] != 'x' && sql[b] != 'X'
    requires IsLiteralQuote(sql[c]) && sql[TrimmedLength(sql) - 1] == sql[c]
    requires forall k :: c < k < TrimmedLength(sql) - 1 ==> SimpleBodyByte(sql[k], sql[c])
    ensures Finger(sql, cs) == Some(sql[0..a] + "1" + sql[b..c] + "'s'")
  {
    var length := TrimmedLength(sql);
    CopiedHead(sql, length, cs, a);
    var m := NumberThenCopied(sql, length, cs, a, b, c, sql[0..a]);
    LiteralSkipped(sql, length, cs, c, length, m);
    PassCompletes(sql, cs, m + "'s'");
  }

  /** The pass over a leading run of bytes that start nothing copies them. */
  lemma CopiedHead(sql: Bytes, length: nat, cs: Charset, a: nat)
    requires a <= length <= |sql|
    requires forall k :: 0 <= k < a ==> CopiedAt(sql, length, k)
    requires forall k :: 0 < k < a ==> !(sql[k - 1] == ' ' && sql[k] == ' ')
    requires 0 < a ==> sql[0] != ' '
    ensures Resume(sql, length, cs, 0, []) == Resume(sql, length, cs, a, sql[0..a])
  {
    CopiedRun(sql, length, cs, 0, a, []);
    assert [] + sql[0..a] == sql[0..a];
  }

  /** A digit run from a to b becomes 1, then bytes b up to c that start nothing are copied. */
  lemma NumberThenCopied(sql: Bytes, length: nat, cs: Charset, a: nat, b: nat, c: nat, h: Bytes) returns (m: Bytes)
    requires a < b <= c <= length <= |sql|
    requires forall k :: a <= k < b ==> IsDigit(sql[k])
    requires b == |sql| || (!IsDigit(sql[b]) && sql[b] != '.' && sql[b] != 'x' && sql[b] != 'X')
    requires forall k :: b <= k < c ==> CopiedAt(sql, length, k)
    requires forall k :: b < k < c ==> !(sql[k - 1] == ' ' && sql[k] == ' ')
    ensures m == h + "1" + sql[b..c]
    ensures Resume(sql, length, cs, a, h) == Resume(sql, length, cs, c, m)
  {
    DigitsSkipped(sql, length, cs, a, b - a, h);
    CopiedAfterOne(sql, length, cs, b, c, h);
    m := h + "1" + sql[b..c];
  }

  /** After the 1 a number wrote, a run of bytes that start nothing is copied. */
  lemma CopiedAfterOne(sql: Bytes, length: nat, cs: Charset, b: nat, c: nat, h: Bytes)
    requires b <= c <= length <= |sql|
    requires forall k :: b <= k < c ==> CopiedAt(sql, length, k)
    requires forall k :: b < k < c ==> !(sql[k - 1] == ' ' && sql[k] == ' ')
    ensures Resume(sql, length, cs, b, h + "1") == Resume(sql, length, cs, c, h + "1" + sql[b..c])
  {
    var h1: Bytes := h + "1";
    assert h1[|h1| - 1] == '1';
    CopiedRun(sql, length, cs, b, c, h1);
  }

  lemma SelectFinger(sql: Bytes, cs: Charset)
    requires sql == "select * from t where id=123 and name='bob'"
    ensures Finger(sql, cs) == Some("select * from t where id=1 and name='s'")
  {
    SelectShape(sql);
    SelectPieces(sql);
    NumberThenLiteralErased(sql, cs, 25, 28, 38);
    SelectOutput(sql[0..25], sql[28..38]);
  }

  lemma SelectOutput(head: Bytes, middle: Bytes)
    requires head == "select * from t where id=" && middle == " and name="
    ensures head + "1" + middle + "'s'" == "select * from t where id=1 and name='s'"
  {
  }

  lemma SelectUpper(f: Bytes)
    requires f == "select * from t where id=1 and name='s'"
    ensures Upper(f) == "SELECT * FROM T WHERE ID=1 AND NAME='S'"
  {
    var a: Bytes, b: Bytes, c: Bytes := "select * from t ", "where id=1 ", "and name='s'";
    SelectWords(f, a, b, c);
    UpperAppend3(a, b, c);
    SelectUpperHead(a);
    SelectUpperMiddle(b);
    SelectUpperTail(c);
  }

  lemma SelectWords(f: Bytes, a: Bytes, b: Bytes, c: Bytes)
    requires f == "select * from t where id=1 and name='s'"
    requires a == "select * from t " && b == "where id=1 " && c == "and name='s'"
    ensures f == a + b + c
    ensures "SELECT * FROM T " + "WHERE ID=1 " + "AND NAME='S'" == "SELECT * FROM T WHERE ID=1 AND NAME='S'"
  {
  }

  lemma SelectUpperHead(a: Bytes)
    requires a == "select * from t "
    ensures Upper(a) == "SELECT * FROM T "
  {
  }

  lemma SelectUpperMiddle(b: Bytes)
    requires b == "where id=1 "
    ensures Upper(b) == "WHERE ID=1 "
  {
  }

  lemma SelectUpperTail(c: Bytes)
    requires c == "and name='s'"
    ensures Upper(c) == "AND NAME='S'"
  {
  }

  lemma SelectNoShowNoInsert(u: Bytes)
    requires u == "SELECT * FROM T WHERE ID=1 AND NAME='S'"
    ensures HasPrefix(u, "SELECT")
    ensures forall k :: 0 < k < |u| ==> !(u[k - 1] == 'S' && u[k] == 'H')
    ensures forall k :: 0 < k < |u| ==> !(u[k - 1] == 'I' && u[k] == 'N')
  {
    assert u[..6] == "SELECT";
  }

  lemma SelectTag(f: Bytes)
    requires f == "select * from t where id=1 and name='s'"
    ensures Classify(Upper(f)) == "SQLCOM_SELECT"
  {
    var u := Upper(f);
    SelectUpper(f);
    SelectNoShowNoInsert(u);
    PairAbsentNoOccurrence(u, "SHOW");
    PairAbsentNoOccurrence(u, "INSERT");
    SelectTagged(u);
  }

  /**
   * The number and the string literal of a SELECT are replaced, and the
   * fingerprint is tagged as a SELECT.
   */
  lemma SelectLiteralsErased(sql: Bytes, cs: Charset)
    requires sql == "select * from t where id=123 and name='bob'"
    ensures Finger(sql, cs) == Some("select * from t where id=1 and name='s'")
    ensures Classify(Upper(Finger(sql, cs).value)) == "SQLCOM_SELECT"
  {
    SelectFinger(sql, cs);
    SelectTag(Finger(sql, cs).value);
  }

  /** A pass that reaches the end of the statement with output out and no hint opener gives out. */
  lemma PassCompletes(sql: Bytes, cs: Charset, out: Bytes)
    requires Resume(sql, TrimmedLength(sql), cs, 0, []) == Resume(sql, TrimmedLength(sql), cs, TrimmedLength(sql), out)
    ensures Finger(sql, cs) == Some(out)
  {
  }

  /** The head both INSERT examples share: INSERT INTO t, then VALUES at 14 and a blank. */
  lemma InsertHead(sql: Bytes)
    requires 22 < |sql| && sql[..21] == "INSERT INTO t VALUES "
    ensures ValuesAt(sql, |sql|, 14) && SpacesIn(sql, 20, 21) && sql[0] != ' '
    ensures forall k :: 0 <= k < 14 ==> CopiedAt(sql, |sql|, k)
    ensures forall k :: 0 < k < 14 ==> !(sql[k - 1] == ' ' && sql[k] == ' ')
  {
    var h := sql[..21];
    assert forall k :: 0 <= k < 21 ==> sql[k] == h[k];
    assert sql[13..20] == h[13..20];
    forall k | 0 <= k < 14
      ensures CopiedAt(sql, |sql|, k)
    {
      if k != 0 && k != 7 {
        assert Inert(sql, k);
        InertCopied(sql, |sql|, k);
      } else {
        assert sql[k + 2] == 'S' || sql[k + 2] == 'T';
      }
    }
  }

  /** The row (d,d) of one-digit numbers. */
  function PairRow(): seq<Elem>
  {
    [Num(1), Sym, Num(1)]
  }

  lemma PairRowWidth()
    ensures GroupWidth(PairRow()) == 5
  {
    var es := PairRow();
    assert ElemsWidth(es[3..]) == 0 && ElemsWidth(es[2..]) == 1 && ElemsWidth(es[1..]) == 2;
  }

  /** A row (d,d) of one-digit numbers stands at p and is copied as (1,1). */
  lemma PairRowAt(sql: Bytes, p: nat)
    requires p + 5 <= |sql| && sql[p] == '(' && IsDigit(sql[p + 1]) && sql[p + 2] == ','
    requires IsDigit(sql[p + 3]) && sql[p + 4] == ')'
    ensures GroupAt(sql, p, PairRow()) && GroupWidth(PairRow()) == 5
    ensures GroupCopy(sql, p, PairRow()) == "(1,1)"
  {
    var es := PairRow();
    assert ElemsAt(sql, p + 4, es[3..]);
    assert ElemsAt(sql, p + 3, es[2..]);
    assert ElemsAt(sql, p + 2, es[1..]);
    assert ElemsWidth(es[3..]) == 0 && ElemsWidth(es[2..]) == 1 && ElemsWidth(es[1..]) == 2;
    assert ElemsCopy(sql, p + 4, es[3..]) == [];
    assert ElemsCopy(sql, p + 3, es[2..]) == "1";
    assert ElemsCopy(sql, p + 2, es[1..]) == ",1";
  }

  /** A comma and a row (d,d) of one-digit numbers repeat that row. */
  lemma PairRepeatAt(sql: Bytes, j: nat)
    requires j + 6 <= |sql| && sql[j] == ',' && sql[j + 1] == '(' && IsDigit(sql[j + 2]) && sql[j + 3] == ','
    requires IsDigit(sql[j + 4]) && sql[j + 5] == ')'
    ensures RepeatAt(sql, j, Repeat(1, PairRow())) && RepeatWidth(Repeat(1, PairRow())) == 6
  {
    PairRowAt(sql, j + 1);
    assert SepsIn(sql, j, j + 1);
  }

  lemma InsertTwoRows(sql: Bytes)
    requires sql == "INSERT INTO t VALUES (1,2),(3,4)"
    ensures TrimmedLength(sql) == |sql| == 32 && sql[..21] == "INSERT INTO t VALUES "
    ensures GroupAt(sql, 21, PairRow()) && GroupCopy(sql, 21, PairRow()) == "(1,1)"
    ensures RepeatsAt(sql, 26, [Repeat(1, PairRow())])
    ensures 21 + GroupWidth(PairRow()) + RepeatsWidth([Repeat(1, PairRow())]) == |sql|
  {
    assert !IsSpace(sql[31]);
    PairRowAt(sql, 21);
    PairRepeatAt(sql, 26);
    var rs := [Repeat(1, PairRow())];
    assert RepeatsAt(sql, 32, rs[1..]);
  }

  lemma InsertThreeRows(sql: Bytes)
    requires sql == "INSERT INTO t VALUES (9,9),(8,8),(7,7)"
    ensures TrimmedLength(sql) == |sql| == 38 && sql[..21] == "INSERT INTO t VALUES "
    ensures GroupAt(sql, 21, PairRow()) && GroupCopy(sql, 21, PairRow()) == "(1,1)"
    ensures RepeatAt(sql, 26, Repeat(1, PairRow())) && RepeatAt(sql, 32, Repeat(1, PairRow()))
  {
    assert !IsSpace(sql[37]);
    PairRowAt(sql, 21);
    PairRepeatAt(sql, 26);
    PairRepeatAt(sql, 32);
  }

  /** Two repeated rows (d,d) after the first fill the statement up to its end. */
  lemma TwoPairRepeats(sql: Bytes)
    requires |sql| == 38 && RepeatAt(sql, 26, Repeat(1, PairRow())) && RepeatAt(sql, 32, Repeat(1, PairRow()))
    ensures RepeatsAt(sql, 26, [Repeat(1, PairRow()), Repeat(1, PairRow())])
    ensures 21 + GroupWidth(PairRow()) + RepeatsWidth([Repeat(1, PairRow()), Repeat(1, PairRow())]) == |sql|
  {
    var rs := [Repeat(1, PairRow()), Repeat(1, PairRow())];
    PairRowWidth();
    assert RepeatWidth(rs[0]) == 6;
    assert RepeatsAt(sql, 38, rs[2..]);
    assert RepeatsAt(sql, 32, rs[1..]);
  }

  lemma InsertUpper(f: Bytes)
    requires f == "INSERT INTO t VALUES(1,1) "
    ensures Upper(f) == "INSERT INTO T VALUES(1,1) "
  {
  }

  lemma InsertLetters(u: Bytes)
    requires u == "INSERT INTO T VALUES(1,1) "
    ensures HasPrefix(u, "INSERT") && 'H' !in u && 'C' !in u
  {
    assert u[..6] == "INSERT";
  }

  lemma InsertTag(f: Bytes)
    requires f == "INSERT INTO t VALUES(1,1) "
    ensures Classify(Upper(f)) == "SQLCOM_INSERT"
  {
    var u := Upper(f);
    InsertUpper(f);
    InsertLetters(u);
    AbsentByteNoOccurrence(u, "SHOW", 1);
    AbsentByteNoOccurrence(u, "SELECT", 4);
    InsertTagged(u);
  }

  lemma InsertOutput(h: Bytes)
    requires h == "INSERT INTO t "
    ensures h + "VALUES" + "(1,1)" + " " == "INSERT INTO t VALUES(1,1) "
  {
  }

  lemma InsertTwoRowsFinger(sql: Bytes, cs: Charset)
    requires sql == "INSERT INTO t VALUES (1,2),(3,4)"
    ensures Finger(sql, cs) == Some("INSERT INTO t VALUES(1,1) ")
  {
    InsertTwoRows(sql);
    InsertHead(sql);
    ValuesListErased(sql, cs, 14, 21, PairRow(), [Repeat(1, PairRow())]);
    assert sql[0..14] == sql[..21][..14];
    InsertOutput(sql[0..14]);
  }

  lemma InsertThreeRowsFinger(sql: Bytes, cs: Charset)
    requires sql == "INSERT INTO t VALUES (9,9),(8,8),(7,7)"
    ensures Finger(sql, cs) == Some("INSERT INTO t VALUES(1,1) ")
  {
    InsertThreeRows(sql);
    TwoPairRepeats(sql);
    InsertHead(sql);
    ValuesListErased(sql, cs, 14, 21, PairRow(), [Repeat(1, PairRow()), Repeat(1, PairRow())]);
    assert sql[0..14] == sql[..21][..14];
    InsertOutput(sql[0..14]);
  }

  /**
   * Two INSERT statements that differ in the number of rows and in their
   * values share one fingerprint, which keeps the first row with its
   * numbers replaced, and both are tagged as an INSERT.
   */
  lemma InsertRowsShareFinger(s2: Bytes, s3: Bytes, cs: Charset)
    requires s2 == "INSERT INTO t VALUES (1,2),(3,4)"
    requires s3 == "INSERT INTO t VALUES (9,9),(8,8),(7,7)"
    ensures Finger(s2, cs) == Finger(s3, cs) == Some("INSERT INTO t VALUES(1,1) ")
    ensures Classify(Upper(Finger(s2, cs).value)) == "SQLCOM_INSERT"
  {
    InsertTwoRowsFinger(s2, cs);
    InsertThreeRowsFinger(s3, cs);
    InsertTag(Finger(s2, cs).value);
  }

  /** The hint markers go, and the space that followed the marker is kept once. */
  lemma HintMarkersRemoved(src: Bytes)
    requires src == "/*!1 X */ Y"
    ensures HintPass(src) == " X Y"
  {
    assert HintFrom(src, 0, false, []) == HintFrom(src, 4, true, []);
    assert HintFrom(src, 4, true, []) == HintFrom(src, 5, true, [] + [src[4]]);
    assert [] + [src[4]] == " ";
    assert HintFrom(src, 5, true, " ") == HintFrom(src, 6, true, " " + [src[5]]);
    assert " " + [src[5]] == " X";
    assert HintFrom(src, 6, true, " X") == HintFrom(src, 7, true, " X" + [src[6]]);
    assert " X" + [src[6]] == " X ";
    assert HintFrom(src, 7, true, " X ") == HintFrom(src, 9, false, " X ");
    assert HintFrom(src, 9, false, " X ") == HintFrom(src, 10, false, " X ");
    assert HintFrom(src, 10, false, " X ") == HintFrom(src, 11, false, " X " + [src[10]]);
    assert " X " + [src[10]] == " X Y";
  }

  lemma TrailingBlankList(sql: Bytes)
    requires sql == "a VALUES (1) "
    ensures ValueListEnd(sql, Latin1, 8) == None
  {
    assert WhiteEnd(sql, 8) == 9;
    OneDigitNumber(sql[10..]);
    assert GroupItem(sql, Latin1, 10) == ("1", 11, 0);
    assert FirstGroup(sql, Latin1, 10) == Emit("1)", 12) by {
      assert "1" + [')'] == "1)";
    }
    assert FirstGroup(sql, Latin1, 9) == Emit("(1)", 12) by {
      assert GroupItem(sql, Latin1, 9) == ("(", 10, 1);
      assert "(" + "1)" == "(1)";
    }
    assert SepEnd(sql, 12) == 13;
  }

  lemma TrailingBlankStep(sql: Bytes)
    requires sql == "a VALUES (1) "
    ensures MainStep(sql, 12, Latin1, 2, "a ") == None
  {
    assert ValuesAt(sql, 12, 2);
    TrailingBlankList(sql);
  }

  lemma TrailingBlankTrimmed(sql: Bytes)
    requires sql == "a VALUES (1) "
    ensures TrimmedLength(sql) == 12
  {
    assert !IsSpace(sql[11]) && TrimTo(sql, 12) == 12;
    assert IsSpace(sql[12]) && TrimTo(sql, 13) == TrimTo(sql, 12);
  }

  lemma TrailingBlankPrefix(sql: Bytes)
    requires sql == "a VALUES (1) "
    ensures MainFrom(sql, 12, Latin1, 0, [], false) == MainFrom(sql, 12, Latin1, 2, "a ", false)
  {
    assert MainStep(sql, 12, Latin1, 0, []) == Some(Step([sql[0]], 1, false));
    assert [] + [sql[0]] == "a";
    assert MainStep(sql, 12, Latin1, 1, "a") == Some(Step(" ", 2, false));
    assert "a" + " " == "a ";
  }

  /** A VALUES list followed only by a blank reads past the end of the statement. */
  lemma TrailingBlankAfterValues(sql: Bytes)
    requires sql == "a VALUES (1) "
    ensures Finger(sql, Latin1) == None
  {
    TrailingBlankTrimmed(sql);
    TrailingBlankPrefix(sql);
    TrailingBlankStep(sql);
  }

  // ------------------------------------------ blanks before IN, a second pass

  /** " (1)" after IN is an integer argument list that runs to the end. */
  lemma SpacedIntArgs(t: Bytes)
    requires t == " (1)"
    ensures ArgListEnd(t, Latin1) == (4, GenericInt)
  {
    assert SpaceEnd(t, 0) == 1 && SpaceEnd(t, 2) == 2;
    var u := t[1..];
    assert u == "(1)" && SpaceEnd(u, 0) == 0;
    CloseParenIs(u, Latin1, 0, 2);
    assert ValueEnd(u, Latin1) == 3;
    assert ArgTail(t, Latin1, 4) == 4;
  }

  lemma SpacedInTrimmed(sql: Bytes)
    requires sql == "a IN (1)"
    ensures TrimmedLength(sql) == 8
  {
    assert !IsSpace(sql[7]) && TrimTo(sql, 8) == 8;
  }

  /** "a IN (1)": IN after a space with an integer list becomes IN(1) and a space. */
  lemma SpacedInFinger(sql: Bytes)
    requires sql == "a IN (1)"
    ensures Finger(sql, Latin1) == Some("a IN(1) ")
  {
    SpacedInTrimmed(sql);
    assert InAt(sql, 8, 2) && sql[1..4][1] == sql[2];
    assert sql[4..] == " (1)";
    SpacedIntArgs(sql[4..]);
    InertRun(sql, 8, 0, 2);
    InListErased(sql, Latin1, 2);
    assert sql[..2] + InLiteralPiece(GenericInt) + [] == "a IN(1) ";
  }

  lemma TabbedInHead(sql: Bytes)
    requires sql == "a \tIN (1)"
    ensures TrimmedLength(sql) == 9
    ensures MainStep(sql, 9, Latin1, 0, []) == Some(Step("a", 1, false))
    ensures MainStep(sql, 9, Latin1, 1, "a") == Some(Step(" ", 2, false))
    ensures MainStep(sql, 9, Latin1, 2, "a ") == Some(Step([], 3, false))
    ensures MainStep(sql, 9, Latin1, 3, "a ") == Some(Step("I", 4, false))
    ensures MainStep(sql, 9, Latin1, 4, "a I") == Some(Step("N", 5, false))
  {
    TabbedInTrimmed(sql);
    assert !InAt(sql, 9, 3) by {
      assert UpperByte(sql[2..5][0]) != UpperByte(" IN"[0]);
    }
    assert !InAt(sql, 9, 4) by {
      assert UpperByte(sql[3..6][0]) != UpperByte(" IN"[0]);
    }
  }

  lemma TabbedInTrimmed(sql: Bytes)
    requires sql == "a \tIN (1)"
    ensures TrimmedLength(sql) == 9
  {
    assert !IsSpace(sql[8]) && TrimTo(sql, 9) == 9;
  }

  lemma TabbedInTail(sql: Bytes)
    requires sql == "a \tIN (1)"
    ensures MainStep(sql, 9, Latin1, 5, "a IN") == Some(Step(" ", 6, false))
    ensures MainStep(sql, 9, Latin1, 6, "a IN ") == Some(Step("(", 7, false))
    ensures MainStep(sql, 9, Latin1, 7, "a IN (") == Some(Step("1", 8, false))
    ensures MainStep(sql, 9, Latin1, 8, "a IN (1") == Some(Step(")", 9, false))
  {
    OneDigitNumber(sql[7..]);
    DigitStep(sql, 9, Latin1, 7, "a IN (", 8);
  }

  /**
   * "a \tIN (1)": the same statement with a tab before the space is not
   * recognised as an IN list, since IN must follow a space directly; its
   * fingerprint keeps the list.
   */
  lemma TabbedInPrefix(sql: Bytes)
    requires sql == "a \tIN (1)"
    ensures Resume(sql, 9, Latin1, 0, []) == Resume(sql, 9, Latin1, 5, "a IN")
  {
    TabbedInHead(sql);
    StepThenRest(sql, 9, Latin1, 0, [], "a", 1);
    assert [] + "a" == "a";
    StepThenRest(sql, 9, Latin1, 1, "a", " ", 2);
    assert "a" + " " == "a ";
    StepThenRest(sql, 9, Latin1, 2, "a ", [], 3);
    assert "a " + [] == "a ";
    StepThenRest(sql, 9, Latin1, 3, "a ", "I", 4);
    assert "a " + "I" == "a I";
    StepThenRest(sql, 9, Latin1, 4, "a I", "N", 5);
    assert "a I" + "N" == "a IN";
  }

  lemma TabbedInRest(sql: Bytes)
    requires sql == "a \tIN (1)"
    ensures Resume(sql, 9, Latin1, 5, "a IN") == Resume(sql, 9, Latin1, 9, "a IN (1)")
  {
    TabbedInTail(sql);
    StepThenRest(sql, 9, Latin1, 5, "a IN", " ", 6);
    assert "a IN" + " " == "a IN ";
    StepThenRest(sql, 9, Latin1, 6, "a IN ", "(", 7);
    assert "a IN " + "(" == "a IN (";
    StepThenRest(sql, 9, Latin1, 7, "a IN (", "1", 8);
    assert "a IN (" + "1" == "a IN (1";
    StepThenRest(sql, 9, Latin1, 8, "a IN (1", ")", 9);
    assert "a IN (1" + ")" == "a IN (1)";
  }

  /**
   * "a \tIN (1)": the same statement with a tab before the space is not
   * recognised as an IN list, since IN must follow a space directly; its
   * fingerprint keeps the list.
   */
  lemma TabbedInFinger(sql: Bytes)
    requires sql == "a \tIN (1)"
    ensures Finger(sql, Latin1) == Some("a IN (1)")
  {
    TabbedInHead(sql);
    TabbedInPrefix(sql);
    TabbedInRest(sql);
    PassCompletes(sql, Latin1, "a IN (1)");
  }

  /** Whether a blank before IN is a space or a tab changes the fingerprint. */
  lemma BlankBeforeInMatters(s1: Bytes, s2: Bytes)
    requires s1 == "a IN (1)" && s2 == "a \tIN (1)"
    ensures Finger(s1, Latin1) == Some("a IN(1) ")
    ensures Finger(s2, Latin1) == Some("a IN (1)")
  {
    SpacedInFinger(s1);
    TabbedInFinger(s2);
  }

  lemma NamedInTrimmed(sql: Bytes)
    requires sql == "a IN (b),(c)"
    ensures TrimmedLength(sql) == 12
  {
    assert !IsSpace(sql[11]) && TrimTo(sql, 12) == 12;
  }

  /** After IN, " (b),(c)" opens with no literal: the argument scan finds no list of literals. */
  lemma NamedInArgs(sql: Bytes)
    requires sql == "a IN (b),(c)"
    ensures InAt(sql, 12, 2) && ArgListEnd(sql[4..], Latin1).1 == GenericNone
  {
    assert InAt(sql, 12, 2) && sql[1..4][1] == sql[2];
    var t := sql[4..];
    assert t == " (b),(c)" && SpaceEnd(t, 0) == 1 && SpaceEnd(t, 2) == 2;
  }

  /** A group of one plain byte, such as (b), stands at p and is copied as it is. */
  lemma SymGroupAt(sql: Bytes, p: nat)
    requires p + 3 <= |sql| && sql[p] == '(' && sql[p + 2] == ')'
    requires !IsLiteralQuote(sql[p + 1]) && !IsDigit(sql[p + 1]) && !IsBlank(sql[p + 1])
    requires sql[p + 1] !in ".()"
    ensures GroupAt(sql, p, [Sym]) && GroupWidth([Sym]) == 3
    ensures GroupCopy(sql, p, [Sym]) == "(" + [sql[p + 1]] + ")"
  {
    var es := [Sym];
    assert ElemsAt(sql, p + 2, es[1..]);
    assert ElemsWidth(es[1..]) == 0;
    assert ElemsCopy(sql, p + 2, es[1..]) == [];
    assert ElemsCopy(sql, p + 1, es) == [sql[p + 1]];
  }

  lemma NamedInShape(sql: Bytes)
    requires sql == "a IN (b),(c)"
    ensures GroupAt(sql, 5, [Sym]) && GroupWidth([Sym]) == 3 && GroupCopy(sql, 5, [Sym]) == "(b)"
    ensures RepeatsAt(sql, 8, [Repeat(1, [Sym])]) && RepeatsWidth([Repeat(1, [Sym])]) == 4
  {
    SymGroupAt(sql, 5);
    SymGroupAt(sql, 9);
    var rs := [Repeat(1, [Sym])];
    assert SepsIn(sql, 8, 9) && RepeatAt(sql, 8, rs[0]) && RepeatWidth(rs[0]) == 4;
    assert RepeatsAt(sql, 12, rs[1..]);
  }

  /** "a IN (b),(c)": the list keeps its first group, and a space for the group after it. */
  lemma NamedInFinger(sql: Bytes)
    requires sql == "a IN (b),(c)"
    ensures Finger(sql, Latin1) == Some("a IN(b) ")
  {
    NamedInTrimmed(sql);
    NamedInArgs(sql);
    NamedInShape(sql);
    InertRun(sql, 12, 0, 2);
    assert PlainOutside(sql, 2, 12);
    var group, e := InGroupListErased(sql, Latin1, 2, 5, [Sym], [Repeat(1, [Sym])]);
    assert sql[..2] + "IN" + group + " " + sql[e..12] == "a IN(b) ";
  }

  /** The fingerprint "a IN(b) " ends its list with a blank the list scan reads past. */
  lemma NamedInAgainSteps(sql: Bytes)
    requires sql == "a IN(b) "
    ensures TrimmedLength(sql) == 7
    ensures MainStep(sql, 7, Latin1, 0, []) == Some(Step("a", 1, false))
    ensures MainStep(sql, 7, Latin1, 1, "a") == Some(Step(" ", 2, false))
    ensures MainStep(sql, 7, Latin1, 2, "a ") == None
  {
    assert !IsSpace(sql[6]) && TrimTo(sql, 7) == 7;
    assert IsSpace(sql[7]) && TrimTo(sql, 8) == TrimTo(sql, 7);
    NamedInAgainKeyword(sql);
  }

  lemma NamedInAgainKeyword(sql: Bytes)
    requires sql == "a IN(b) "
    ensures MainStep(sql, 7, Latin1, 2, "a ") == None
  {
    assert InAt(sql, 7, 2) && sql[1..4][1] == sql[2];
    var t := sql[4..];
    assert t == "(b) " && SpaceEnd(t, 0) == 0 && SpaceEnd(t, 1) == 1;
    assert ArgListEnd(t, Latin1) == (0, GenericNone);
    NamedInAgainList(sql);
  }

  lemma NamedInAgainList(sql: Bytes)
    requires sql == "a IN(b) "
    ensures ValueListEnd(sql, Latin1, 4) == None
  {
    assert WhiteEnd(sql, 4) == 4;
    assert GroupItem(sql, Latin1, 5) == ("b", 6, 0);
    assert FirstGroup(sql, Latin1, 5) == Emit("b)", 7) by {
      assert "b" + [')'] == "b)";
    }
    assert FirstGroup(sql, Latin1, 4) == Emit("(b)", 7) by {
      assert GroupItem(sql, Latin1, 4) == ("(", 5, 1);
      assert "(" + "b)" == "(b)";
    }
    assert SepEnd(sql, 7) == 8;
  }

  /**
   * The fingerprint is not idempotent: "a IN (b),(c)" becomes "a IN(b) ",
   * and that text, fingerprinted again, makes the list scan read past its
   * end.
   */
  lemma FingerNotIdempotent(s: Bytes, f: Bytes)
    requires s == "a IN (b),(c)" && f == "a IN(b) "
    ensures Finger(s, Latin1) == Some(f)
    ensures Finger(f, Latin1) == None
  {
    NamedInFinger(s);
    NamedInAgainSteps(f);
    StepThenRest(f, 7, Latin1, 0, [], "a", 1);
    assert [] + "a" == "a";
    StepThenRest(f, 7, Latin1, 1, "a", " ", 2);
    assert "a" + " " == "a ";
  }

  // ------------------------------------------------------------ the loops

  /** The number case of the main loop: skip the number at i and append its placeholder. */
  method NumberStepIn(sql: Bytes, i: nat, result: Bytes) returns (out: Bytes, next: nat)
    requires i < |sql|
    ensures next == i + NumberEnd(sql[i..])
    ensures out == result + NumberPlaceholder(sql, next)
  {
    var n := ToNumberEnd(sql[i..]);
    next := i + n;
    out := result;
    if next > 0 && sql[next - 1] == '.' {
      if next > 1 && IsDigit(sql[next - 2]) {
        out := out + "1";
      }
      out := out + ".";
    } else {
      out := out + "1";
    }
  }

  /** Append a keyword, then the value list at p as toValueListEnd writes it. */
  method ListStepIn(sql: Bytes, charset: Bytes, word: Bytes, p: nat, result: Bytes)
    returns (ok: bool, out: Bytes, next: nat)
    requires p <= |sql| && (word == "IN" || word == "VALUES")
    ensures ok == ListStep(sql, CharsetOf(charset), word, p).Some?
    ensures ok ==> out == result + ListStep(sql, CharsetOf(charset), word, p).value.piece
    ensures ok ==> next == ListStep(sql, CharsetOf(charset), word, p).value.next
  {
    out := result + word;
    ok, out, next := ToValueListEnd(sql, charset, p, out);
    assert ok ==> out == result + (word + ValueListEnd(sql, CharsetOf(charset), p).value.out);
  }

  /** The IN case of the main loop, from the byte after the keyword. */
  method InStepIn(sql: Bytes, charset: Bytes, p: nat, result: Bytes)
    returns (ok: bool, out: Bytes, next: nat)
    requires p <= |sql|
    ensures ok == InStep(sql, CharsetOf(charset), p).Some?
    ensures ok ==> out == result + InStep(sql, CharsetOf(charset), p).value.piece
    ensures ok ==> next == InStep(sql, CharsetOf(charset), p).value.next
  {
    var step, gtype := ToArgListEnd(sql[p..], charset);
    ghost var cs := CharsetOf(charset);
    InStepIsTail(sql, cs, p, step, gtype);
    ok, out, next := InTailIn(sql, charset, p + step, gtype, result);
  }

  lemma InStepIsTail(sql: Bytes, cs: Charset, p: nat, step: nat, gtype: GType)
    requires p <= |sql| && (step, gtype) == ArgListEnd(sql[p..], cs)
    ensures p + step <= |sql| && InStep(sql, cs, p) == InTail(sql, cs, p + step, gtype)
  {
  }

  /** The rest of the IN case, after the argument list. */
  method InTailIn(sql: Bytes, charset: Bytes, q: nat, gtype: GType, result: Bytes)
    returns (ok: bool, out: Bytes, next: nat)
    requires q <= |sql|
    ensures ok == InTail(sql, CharsetOf(charset), q, gtype).Some?
    ensures ok ==> out == result + InTail(sql, CharsetOf(charset), q, gtype).value.piece
    ensures ok ==> next == InTail(sql, CharsetOf(charset), q, gtype).value.next
  {
    if gtype == GenericInt {
      ok, out, next := true, result + "IN(1) ", q;
    } else if gtype == GenericString {
      ok, out, next := true, result + "IN('s') ", q;
    } else {
      ok, out, next := ListStepIn(sql, charset, "IN", q, result);
    }
  }

  /** One case of the main loop of GenerateFinger, appending to result as the source does. */
  method MainStepIn(sql: Bytes, length: nat, charset: Bytes, i: nat, result: Bytes)
    returns (ok: bool, out: Bytes, next: nat, hint: bool)
    requires i < length <= |sql|
    ensures ok == MainStep(sql, length, CharsetOf(charset), i, result).Some?
    ensures ok ==> out == result + MainStep(sql, length, CharsetOf(charset), i, result).value.piece
    ensures ok ==> next == MainStep(sql, length, CharsetOf(charset), i, result).value.next
    ensures ok ==> hint == MainStep(sql, length, CharsetOf(charset), i, result).value.hint
  {
    var c := sql[i];
    if c == '\'' || c == '"' || IsDigit(c) || c == '.' {
      ok, out, next, hint := LiteralStepIn(sql, length, charset, i, result);
    } else if c == 'I' || c == 'i' || c == 'V' || c == 'v' {
      ok, out, next, hint := KeywordStepIn(sql, length, charset, i, result);
    } else {
      ok, out, next, hint := OtherStepIn(sql, length, charset, i, result);
    }
  }

  /** The quote and number cases of the main loop. */
  method LiteralStepIn(sql: Bytes, length: nat, charset: Bytes, i: nat, result: Bytes)
    returns (ok: bool, out: Bytes, next: nat, hint: bool)
    requires i < length <= |sql|
    requires sql[i] == '\'' || sql[i] == '"' || IsDigit(sql[i]) || sql[i] == '.'
    ensures ok == MainStep(sql, length, CharsetOf(charset), i, result).Some?
    ensures ok ==> out == result + MainStep(sql, length, CharsetOf(charset), i, result).value.piece
    ensures ok ==> next == MainStep(sql, length, CharsetOf(charset), i, result).value.next
    ensures ok ==> hint == MainStep(sql, length, CharsetOf(charset), i, result).value.hint
  {
    ghost var r := MainStep(sql, length, CharsetOf(charset), i, result);
    var c := sql[i];
    ok, hint := true, false;
    if c == '\'' || c == '"' {
      var n := ToQuoteEnd(sql[i..], charset);
      next := i + n;
      out := result + "'s'";
      assert r == Some(Step("'s'", next, false));
    } else {
      out, next := NumberStepIn(sql, i, result);
      assert r == Some(Step(NumberPlaceholder(sql, next), next, false));
    }
  }

  /** The IN and VALUES cases of the main loop; a letter I or V elsewhere is copied. */
  method KeywordStepIn(sql: Bytes, length: nat, charset: Bytes, i: nat, result: Bytes)
    returns (ok: bool, out: Bytes, next: nat, hint: bool)
    requires i < length <= |sql|
    requires sql[i] == 'I' || sql[i] == 'i' || sql[i] == 'V' || sql[i] == 'v'
    ensures ok == MainStep(sql, length, CharsetOf(charset), i, result).Some?
    ensures ok ==> out == result + MainStep(sql, length, CharsetOf(charset), i, result).value.piece
    ensures ok ==> next == MainStep(sql, length, CharsetOf(charset), i, result).value.next
    ensures ok ==> hint == MainStep(sql, length, CharsetOf(charset), i, result).value.hint
  {
    ghost var cs := CharsetOf(charset);
    ghost var r := MainStep(sql, length, cs, i, result);
    var c := sql[i];
    ok, out, next, hint := true, result, i + 1, false;
    if c == 'I' || c == 'i' {
      if i > 0 && i + 4 < length && EqualFold(sql[i - 1..i + 2], " IN") && !IsEnglishLetter(sql[i + 2]) {
        assert r == InStep(sql, cs, i + 2);
        ok, out, next := InStepIn(sql, charset, i + 2, out);
      } else {
        out := out + [c];
        assert r == Some(Step([c], next, false));
      }
    } else {
      if i > 0 && i + 8 < length && EqualFold(sql[i - 1..i + 6], " VALUES") && !IsEnglishLetter(sql[i + 6]) {
        assert r == ListStep(sql, cs, "VALUES", i + 6);
        ok, out, next := ListStepIn(sql, charset, "VALUES", i + 6, out);
      } else {
        out := out + [c];
        assert r == Some(Step([c], next, false));
      }
    }
  }

  /** The comment, blank and copy cases of the main loop. */
  method OtherStepIn(sql: Bytes, length: nat, charset: Bytes, i: nat, result: Bytes)
    returns (ok: bool, out: Bytes, next: nat, hint: bool)
    requires i < length <= |sql|
    requires !(sql[i] == '\'' || sql[i] == '"' || IsDigit(sql[i]) || sql[i] == '.')
    requires !(sql[i] == 'I' || sql[i] == 'i' || sql[i] == 'V' || sql[i] == 'v')
    ensures ok == MainStep(sql, length, CharsetOf(charset), i, result).Some?
    ensures ok ==> out == result + MainStep(sql, length, CharsetOf(charset), i, result).value.piece
    ensures ok ==> next == MainStep(sql, length, CharsetOf(charset), i, result).value.next
    ensures ok ==> hint == MainStep(sql, length, CharsetOf(charset), i, result).value.hint
  {
    ghost var r := MainStep(sql, length, CharsetOf(charset), i, result);
    var c := sql[i];
    ok, out, next, hint := true, result, i + 1, false;
    if c == '/' {
      if i + 4 < length && sql[i + 1] == '*' {
        if sql[i + 2] == '!' {
          hint := true;
          assert sql[i..i + 3] == "/*!";
          out := out + sql[i..i + 3];
          next := i + 3;
          assert r == Some(Step("/*!", next, true));
        } else {
          var n := ToCommentEnd(sql[i..]);
          next := i + n;
          assert r == Some(Step([], next, false));
        }
      } else {
        out := out + [c];
        assert r == Some(Step([c], next, false));
      }
    } else if c == ' ' || c == '\t' {
      if |out| > 0 && out[|out| - 1] != ' ' {
        out := out + " ";
        assert r == Some(Step(" ", next, false));
      } else {
        assert r == Some(Step([], next, false));
      }
    } else {
      out := out + [c];
      assert r == Some(Step([c], next, false));
    }
  }

  /** The hint loop of GenerateFinger. */
  method RemoveHints(src: Bytes) returns (result: Bytes)
    ensures result == HintPass(src)
  {
    var inHint := false;
    var length := |src|;
    result := [];
    var i := 0;
    while i < length
      invariant i <= length
      invariant HintFrom(src, i, inHint, result) == HintPass(src)
      decreases length - i
    {
      if !inHint {
        if i + 5 < length && src[i] == '/' && src[i + 1] == '*' && src[i + 2] == '!' {
          i := i + 3;
          if IsDigit(src[i]) {
            i := i + 1;
          }
          if |result| > 0 && result[|result| - 1] != ' ' {
            result := result + " ";
          }
          inHint := true;
          continue;
        }
      } else {
        if i + 1 < length && src[i] == '*' && src[i + 1] == '/' {
          i := i + 2;
          inHint := false;
          continue;
        }
      }
      if src[i] == ' ' && |result| > 0 && result[|result| - 1] == ' ' {
        i := i + 1;
        continue;
      }
      result := result + [src[i]];
      i := i + 1;
    }
  }

  /** A statement's fingerprint and its classification. */
  class FingerPrint {
    var sqltype: Bytes
    var finger: Bytes

    constructor ()
      ensures sqltype == [] && finger == []
    {
      sqltype := [];
      finger := [];
    }

    /**
     * Sets finger to the fingerprint of sql and sqltype to the class of its
     * upper-cased text. Where the source would index past the end of sql the
     * call fails and the object is left as it was.
     */
    method GenerateFinger(sql: Bytes, charset: Bytes) returns (ok: bool)
      modifies this
      ensures ok == Finger(sql, CharsetOf(charset)).Some?
      ensures ok ==> finger == Finger(sql, CharsetOf(charset)).value && sqltype == Classify(Upper(finger))
      ensures !ok ==> finger == old(finger) && sqltype == old(sqltype)
    {
      var result, isHintSql;
      ok, result, isHintSql := MainPass(sql, charset);
      if !ok {
        return;
      }
      if isHintSql {
        result := RemoveHints(result);
      }
      finger := result;
      sqltype := GetSqlCom(Upper(finger));
    }
  }

  /** The first loop of GenerateFinger: the statement without trailing white space, one case at a time. */
  method MainPass(sql: Bytes, charset: Bytes) returns (ok: bool, result: Bytes, isHintSql: bool)
    ensures ok == MainFrom(sql, TrimmedLength(sql), CharsetOf(charset), 0, [], false).Some?
    ensures ok ==> Pass(result, isHintSql) == MainFrom(sql, TrimmedLength(sql), CharsetOf(charset), 0, [], false).value
  {
    var length: nat := |sql|;
    while length > 0 && IsSpace(sql[length - 1])
      invariant length <= |sql|
      invariant TrimTo(sql, length) == TrimmedLength(sql)
      decreases length
    {
      length := length - 1;
    }
    ghost var cs := CharsetOf(charset);
    ghost var whole := MainFrom(sql, length, cs, 0, [], false);
    isHintSql := false;
    result := [];
    var i := 0;
    while i < length
      invariant i <= |sql|
      invariant MainFrom(sql, length, cs, i, result, isHintSql) == whole
      decreases |sql| - i
    {
      var stepOk, out, next, hint := MainStepIn(sql, length, charset, i, result);
      if !stepOk {
        return false, result, isHintSql;
      }
      result, i := out, next;
      isHintSql := isHintSql || hint;
    }
    ok := true;
  }
}
