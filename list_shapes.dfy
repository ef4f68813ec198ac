/**
 * What the list scanners of utils/fingerprint.go do with lists of a general
 * shape: a group is '(' followed by elements and ')', an element being a
 * string literal with a plain body, a run of digits, or a single other byte.
 * A shape is described by the kind and width of each element and the
 * statement that holds them. These lemmas say, for every such list, where
 * toValueEnd stops, what the first group of toValueListEnd copies, and that
 * every later group is skipped.
 */
module ListShapes {
  import opened ByteText
  import opened QuoteScan
  import opened NumberScan
  import opened ListScan

  /** One element of a group, by kind and size; the statement holds its bytes. */
  datatype Elem =
    | Lit(size: nat)  // a string literal whose body is size bytes long
    | Num(size: nat)  // a run of size digits
    | Sym             // any other single byte

  function Width(e: Elem): nat
  {
    match e
    case Lit(n) => n + 2
    case Num(n) => n
    case Sym => 1
  }

  function ElemsWidth(es: seq<Elem>): nat
    decreases |es|
  {
    if |es| == 0 then 0 else Width(es[0]) + ElemsWidth(es[1..])
  }

  // ------------------------------------------------------- byte ranges

  /** Bytes i up to j of s are digits. */
  predicate DigitsIn(s: Bytes, i: nat, j: nat)
    decreases j - i
  {
    i >= j || (i < |s| && IsDigit(s[i]) && DigitsIn(s, i + 1, j))
  }

  /** Bytes i up to j of s can stand inside a literal delimited by q. */
  predicate SimpleIn(s: Bytes, q: Byte, i: nat, j: nat)
    decreases j - i
  {
    i >= j || (i < |s| && SimpleBodyByte(s[i], q) && SimpleIn(s, q, i + 1, j))
  }

  /** Bytes i up to j of s are separators. */
  predicate SepsIn(s: Bytes, i: nat, j: nat)
    decreases j - i
  {
    i >= j || (i < |s| && IsSep(s[i]) && SepsIn(s, i + 1, j))
  }

  /** Bytes i up to j of s are white space. */
  predicate SpacesIn(s: Bytes, i: nat, j: nat)
    decreases j - i
  {
    i >= j || (i < |s| && IsSpace(s[i]) && SpacesIn(s, i + 1, j))
  }

  /** WhiteEnd runs over white space up to the first byte that is not. */
  lemma {:induction false} WhiteEndOver(s: Bytes, i: nat, j: nat)
    requires i <= j <= |s| && SpacesIn(s, i, j) && (j == |s| || !IsSpace(s[j]))
    ensures WhiteEnd(s, i) == j
    decreases j - i
  {
    if i < j {
      WhiteEndOver(s, i + 1, j);
    }
  }

  lemma {:induction false} DigitsInAt(s: Bytes, i: nat, j: nat, k: nat)
    requires DigitsIn(s, i, j) && i <= k < j
    ensures k < |s|
    ensures IsDigit(s[k])
    decreases k - i
  {
    if i < k {
      DigitsInAt(s, i + 1, j, k);
    }
  }

  lemma {:induction false} SimpleInAt(s: Bytes, q: Byte, i: nat, j: nat, k: nat)
    requires SimpleIn(s, q, i, j) && i <= k < j
    ensures k < |s|
    ensures SimpleBodyByte(s[k], q)
    decreases k - i
  {
    if i < k {
      SimpleInAt(s, q, i + 1, j, k);
    }
  }

  lemma {:induction false} SepsInAt(s: Bytes, i: nat, j: nat, k: nat)
    requires SepsIn(s, i, j) && i <= k < j
    ensures k < |s|
    ensures IsSep(s[k])
    decreases k - i
  {
    if i < k {
      SepsInAt(s, i + 1, j, k);
    }
  }

  // ------------------------------------------------------------ shapes

  /** A byte after a run of digits that neither extends the number nor makes it hexadecimal. */
  predicate StopsNumber(b: Byte) { !IsDigit(b) && b != '.' && b != 'x' && b != 'X' }

  /**
   * e stands in s at p. A literal is delimited by ' or " and its body is
   * ASCII without a backslash or its delimiter; a number is a non-empty run
   * of digits followed by a byte that does not extend it; any other element
   * is one byte that opens neither a literal, a number nor a bracket.
   */
  predicate ElemAt(s: Bytes, p: nat, e: Elem)
  {
    p + Width(e) <= |s| &&
    match e
    case Lit(n) => IsLiteralQuote(s[p]) && s[p + n + 1] == s[p] && SimpleIn(s, s[p], p + 1, p + n + 1)
    case Num(n) => n > 0 && p + n < |s| && DigitsIn(s, p, p + n) && StopsNumber(s[p + n])
    case Sym => !IsLiteralQuote(s[p]) && !IsDigit(s[p]) && s[p] != '.' && s[p] != '(' && s[p] != ')'
  }

  /** The elements es stand in s one after the other from p on. */
  predicate ElemsAt(s: Bytes, p: nat, es: seq<Elem>)
    decreases |es|
  {
    if |es| == 0 then p <= |s| else ElemAt(s, p, es[0]) && ElemsAt(s, p + Width(es[0]), es[1..])
  }

  function GroupWidth(es: seq<Elem>): nat { ElemsWidth(es) + 2 }

  /** A group stands in s at p: '(' then the elements es then ')'. */
  predicate GroupAt(s: Bytes, p: nat, es: seq<Elem>)
  {
    p < |s| && s[p] == '(' && ElemsAt(s, p + 1, es) &&
    p + 1 + ElemsWidth(es) < |s| && s[p + 1 + ElemsWidth(es)] == ')'
  }

  /** What the first group keeps of an element: 's' for a literal, 1 for a number, a non-blank byte itself. */
  function ElemCopy(s: Bytes, p: nat, e: Elem): Bytes
  {
    match e
    case Lit(_) => "'s'"
    case Num(_) => "1"
    case Sym => if p < |s| && !IsBlank(s[p]) then [s[p]] else []
  }

  function ElemsCopy(s: Bytes, p: nat, es: seq<Elem>): Bytes
    decreases |es|
  {
    if |es| == 0 then [] else ElemCopy(s, p, es[0]) + ElemsCopy(s, p + Width(es[0]), es[1..])
  }

  function GroupCopy(s: Bytes, p: nat, es: seq<Elem>): Bytes
  {
    "(" + ElemsCopy(s, p + 1, es) + ")"
  }

  /** A group that repeats the first one: a run of seps separators, then a group. */
  datatype Repeat = Repeat(seps: nat, group: seq<Elem>)

  function RepeatWidth(r: Repeat): nat { r.seps + GroupWidth(r.group) }

  function RepeatsWidth(rs: seq<Repeat>): nat
    decreases |rs|
  {
    if |rs| == 0 then 0 else RepeatWidth(rs[0]) + RepeatsWidth(rs[1..])
  }

  predicate RepeatAt(s: Bytes, j: nat, r: Repeat)
  {
    r.seps > 0 && j + r.seps <= |s| && SepsIn(s, j, j + r.seps) && GroupAt(s, j + r.seps, r.group)
  }

  predicate RepeatsAt(s: Bytes, j: nat, rs: seq<Repeat>)
    decreases |rs|
  {
    if |rs| == 0 then j <= |s| else RepeatAt(s, j, rs[0]) && RepeatsAt(s, j + RepeatWidth(rs[0]), rs[1..])
  }

  // ------------------------------------------------------- one element

  /** The first byte of an element opens no bracket and closes none. */
  lemma ElemHead(s: Bytes, p: nat, e: Elem)
    requires ElemAt(s, p, e)
    ensures p < |s| && s[p] != '(' && s[p] != ')'
  {
    if e.Num? {
      DigitsInAt(s, p, p + e.size, p);
    }
  }

  /** A literal element is read whole by the quote scanner, whatever the charset. */
  lemma LiteralElemEnd(s: Bytes, cs: Charset, p: nat, n: nat)
    requires ElemAt(s, p, Lit(n))
    ensures QuoteEnd(s[p..], cs) == n + 2
  {
    var t := s[p..];
    forall k | 1 <= k < n + 1
      ensures SimpleBodyByte(t[k], t[0])
    {
      SimpleInAt(s, s[p], p + 1, p + n + 1, p + k);
    }
    SimpleLiteralEnd(t, cs, n + 1);
  }

  /** A number element is read whole by the number scanner. */
  lemma NumberElemEnd(s: Bytes, p: nat, n: nat)
    requires ElemAt(s, p, Num(n))
    ensures IsDigit(s[p]) && IsDigit(s[p + n - 1])
    ensures NumberEnd(s[p..]) == n
  {
    var t := s[p..];
    forall k | 0 <= k < n
      ensures IsDigit(t[k])
    {
      DigitsInAt(s, p, p + n, p + k);
    }
    DigitsNumber(t, n);
  }

  /**
   * One element of a first group: a literal gives 's', a number "1", a
   * blank nothing and any other byte itself; the bracket count is unchanged.
   */
  lemma ElemItem(s: Bytes, cs: Charset, p: nat, e: Elem)
    requires ElemAt(s, p, e)
    ensures GroupItem(s, cs, p) == (ElemCopy(s, p, e), p + Width(e), 0)
  {
    match e
    case Lit(n) =>
      LiteralElemEnd(s, cs, p, n);
    case Num(n) =>
      NumberElemEnd(s, p, n);
    case Sym =>
  }

  // -------------------------------------------------- the first group

  /** A first group goes on after an element that another element follows. */
  lemma FirstGroupGoesOn(s: Bytes, cs: Charset, p: nat, es: seq<Elem>)
    requires |es| > 1 && ElemsAt(s, p, es)
    ensures var p1 := p + Width(es[0]);
      p1 <= |s| &&
      FirstGroup(s, cs, p) == Emit(ElemCopy(s, p, es[0]) + FirstGroup(s, cs, p1).out, FirstGroup(s, cs, p1).next)
  {
    var p1 := p + Width(es[0]);
    ElemItem(s, cs, p, es[0]);
    ElemHead(s, p1, es[1..][0]);
    FirstGroupStep(s, cs, p, ElemCopy(s, p, es[0]), p1, 0);
  }

  /** A first group ends at the ')' after an element. */
  lemma FirstGroupCloses(s: Bytes, cs: Charset, p: nat, e: Elem)
    requires ElemAt(s, p, e) && p + Width(e) < |s| && s[p + Width(e)] == ')'
    ensures FirstGroup(s, cs, p) == Emit(ElemCopy(s, p, e) + [')'], p + Width(e) + 1)
  {
    ElemItem(s, cs, p, e);
    FirstGroupStep(s, cs, p, ElemCopy(s, p, e), p + Width(e), 0);
  }

  /**
   * gs lists what the first-group walk returns from the start of each
   * element of es on: each one is the element's copy followed by the next
   * one, and the last is the last element's copy followed by ')'.
   */
  predicate Chain(s: Bytes, p: nat, es: seq<Elem>, gs: seq<Emit>)
    decreases |es|
  {
    |es| > 0 && |gs| == |es| &&
    if |es| == 1 then gs[0] == Emit(ElemCopy(s, p, es[0]) + ")", p + Width(es[0]) + 1)
    else gs[0] == Emit(ElemCopy(s, p, es[0]) + gs[1].out, gs[1].next) && Chain(s, p + Width(es[0]), es[1..], gs[1..])
  }

  /** A chain of element steps adds up to the copy of all the elements. */
  lemma {:induction false} ChainCopy(s: Bytes, p: nat, es: seq<Elem>, gs: seq<Emit>)
    requires Chain(s, p, es, gs)
    ensures gs[0] == Emit(ElemsCopy(s, p, es) + ")", p + ElemsWidth(es) + 1)
    decreases |es|
  {
    var c := ElemCopy(s, p, es[0]);
    if |es| == 1 {
      assert ElemsCopy(s, p, es) == c + ElemsCopy(s, p + Width(es[0]), es[1..]);
    } else {
      ChainCopy(s, p + Width(es[0]), es[1..], gs[1..]);
      assert ElemsCopy(s, p, es) + ")" == c + (ElemsCopy(s, p + Width(es[0]), es[1..]) + ")");
    }
  }

  /** A first-group step in front of a chain that starts where the element ends. */
  lemma FirstGroupChainStep(s: Bytes, cs: Charset, p: nat, es: seq<Elem>, rest: seq<Emit>) returns (gs: seq<Emit>)
    requires |es| > 1 && ElemsAt(s, p, es)
    requires p + Width(es[0]) <= |s|
    requires Chain(s, p + Width(es[0]), es[1..], rest) && rest[0] == FirstGroup(s, cs, p + Width(es[0]))
    ensures Chain(s, p, es, gs) && gs[0] == FirstGroup(s, cs, p)
  {
    FirstGroupGoesOn(s, cs, p, es);
    gs := [FirstGroup(s, cs, p)] + rest;
    assert gs[1..] == rest;
  }

  /** The walk of the first group from each element of es on forms a chain. */
  lemma {:induction false} FirstGroupChain(s: Bytes, cs: Charset, p: nat, es: seq<Elem>) returns (gs: seq<Emit>)
    requires |es| > 0 && ElemsAt(s, p, es)
    requires p + ElemsWidth(es) < |s| && s[p + ElemsWidth(es)] == ')'
    ensures Chain(s, p, es, gs) && gs[0] == FirstGroup(s, cs, p)
    decreases |es|
  {
    if |es| == 1 {
      FirstGroupCloses(s, cs, p, es[0]);
      gs := [FirstGroup(s, cs, p)];
    } else {
      var rest := FirstGroupChain(s, cs, p + Width(es[0]), es[1..]);
      gs := FirstGroupChainStep(s, cs, p, es, rest);
    }
  }

  /** The elements of a first group, up to its ')', are copied element by element. */
  lemma FirstGroupElems(s: Bytes, cs: Charset, p: nat, es: seq<Elem>)
    requires |es| > 0 && ElemsAt(s, p, es)
    requires p + ElemsWidth(es) < |s| && s[p + ElemsWidth(es)] == ')'
    ensures FirstGroup(s, cs, p) == Emit(ElemsCopy(s, p, es) + ")", p + ElemsWidth(es) + 1)
  {
    var gs := FirstGroupChain(s, cs, p, es);
    ChainCopy(s, p, es, gs);
  }

  /**
   * The first group of toValueListEnd: a '(' followed by elements and ')'
   * is copied with blanks dropped, every literal replaced by 's' and every
   * number by 1, and the scan resumes right after its ')'.
   */
  lemma FirstGroupOfElems(s: Bytes, cs: Charset, p: nat, es: seq<Elem>)
    requires |es| > 0 && GroupAt(s, p, es)
    ensures FirstGroup(s, cs, p) == Emit(GroupCopy(s, p, es), p + GroupWidth(es))
  {
    assert GroupItem(s, cs, p) == ("(", p + 1, 1);
    FirstGroupStep(s, cs, p, "(", p + 1, 1);
    FirstGroupElems(s, cs, p + 1, es);
    assert GroupCopy(s, p, es) == "(" + (ElemsCopy(s, p + 1, es) + ")");
  }

  // ---------------------------------------------------- walking a group

  lemma {:induction false} GroupSkipPlain(s: Bytes, cs: Charset, i: nat, e: nat, bracket: int)
    requires i <= e <= |s| && bracket <= 1
    requires forall k :: i <= k < e ==> s[k] != '(' && s[k] != ')' && !IsLiteralQuote(s[k])
    ensures GroupSkip(s, cs, i, bracket) == GroupSkip(s, cs, e, bracket)
    decreases e - i
  {
    if i < e {
      GroupSkipPlain(s, cs, i + 1, e, bracket);
    }
  }

  lemma {:induction false} CloseParenPlain(s: Bytes, cs: Charset, i: nat, e: nat)
    requires i <= e <= |s|
    requires forall k :: i <= k < e ==> s[k] != ')' && !IsLiteralQuote(s[k])
    ensures CloseParenFrom(s, cs, i) == CloseParenFrom(s, cs, e)
    decreases e - i
  {
    if i < e {
      CloseParenPlain(s, cs, i + 1, e);
    }
  }

  /** The bytes of a number or a single-byte element open nothing. */
  lemma PlainElem(s: Bytes, p: nat, e: Elem)
    requires ElemAt(s, p, e) && !e.Lit?
    ensures forall k :: p <= k < p + Width(e) ==> s[k] != '(' && s[k] != ')' && !IsLiteralQuote(s[k])
  {
    forall k | p <= k < p + Width(e)
      ensures s[k] != '(' && s[k] != ')' && !IsLiteralQuote(s[k])
    {
      if e.Num? {
        DigitsInAt(s, p, p + e.size, k);
      }
    }
  }

  /** One element inside a repeated group is walked over whole. */
  lemma GroupSkipOne(s: Bytes, cs: Charset, p: nat, e: Elem)
    requires ElemAt(s, p, e)
    ensures GroupSkip(s, cs, p, 1) == GroupSkip(s, cs, p + Width(e), 1)
  {
    if e.Lit? {
      LiteralElemEnd(s, cs, p, e.size);
    } else {
      PlainElem(s, p, e);
      GroupSkipPlain(s, cs, p, p + Width(e), 1);
    }
  }

  /** One element is walked over whole by the search for ')'. */
  lemma CloseParenOne(s: Bytes, cs: Charset, p: nat, e: Elem)
    requires ElemAt(s, p, e)
    ensures CloseParenFrom(s, cs, p) == CloseParenFrom(s, cs, p + Width(e))
  {
    if e.Lit? {
      LiteralElemEnd(s, cs, p, e.size);
    } else {
      PlainElem(s, p, e);
      CloseParenPlain(s, cs, p, p + Width(e));
    }
  }

  /** Inside a repeated group, elements are walked over whole; a ')' in a literal does not end it. */
  lemma {:induction false} GroupSkipElems(s: Bytes, cs: Charset, p: nat, es: seq<Elem>)
    requires ElemsAt(s, p, es)
    ensures p + ElemsWidth(es) <= |s|
    ensures GroupSkip(s, cs, p, 1) == GroupSkip(s, cs, p + ElemsWidth(es), 1)
    decreases |es|
  {
    if |es| > 0 {
      GroupSkipOne(s, cs, p, es[0]);
      GroupSkipElems(s, cs, p + Width(es[0]), es[1..]);
    }
  }

  /** The search for ')' in toValueEnd walks over elements whole; a ')' in a literal does not end it. */
  lemma {:induction false} CloseParenElems(s: Bytes, cs: Charset, p: nat, es: seq<Elem>)
    requires ElemsAt(s, p, es)
    ensures p + ElemsWidth(es) <= |s|
    ensures CloseParenFrom(s, cs, p) == CloseParenFrom(s, cs, p + ElemsWidth(es))
    decreases |es|
  {
    if |es| > 0 {
      CloseParenOne(s, cs, p, es[0]);
      CloseParenElems(s, cs, p + Width(es[0]), es[1..]);
    }
  }

  /**
   * toValueEnd on a parenthesised value: after the leading spaces it runs
   * to just past the ')' that closes the group, whatever ')' the literals
   * inside it hold.
   */
  lemma ValueEndOfGroup(t: Bytes, cs: Charset, n: nat, es: seq<Elem>)
    requires n <= |t| && (forall k :: 0 <= k < n ==> t[k] == ' ')
    requires GroupAt(t, n, es)
    ensures ValueEnd(t, cs) == n + GroupWidth(es)
  {
    SpaceEndIs(t, 0, n);
    var m := n + 1 + ElemsWidth(es);
    CloseParenElems(t, cs, n + 1, es);
    CloseParenIs(t, cs, m, m);
  }

  // -------------------------------------------------- repeated groups

  lemma GroupSkipOpen(s: Bytes, cs: Charset, k: nat)
    requires k < |s| && s[k] == '('
    ensures GroupSkip(s, cs, k, 0) == GroupSkip(s, cs, k + 1, 1)
  {
  }

  lemma GroupSkipClose(s: Bytes, cs: Charset, k: nat)
    requires k < |s| && s[k] == ')'
    ensures GroupSkip(s, cs, k, 1) == k
  {
  }

  lemma SkipRepeatsStep(s: Bytes, cs: Charset, j: nat, k: nat, close: nat)
    requires j < |s| && IsSep(s[j]) && SepEnd(s, j) == k && k < |s| && s[k] == '('
    requires close < |s| && GroupSkip(s, cs, k, 0) == close
    ensures SkipRepeats(s, cs, j) == SkipRepeats(s, cs, close + 1)
  {
  }

  /** One repeated group, with the separators before it, is skipped whole. */
  lemma SkipOneRepeat(s: Bytes, cs: Charset, j: nat, r: Repeat)
    requires RepeatAt(s, j, r)
    ensures j + RepeatWidth(r) <= |s|
    ensures SkipRepeats(s, cs, j) == SkipRepeats(s, cs, j + RepeatWidth(r))
  {
    var k := j + r.seps;
    forall m | j <= m < k
      ensures IsSep(s[m])
    {
      SepsInAt(s, j, k, m);
    }
    SepEndIs(s, j, k);
    var close := k + 1 + ElemsWidth(r.group);
    GroupSkipOpen(s, cs, k);
    GroupSkipElems(s, cs, k + 1, r.group);
    GroupSkipClose(s, cs, close);
    SkipRepeatsStep(s, cs, j, k, close);
  }

  lemma {:induction false} SkipRepeatsFrom(s: Bytes, cs: Charset, j: nat, rs: seq<Repeat>)
    requires RepeatsAt(s, j, rs)
    ensures j + RepeatsWidth(rs) <= |s|
    ensures SkipRepeats(s, cs, j) == SkipRepeats(s, cs, j + RepeatsWidth(rs))
    decreases |rs|
  {
    if |rs| > 0 {
      SkipOneRepeat(s, cs, j, rs[0]);
      SkipRepeatsFrom(s, cs, j + RepeatWidth(rs[0]), rs[1..]);
    }
  }

  /**
   * Every run of separators and repeated groups is skipped, up to the first
   * byte after it that is not a separator.
   */
  lemma SkipRepeatsOfGroups(s: Bytes, cs: Charset, j: nat, rs: seq<Repeat>)
    requires RepeatsAt(s, j, rs)
    requires var e := j + RepeatsWidth(rs); e == |s| || (e < |s| && !IsSep(s[e]))
    ensures SkipRepeats(s, cs, j) == Some(j + RepeatsWidth(rs))
  {
    SkipRepeatsFrom(s, cs, j, rs);
  }

  /** toValueListEnd put together from where its first group and its skip end. */
  lemma ValueListParts(s: Bytes, cs: Charset, i: nat, p: nat, out: Bytes, q: nat, j: nat)
    requires i <= p <= q <= |s| && WhiteEnd(s, i) == p
    requires FirstGroup(s, cs, p) == Emit(out, q) && SkipRepeats(s, cs, q) == Some(j)
    ensures ValueListEnd(s, cs, i) == Some(Emit(if j != q then out + " " else out, j))
  {
  }

  /** The first group and the repeats after it, on a list of groups starting at i. */
  lemma GroupsOfList(s: Bytes, cs: Charset, i: nat, p: nat, es: seq<Elem>, rs: seq<Repeat>, out: Bytes, q: nat, j: nat)
    requires i <= p <= |s| && SpacesIn(s, i, p)
    requires |es| > 0 && GroupAt(s, p, es) && RepeatsAt(s, p + GroupWidth(es), rs)
    requires var e := p + GroupWidth(es) + RepeatsWidth(rs); e == |s| || (e < |s| && !IsSep(s[e]))
    requires out == GroupCopy(s, p, es) && q == p + GroupWidth(es) && j == q + RepeatsWidth(rs)
    ensures q <= |s| && FirstGroup(s, cs, p) == Emit(out, q) && SkipRepeats(s, cs, q) == Some(j)
  {
    FirstGroupOfList(s, cs, i, p, es, rs, out, q, j);
    SkipRepeatsOfList(s, cs, i, p, es, rs, out, q, j);
  }

  lemma FirstGroupOfList(s: Bytes, cs: Charset, i: nat, p: nat, es: seq<Elem>, rs: seq<Repeat>, out: Bytes, q: nat, j: nat)
    requires i <= p <= |s| && SpacesIn(s, i, p)
    requires |es| > 0 && GroupAt(s, p, es) && RepeatsAt(s, p + GroupWidth(es), rs)
    requires var e := p + GroupWidth(es) + RepeatsWidth(rs); e == |s| || (e < |s| && !IsSep(s[e]))
    requires out == GroupCopy(s, p, es) && q == p + GroupWidth(es) && j == q + RepeatsWidth(rs)
    ensures FirstGroup(s, cs, p) == Emit(out, q)
  {
    FirstGroupOfElems(s, cs, p, es);
  }

  lemma SkipRepeatsOfList(s: Bytes, cs: Charset, i: nat, p: nat, es: seq<Elem>, rs: seq<Repeat>, out: Bytes, q: nat, j: nat)
    requires i <= p <= |s| && SpacesIn(s, i, p)
    requires |es| > 0 && GroupAt(s, p, es) && RepeatsAt(s, p + GroupWidth(es), rs)
    requires var e := p + GroupWidth(es) + RepeatsWidth(rs); e == |s| || (e < |s| && !IsSep(s[e]))
    requires out == GroupCopy(s, p, es) && q == p + GroupWidth(es) && j == q + RepeatsWidth(rs)
    ensures q <= |s| && SkipRepeats(s, cs, q) == Some(j)
  {
    SkipRepeatsOfGroups(s, cs, q, rs);
  }

  /**
   * toValueListEnd on a list of groups starting at i: the first group is
   * copied as FirstGroupOfElems says, followed by one ' ' exactly when the
   * cursor moved past it, and the main pass resumes after the last repeated
   * group (RepeatsWidthPositive: the cursor moves exactly when there is one).
   */
  lemma ValueListAt(s: Bytes, cs: Charset, i: nat, p: nat, es: seq<Elem>, rs: seq<Repeat>) returns (out: Bytes, q: nat, j: nat)
    requires i <= p <= |s| && SpacesIn(s, i, p)
    requires |es| > 0 && GroupAt(s, p, es) && RepeatsAt(s, p + GroupWidth(es), rs)
    requires var e := p + GroupWidth(es) + RepeatsWidth(rs); e == |s| || (e < |s| && !IsSep(s[e]))
    ensures out == GroupCopy(s, p, es) && q == p + GroupWidth(es) && j == q + RepeatsWidth(rs)
    ensures ValueListEnd(s, cs, i) == Some(Emit(if j != q then out + " " else out, j))
  {
    out, q, j := GroupCopy(s, p, es), p + GroupWidth(es), p + GroupWidth(es) + RepeatsWidth(rs);
    WhiteEndOver(s, i, p);
    GroupsOfList(s, cs, i, p, es, rs, out, q, j);
    ValueListParts(s, cs, i, p, out, q, j);
  }

  /** The cursor moves past the first group exactly when at least one group repeats it. */
  lemma RepeatsWidthPositive(rs: seq<Repeat>)
    ensures |rs| > 0 <==> RepeatsWidth(rs) > 0
  {
  }
}
