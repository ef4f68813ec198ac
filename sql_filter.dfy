/**
 * How the proxy routes and audits a statement (utils/string.go): the
 * charset a SET NAMES statement selects, whether a statement must go to the
 * master or may go to a slave, and whether it is written to the audit log.
 */
module SqlFilter {
  import opened ByteText

  // ----------------------------------------------------- GetCharsetFromSQL

  /** The end of the run of upper-case ASCII letters that starts at j. */
  function CapsFrom(t: Bytes, j: nat): (e: nat)
    requires j <= |t|
    ensures j <= e <= |t|
    ensures e == |t| || !IsUpperAscii(t[e])
    decreases |t| - j
  {
    if j == |t| || !IsUpperAscii(t[j]) then j else CapsFrom(t, j + 1)
  }

  lemma {:induction false} CapsRun(t: Bytes, j: nat)
    requires j <= |t|
    ensures forall k :: j <= k < CapsFrom(t, j) ==> IsUpperAscii(t[k])
    decreases |t| - j
  {
    if j < |t| && IsUpperAscii(t[j]) {
      CapsRun(t, j + 1);
    }
  }

  lemma {:induction false} CapsFromIs(t: Bytes, j: nat, e: nat)
    requires j <= e <= |t| && (forall k :: j <= k < e ==> IsUpperAscii(t[k]))
    requires e == |t| || !IsUpperAscii(t[e])
    ensures CapsFrom(t, j) == e
    decreases e - j
  {
    if j < e {
      CapsFromIs(t, j + 1, e);
    }
  }

  /** The charset word after NAMES in the upper-cased text u: from i on, the byte at i and the capitals after it. */
  function NameAfter(u: Bytes, i: nat): Bytes
    requires i <= |u|
  {
    var k := BlankEnd(u, i);
    if k + 1 < |u| then u[k..CapsFrom(u, k + 1)] else []
  }

  /**
   * What GetCharsetFromSQL reads in the upper-cased text u after the SET:
   * the word after the first NAMES, when NAMES is not at its very start and
   * five more bytes follow; empty otherwise.
   */
  function CharsetIn(u: Bytes): Bytes
  {
    var i := Index(u, "NAMES");
    if i > 0 && i + 5 < |u| then NameAfter(u, i + 5) else []
  }

  /**
   * GetCharsetFromSQL: for a statement longer than ten bytes that starts with
   * SET (any case), the charset named in the upper-cased rest; empty otherwise.
   */
  function CharsetOfSql(sql: Bytes): Bytes
  {
    if |sql| > 10 && EqualFold("SET", sql[0..3]) then CharsetIn(Upper(sql[3..])) else []
  }

  method GetCharsetFromSQL(sql: Bytes) returns (r: Bytes)
    ensures r == CharsetOfSql(sql)
  {
    if |sql| > 10 && EqualFold("SET", sql[0..3]) {
      var u := Upper(sql[3..]);
      r := ScanCharset(u);
      return;
    }
    return [];
  }

  /** The part of GetCharsetFromSQL that works on the upper-cased text. */
  method ScanCharset(u: Bytes) returns (r: Bytes)
    ensures r == CharsetIn(u)
  {
    var i := Index(u, "NAMES");
    var length := |u|;
    if i > 0 && i + 5 < length {
      i := SkipBlanks(u, i + 5);
      var j := i + 1;
      if j < length {
        j := SkipCapitals(u, j);
        return u[i..j];
      }
    }
    return [];
  }

  /** The blank-skipping loop of GetCharsetFromSQL. */
  method SkipBlanks(u: Bytes, i0: nat) returns (i: nat)
    requires i0 <= |u|
    ensures i == BlankEnd(u, i0)
  {
    i := i0;
    while i < |u| && (u[i] == ' ' || u[i] == '\t')
      invariant i0 <= i <= |u|
      invariant BlankEnd(u, i) == BlankEnd(u, i0)
      decreases |u| - i
    {
      i := i + 1;
    }
  }

  /** The capital-letter loop of GetCharsetFromSQL. */
  method SkipCapitals(u: Bytes, j0: nat) returns (j: nat)
    requires j0 <= |u|
    ensures j == CapsFrom(u, j0)
  {
    j := j0;
    while j < |u| && u[j] >= 'A' && u[j] <= 'Z'
      invariant j0 <= j <= |u|
      invariant CapsFrom(u, j) == CapsFrom(u, j0)
      decreases |u| - j
    {
      j := j + 1;
    }
  }

  /** After " NAMES ", a blank-free run of two or more capitals and then a non-capital: that run. */
  lemma NamesThenCapitals(uc: Bytes, ut: Bytes)
    requires |uc| >= 2 && forall k :: 0 <= k < |uc| ==> IsUpperAscii(uc[k])
    requires ut == [] || !IsUpperAscii(ut[0])
    ensures CharsetIn(" NAMES " + uc + ut) == uc
  {
    var u := " NAMES " + uc + ut;
    assert OccursAt(u, "NAMES", 1) by {
      assert u[1..6] == "NAMES";
    }
    assert !OccursAt(u, "NAMES", 0) by {
      assert u[0] == ' ';
    }
    assert u[6] == ' ' && u[7] == uc[0];
    BlankEndIs(u, 6, 7);
    var e := 7 + |uc|;
    assert forall k :: 8 <= k < e ==> u[k] == uc[k - 7];
    assert e == |u| || u[e] == ut[0];
    CapsFromIs(u, 8, e);
    assert u[7..e] == uc;
  }

  /**
   * A SET NAMES statement selects the charset named after it, upper-cased;
   * only its letters are kept, so a name with a digit loses it from there.
   */
  lemma SetNamesCharset(c: Bytes, t: Bytes)
    requires |c| >= 2 && forall k :: 0 <= k < |c| ==> IsEnglishLetter(c[k])
    requires t == [] || !IsUpperAscii(UpperByte(t[0]))
    ensures CharsetOfSql("SET NAMES " + c + t) == Upper(c)
  {
    var sql := "SET NAMES " + c + t;
    assert sql[0..3] == "SET";
    assert sql[3..] == " NAMES " + c + t;
    UpperAppend(" NAMES " + c, t);
    UpperAppend(" NAMES ", c);
    assert Upper(" NAMES ") == " NAMES ";
    NamesThenCapitals(Upper(c), Upper(t));
  }

  /** "SET NAMES utf8" selects "UTF": the digit ends the charset word. */
  lemma Utf8LosesItsDigit()
    ensures CharsetOfSql("SET NAMES utf8") == "UTF"
  {
    var c: Bytes, t: Bytes := "utf", "8";
    LettersOfUtf(c);
    assert !IsUpperAscii(UpperByte(t[0]));
    SetNamesCharset(c, t);
    Utf8Text(c, t);
    UpperOfUtf(c);
  }

  lemma Utf8Text(c: Bytes, t: Bytes)
    requires c == "utf" && t == "8"
    ensures "SET NAMES " + c + t == "SET NAMES utf8"
  {
  }

  lemma LettersOfUtf(c: Bytes)
    requires c == "utf"
    ensures |c| >= 2 && forall k :: 0 <= k < |c| ==> IsEnglishLetter(c[k])
  {
  }

  lemma UpperOfUtf(c: Bytes)
    requires c == "utf"
    ensures Upper(c) == "UTF"
  {
    assert Upper(c)[0] == 'U' && Upper(c)[1] == 'T' && Upper(c)[2] == 'F';
  }

  /** What is read after NAMES is empty or a byte followed by capital letters, and NAMES is in the text. */
  lemma CharsetInShape(u: Bytes)
    ensures CharsetIn(u) != [] ==> Index(u, "NAMES") > 0
    ensures forall k :: 1 <= k < |CharsetIn(u)| ==> IsUpperAscii(CharsetIn(u)[k])
  {
    var i := Index(u, "NAMES");
    if i > 0 && i + 5 < |u| {
      var k := BlankEnd(u, i + 5);
      if k + 1 < |u| {
        CapsRun(u, k + 1);
        var r := u[k..CapsFrom(u, k + 1)];
        assert forall m :: 1 <= m < |r| ==> r[m] == u[k + m];
      }
    }
  }

  /** The charset is empty or a byte followed by capital letters, and comes only from a statement starting with SET. */
  lemma CharsetShape(sql: Bytes)
    ensures CharsetOfSql(sql) != [] ==> LongerWithPrefixFold(sql, "SET")
    ensures forall k :: 1 <= k < |CharsetOfSql(sql)| ==> IsUpperAscii(CharsetOfSql(sql)[k])
  {
    if |sql| > 10 && EqualFold("SET", sql[0..3]) {
      CharsetInShape(Upper(sql[3..]));
    }
  }

  // ------------------------------------------------------------ IsMasterNeed

  /** IsMasterNeed: every statement except a SET statement without NAMES after the SET. */
  function IsMasterNeed(sql: Bytes): bool
  {
    if |sql| > 3 && EqualFold("SET", sql[0..3]) then Contains(Upper(sql[3..]), "NAMES") else true
  }

  /** A statement that selects a charset goes to the master. */
  lemma CharsetStatementGoesToMaster(sql: Bytes)
    requires CharsetOfSql(sql) != []
    ensures IsMasterNeed(sql)
  {
    assert |sql| > 10 && EqualFold("SET", sql[0..3]);
    var u := Upper(sql[3..]);
    assert CharsetIn(u) != [];
    CharsetInShape(u);
    assert Index(u, "NAMES") > 0;
  }

  /** SET AUTOCOMMIT is kept off the master. */
  lemma SetAutocommitNotOnMaster()
    ensures !IsMasterNeed("set autocommit=1")
  {
    var u := Upper("set autocommit=1"[3..]);
    assert u == " AUTOCOMMIT=1";
    AbsentByteNoOccurrence(u, "NAMES", 0);
  }

  // ------------------------------------------------------------- IsSlaveNeed

  /** The statements a slave may serve. */
  const WhiteSQL: seq<Bytes> := ["USE", "SELECT", "PREPARE", "EXEC", "SHOW"]

  method IsSlaveNeed(sql: Bytes) returns (r: bool)
    ensures r <==> exists n :: 0 <= n < |WhiteSQL| && LongerWithPrefixFold(sql, WhiteSQL[n])
  {
    var whiteSQL := WhiteSQL;
    for n := 0 to |whiteSQL|
      invariant forall m :: 0 <= m < n ==> !LongerWithPrefixFold(sql, whiteSQL[m])
    {
      var wsq := whiteSQL[n];
      if |sql| > |wsq| && EqualFold(wsq, sql[..|wsq|]) {
        return true;
      }
    }
    return false;
  }

  /** A statement a slave may serve is also one the master serves: none of the slave words starts like SET. */
  lemma SlaveNeedImpliesMasterNeed(sql: Bytes, n: nat)
    requires n < |WhiteSQL| && LongerWithPrefixFold(sql, WhiteSQL[n])
    ensures IsMasterNeed(sql)
  {
    var w := WhiteSQL[n];
    var j := if n == 1 then 2 else if n == 4 then 1 else 0;
    assert |w| >= 3 && UpperByte(w[j]) != "SET"[j];
    assert sql[..|w|][j] == sql[j] && sql[0..3][j] == sql[j];
    assert UpperByte(sql[j]) == UpperByte(w[j]);
  }
}
