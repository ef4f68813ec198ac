/**
 * Statement classification (getSQLCom and the sqlKeyWordList table in
 * utils/fingerprint.go): the first table entry whose keywords match the
 * upper-cased fingerprint gives the statement's tag.
 */
module SqlCom {
  import opened ByteText

  /** One table entry: its keywords and the tag it stands for. */
  datatype SqlTypeMap = SqlTypeMap(key: seq<Bytes>, value: Bytes)

  const Other: Bytes := "SQLCOM_OTHER"

  /** sqlKeyWordList, in priority order. */
  function KeyWordList(): (l: seq<SqlTypeMap>)
    ensures |l| == 23
  {
    StatusKeyWords() + CommandKeyWords()
  }

  /** The entries that look for a second keyword, tried first. */
  function StatusKeyWords(): (l: seq<SqlTypeMap>)
    ensures |l| == 6
  {
    [
      SqlTypeMap(["SHOW", "PROCESSLIST"], "SQLCOM_SHOW_PROCESSLIST"),
      SqlTypeMap(["SHOW", "SLAVE", "STAT"], "SQLCOM_SHOW_SLAVE_STATUS"),
      SqlTypeMap(["SHOW", "MASTER", "STAT"], "SQLCOM_SHOW_MASTER_STATUS"),
      SqlTypeMap(["SHOW", "INNODB", "STAT"], "SQLCOM_SHOW_INNODB_STATUS"),
      SqlTypeMap(["SHOW", "STAT"], "SQLCOM_SHOW_STATUS"),
      SqlTypeMap(["INSERT", "SELECT"], "SQLCOM_INSERT_SELECT")
    ]
  }

  /** The entries that look at the leading keyword only. */
  function CommandKeyWords(): (l: seq<SqlTypeMap>)
    ensures |l| == 17
  {
    [
      SqlTypeMap(["SELECT"], "SQLCOM_SELECT"),
      SqlTypeMap(["INSERT"], "SQLCOM_INSERT"),
      SqlTypeMap(["REPLACE"], "SQLCOM_REPLACE"),
      SqlTypeMap(["UPDATE"], "SQLCOM_UPDATE"),
      SqlTypeMap(["DELETE"], "SQLCOM_DELETE"),

      SqlTypeMap(["USE"], "SQLCOM_CHANGE_DB"),
      SqlTypeMap(["SHOW"], "SQLCOM_SHOW"),

      SqlTypeMap(["CREATE"], "SQLCOM_CREATE"),
      SqlTypeMap(["ALTER"], "SQLCOM_ALTER"),
      SqlTypeMap(["TRUNCATE"], "SQLCOM_TRUNCATE"),
      SqlTypeMap(["DROP"], "SQLCOM_DROP"),
      SqlTypeMap(["SET"], "SQLCOM_SET_OPTION"),
      SqlTypeMap(["BEGIN"], "SQLCOM_COMMIT"),
      SqlTypeMap(["COMMIT"], "SQLCOM_COMMIT"),
      SqlTypeMap(["ROLLBACK"], "SQLCOM_ROLLBACK"),
      SqlTypeMap(["LOAD"], "SQLCOM_LOAD"),
      SqlTypeMap(["REVOKE"], "SQLCOM_REVOKE")
    ]
  }

  /**
   * A single keyword must be a prefix; several keywords must be found in
   * order, each after the end of the previous one.
   */
  predicate Matches(e: SqlTypeMap, s: Bytes)
  {
    if |e.key| == 1 then HasPrefix(s, e.key[0]) else SearchInOrder(s, e.key, 0) > 0
  }

  /** The tag of the first entry of table at or after n that matches s, or SQLCOM_OTHER. */
  function FirstMatch(table: seq<SqlTypeMap>, s: Bytes, n: nat): (r: Bytes)
    requires n <= |table|
    decreases |table| - n
  {
    if n == |table| then Other
    else if Matches(table[n], s) then table[n].value
    else FirstMatch(table, s, n + 1)
  }

  /** getSQLCom: the tag of the first matching entry of sqlKeyWordList, or SQLCOM_OTHER. */
  function Classify(s: Bytes): Bytes
  {
    FirstMatch(KeyWordList(), s, 0)
  }

  method GetSqlCom(sql: Bytes) returns (r: Bytes)
    ensures r == Classify(sql)
  {
    r := FirstMatchIn(KeyWordList(), sql);
  }

  /** The loop of getSQLCom over a keyword table. */
  method FirstMatchIn(table: seq<SqlTypeMap>, sql: Bytes) returns (r: Bytes)
    ensures r == FirstMatch(table, sql, 0)
  {
    var n := 0;
    while n < |table|
      invariant n <= |table|
      invariant FirstMatch(table, sql, n) == FirstMatch(table, sql, 0)
      decreases |table| - n
    {
      var typeMap := table[n];
      if |typeMap.key| == 1 {
        if HasPrefix(sql, typeMap.key[0]) {
          return typeMap.value;
        }
      } else {
        var j := 0;
        var m := 0;
        while m < |typeMap.key|
          invariant m <= |typeMap.key|
          invariant 0 <= j <= |sql|
          invariant SearchInOrder(sql, typeMap.key[m..], j) == SearchInOrder(sql, typeMap.key, 0)
          decreases |typeMap.key| - m
        {
          var keyword := typeMap.key[m];
          var t := Index(sql[j..], keyword);
          assert typeMap.key[m..][1..] == typeMap.key[m + 1..];
          if t >= 0 {
            j := j + t + |keyword|;
          } else {
            j := -1;
            break;
          }
          m := m + 1;
        }
        if j > 0 {
          return typeMap.value;
        }
      }
      n := n + 1;
    }
    return Other;
  }

  /**
   * The classification is the first match: it is the tag of entry m when
   * entry m matches and no earlier entry does, and SQLCOM_OTHER exactly when
   * no entry matches.
   */
  lemma {:induction false} FirstMatchIsFirst(table: seq<SqlTypeMap>, s: Bytes, n: nat)
    requires n <= |table|
    requires forall m :: 0 <= m < |table| ==> table[m].value != Other
    ensures FirstMatch(table, s, n) == Other <==>
      forall m :: n <= m < |table| ==> !Matches(table[m], s)
    ensures forall m :: (n <= m < |table| && Matches(table[m], s) &&
      (forall p :: n <= p < m ==> !Matches(table[p], s))) ==>
        FirstMatch(table, s, n) == table[m].value
    decreases |table| - n
  {
    if n < |table| && !Matches(table[n], s) {
      FirstMatchIsFirst(table, s, n + 1);
    }
  }

  /** No entry of the table is tagged SQLCOM_OTHER. */
  lemma TagsAreNotOther()
    ensures forall n :: 0 <= n < |KeyWordList()| ==> KeyWordList()[n].value != Other
  {
    var l := KeyWordList();
    assert forall n :: 0 <= n < 8 ==> l[n].value[7] != Other[7];
    assert forall n :: 8 <= n < 16 ==> l[n].value[7] != Other[7];
    assert forall n :: 16 <= n < 23 ==> l[n].value[7] != Other[7];
  }

  lemma ClassifyIsFirstMatch(s: Bytes, m: nat)
    requires m < |KeyWordList()| && Matches(KeyWordList()[m], s)
    requires forall p :: 0 <= p < m ==> !Matches(KeyWordList()[p], s)
    ensures Classify(s) == KeyWordList()[m].value
  {
    TagsAreNotOther();
    FirstMatchIsFirst(KeyWordList(), s, 0);
  }

  lemma ClassifyOther(s: Bytes)
    ensures Classify(s) == Other <==> forall m :: 0 <= m < |KeyWordList()| ==> !Matches(KeyWordList()[m], s)
  {
    TagsAreNotOther();
    FirstMatchIsFirst(KeyWordList(), s, 0);
  }

  /** A multi-keyword entry matches exactly when its keywords can be placed in order without overlap. */
  lemma MatchesInOrder(e: SqlTypeMap, s: Bytes)
    requires |e.key| > 1 && |e.key[0]| > 0
    ensures Matches(e, s) <==> exists ps :: PlacedInOrder(s, e.key, 0, ps)
  {
    SearchInOrderComplete(s, e.key, 0);
    var t := Index(s, e.key[0]);
    assert s[0..] == s;
    if t >= 0 {
      assert SearchInOrder(s, e.key, 0) == SearchInOrder(s, e.key[1..], t + |e.key[0]|);
    }
  }

  /** An entry whose second keyword holds a byte absent from s does not match s. */
  lemma AbsentKeyNoMatch(e: SqlTypeMap, s: Bytes, i: nat)
    requires |e.key| > 1 && |e.key[0]| > 0 && i < |e.key[1]| && e.key[1][i] !in s
    ensures !Matches(e, s)
  {
    MatchesInOrder(e, s);
    AbsentByteNoOccurrence(s, e.key[1], i);
    NoPlacementWithoutKey(s, e.key, 0, 1);
  }

  /** The two-keyword entry outranks the plain SHOW prefix. */
  lemma ShowProcessList(s: Bytes)
    requires s == "SHOW PROCESSLIST"
    ensures Classify(s) == "SQLCOM_SHOW_PROCESSLIST"
  {
    var e := KeyWordList()[0];
    assert e.key == ["SHOW", "PROCESSLIST"];
    assert OccursAt(s, "SHOW", 0) && OccursAt(s, "PROCESSLIST", 5);
    assert PlacedInOrder(s, e.key, 0, [0, 5]);
    MatchesInOrder(e, s);
    ClassifyIsFirstMatch(s, 0);
  }

  lemma ShowStatusEntryMatches(s: Bytes)
    requires s == "SELECT SHOWN, STATE"
    ensures Matches(KeyWordList()[4], s)
  {
    var e := KeyWordList()[4];
    assert e.key == ["SHOW", "STAT"];
    assert OccursAt(s, "SHOW", 7) && OccursAt(s, "STAT", 14);
    assert PlacedInOrder(s, e.key, 0, [7, 14]);
    MatchesInOrder(e, s);
  }

  /** An entry whose second keyword holds a byte absent from s does not match s. */
  lemma SecondKeyAbsent(s: Bytes, p: nat, c: Byte, i: nat)
    requires p < |KeyWordList()| && |KeyWordList()[p].key| > 1
    requires i < |KeyWordList()[p].key[1]| && KeyWordList()[p].key[1][i] == c && c !in s
    ensures !Matches(KeyWordList()[p], s)
  {
    AbsentKeyNoMatch(KeyWordList()[p], s, i);
  }

  /** Without the bytes P, V, M and B no statement reaches the first four SHOW entries. */
  lemma EarlierShowEntriesMiss(s: Bytes)
    requires 'P' !in s && 'V' !in s && 'M' !in s && 'B' !in s
    ensures forall p :: 0 <= p < 4 ==> !Matches(KeyWordList()[p], s)
  {
    SecondKeyAbsent(s, 0, 'P', 0);
    SecondKeyAbsent(s, 1, 'V', 3);
    SecondKeyAbsent(s, 2, 'M', 0);
    SecondKeyAbsent(s, 3, 'B', 5);
  }

  /** A statement that mentions SHOW and then STAT, and none of P, V, M, B, is tagged as SHOW STATUS. */
  lemma ShowStatusWithoutEarlierKeys(s: Bytes)
    requires Matches(KeyWordList()[4], s)
    requires 'P' !in s && 'V' !in s && 'M' !in s && 'B' !in s
    ensures Classify(s) == "SQLCOM_SHOW_STATUS"
  {
    EarlierShowEntriesMiss(s);
    ClassifyIsFirstMatch(s, 4);
  }

  /** Keywords are found anywhere, in order: a SELECT that mentions SHOW and STAT is tagged as SHOW STATUS. */
  lemma SelectTaggedAsShowStatus(s: Bytes)
    requires s == "SELECT SHOWN, STATE"
    ensures Classify(s) == "SQLCOM_SHOW_STATUS"
  {
    ShowStatusEntryMatches(s);
    ProbeLacksEarlierKeys(s);
    ShowStatusWithoutEarlierKeys(s);
  }

  lemma ProbeLacksEarlierKeys(s: Bytes)
    requires s == "SELECT SHOWN, STATE"
    ensures 'P' !in s && 'V' !in s && 'M' !in s && 'B' !in s
  {
    assert forall k :: 0 <= k < |s| ==> s[k] in "SELECT HOWN,A";
  }
  /** An entry whose keyword key[n] occurs nowhere in s does not match s. */
  lemma KeyNowhereNoMatch(e: SqlTypeMap, s: Bytes, n: nat)
    requires |e.key| > 1 && |e.key[0]| > 0 && n < |e.key|
    requires forall j: nat :: !OccursAt(s, e.key[n], j)
    ensures !Matches(e, s)
  {
    MatchesInOrder(e, s);
    NoPlacementWithoutKey(s, e.key, 0, n);
  }

  /** A text in which no byte c is followed by d holds no occurrence of a word that starts with c, d. */
  lemma PairAbsentNoOccurrence(s: Bytes, w: Bytes)
    requires |w| >= 2
    requires forall k :: 0 < k < |s| ==> !(s[k - 1] == w[0] && s[k] == w[1])
    ensures forall j: nat :: !OccursAt(s, w, j)
  {
    forall j: nat
      ensures !OccursAt(s, w, j)
    {
      if j + |w| <= |s| {
        assert s[j..j + |w|][0] == s[j] && s[j..j + |w|][1] == s[j + 1];
      }
    }
  }

  /** Without SHOW anywhere, none of the five SHOW entries matches. */
  lemma NoShowEntryMatches(s: Bytes)
    requires forall j: nat :: !OccursAt(s, "SHOW", j)
    ensures forall p :: 0 <= p < 5 ==> !Matches(KeyWordList()[p], s)
  {
    var l := KeyWordList();
    assert forall p :: 0 <= p < 5 ==> |l[p].key| > 1 && l[p].key[0] == "SHOW";
    forall p | 0 <= p < 5
      ensures !Matches(l[p], s)
    {
      KeyNowhereNoMatch(l[p], s, 0);
    }
  }

  /**
   * A statement that starts with SELECT and mentions neither SHOW nor
   * INSERT is tagged SQLCOM_SELECT.
   */
  lemma SelectTagged(s: Bytes)
    requires HasPrefix(s, "SELECT")
    requires forall j: nat :: !OccursAt(s, "SHOW", j)
    requires forall j: nat :: !OccursAt(s, "INSERT", j)
    ensures Classify(s) == "SQLCOM_SELECT"
  {
    var l := KeyWordList();
    NoShowEntryMatches(s);
    assert l[5].key == ["INSERT", "SELECT"];
    KeyNowhereNoMatch(l[5], s, 0);
    assert l[6] == SqlTypeMap(["SELECT"], "SQLCOM_SELECT");
    ClassifyIsFirstMatch(s, 6);
  }

  /**
   * A statement that starts with INSERT and mentions neither SHOW nor
   * SELECT is tagged SQLCOM_INSERT.
   */
  lemma InsertTagged(s: Bytes)
    requires HasPrefix(s, "INSERT")
    requires forall j: nat :: !OccursAt(s, "SHOW", j)
    requires forall j: nat :: !OccursAt(s, "SELECT", j)
    ensures Classify(s) == "SQLCOM_INSERT"
  {
    var l := KeyWordList();
    NoShowEntryMatches(s);
    assert l[5].key == ["INSERT", "SELECT"];
    KeyNowhereNoMatch(l[5], s, 1);
    assert l[6] == SqlTypeMap(["SELECT"], "SQLCOM_SELECT");
    assert s[..6] != "SELECT" by {
      assert s[..6][0] == 'I';
    }
    assert l[7] == SqlTypeMap(["INSERT"], "SQLCOM_INSERT");
    ClassifyIsFirstMatch(s, 7);
  }
}
