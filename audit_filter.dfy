/**
 * Whether a statement is written to the audit log (IsAuditSql in
 * utils/string.go): very short and very long statements and multi-statement
 * queries always are, the connection check "SELECT 1" never is, and of the
 * rest those a blacklist entry matches are not.
 */
module AuditFilter {
  import opened ByteText

  /**
   * The blacklist of statements that are not audited: the first word is a
   * prefix of the statement (any case), the others must follow in order in
   * the upper-cased rest.
   */
  const BlackList: seq<seq<Bytes>> := [
    ["SHOW", "STATUS"],
    ["SHOW", "VARIABLES"],
    ["SELECT @@VERSION_COMMENT LIMIT"],
    ["SELECT", "FROM heartbeat WHERE"],
    ["REPLACE INTO heartbeat SET"],
    ["SHOW", "INNODB", "STATUS"],
    ["SHOW", "PROCESSLIST"],
    ["SHOW", "PLUGINS"],
    ["SHOW", "FULL", "TABLES", "FROM", "LIKE", "PROBABLYNOT"],
    ["SET", "AUTOCOMMIT"]
  ]

  /** The blacklist with the heartbeat keywords upper-cased, as the search on the upper-cased text needs. */
  const FixedBlackList: seq<seq<Bytes>> := BlackList[3 := ["SELECT", "FROM HEARTBEAT WHERE"]]

  /**
   * The keyword loop of IsAuditSql on the upper-cased rest u, with the
   * remaining text u[from..]: each keyword is searched for in what follows
   * the previous match; the loop gives up on a missing keyword or when
   * nothing is left. (The source's "nothing left" is u[|u|..].)
   */
  function ChainFrom(u: Bytes, keys: seq<Bytes>, from: nat): bool
    requires from <= |u|
    decreases |keys|
  {
    if keys == [] then true
    else if from == |u| then false
    else
      var idx := Index(u[from..], keys[0]);
      if idx < 0 then false else ChainFrom(u, keys[1..], from + idx + |keys[0]|)
  }

  /** A blacklist entry matches: its first word starts the statement, the rest follow in order. */
  predicate Listed(sql: Bytes, entry: seq<Bytes>)
    requires |entry| > 0
  {
    LongerWithPrefixFold(sql, entry[0]) && ChainFrom(Upper(sql[|entry[0]|..]), entry[1..], 0)
  }

  predicate ValidList(list: seq<seq<Bytes>>)
  {
    forall n :: 0 <= n < |list| ==> |list[n]| > 0
  }

  /**
   * IsAuditSql against a blacklist: statements of at most four or at least
   * 64 bytes, and statements holding ';', are audited; "SELECT 1" in any case
   * is not; of the others, those a blacklist entry matches are not.
   */
  function Audit(sql: Bytes, list: seq<seq<Bytes>>): bool
    requires ValidList(list)
  {
    if |sql| <= 4 || |sql| >= 64 then true
    else if EqualFold(sql, "SELECT 1") then false
    else if ';' in sql then true
    else forall n :: 0 <= n < |list| ==> !Listed(sql, list[n])
  }

  /** One blacklist entry against a statement, as the source writes it. */
  method MatchEntry(sql: Bytes, blackSQL: seq<Bytes>) returns (listed: bool)
    requires |blackSQL| > 0
    ensures listed == Listed(sql, blackSQL)
  {
    var length := |blackSQL[0]|;
    if |sql| > length && EqualFold(blackSQL[0], sql[..length]) {
      var upperSQL := Upper(sql[length..]);
      var i := MatchKeywords(upperSQL, blackSQL);
      return i == |blackSQL|;
    }
    return false;
  }

  /** The keyword loop: it runs through all keywords exactly when the entry's other keywords follow in order. */
  method MatchKeywords(u0: Bytes, blackSQL: seq<Bytes>) returns (i: nat)
    requires |blackSQL| > 0
    ensures i == |blackSQL| <==> ChainFrom(u0, blackSQL[1..], 0)
  {
    var upperSQL := u0;
    ghost var from: nat := 0;
    i := 1;
    while i < |blackSQL| && |upperSQL| > 0
      invariant 1 <= i <= |blackSQL| && from <= |u0|
      invariant upperSQL == u0[from..]
      invariant ChainFrom(u0, blackSQL[i..], from) == ChainFrom(u0, blackSQL[1..], 0)
      decreases |blackSQL| - i
    {
      var keyWord := blackSQL[i];
      var idx := Index(upperSQL, keyWord);
      ChainStep(u0, blackSQL, i, from);
      if idx < 0 {
        break;
      }
      idx := idx + |keyWord|;
      if idx < |upperSQL| {
        upperSQL := upperSQL[idx..];
        assert upperSQL == u0[from + idx..];
      } else {
        upperSQL := [];
      }
      from := from + idx;
      i := i + 1;
    }
    ChainAtEnd(u0, blackSQL, i);
  }

  /** One round of the keyword loop: a missing keyword ends the match, a found one moves past it. */
  lemma ChainStep(u: Bytes, keys: seq<Bytes>, i: nat, from: nat)
    requires 1 <= i < |keys| && from < |u|
    ensures Index(u[from..], keys[i]) < 0 ==> !ChainFrom(u, keys[i..], from)
    ensures Index(u[from..], keys[i]) >= 0 ==>
      ChainFrom(u, keys[i..], from) == ChainFrom(u, keys[i + 1..], from + Index(u[from..], keys[i]) + |keys[i]|)
  {
    assert keys[i..][0] == keys[i];
    assert keys[i..][1..] == keys[i + 1..];
  }

  /** The loop stops matching when every keyword was found, and fails when nothing is left. */
  lemma ChainAtEnd(u: Bytes, keys: seq<Bytes>, i: nat)
    requires 1 <= i <= |keys|
    ensures i == |keys| ==> ChainFrom(u, keys[i..], |u|)
    ensures i < |keys| ==> !ChainFrom(u, keys[i..], |u|)
  {
  }

  method IsAuditSqlWith(sql: Bytes, blackList: seq<seq<Bytes>>) returns (r: bool)
    requires ValidList(blackList)
    ensures r == Audit(sql, blackList)
  {
    if |sql| <= 4 || |sql| >= 64 {
      return true;
    }
    if EqualFold(sql, "SELECT 1") {
      return false;
    }
    if ';' in sql {
      return true;
    }
    for n := 0 to |blackList|
      invariant forall m :: 0 <= m < n ==> !Listed(sql, blackList[m])
    {
      var listed := MatchEntry(sql, blackList[n]);
      if listed {
        return false;
      }
    }
    return true;
  }

  /** IsAuditSql as written, with the blacklist as the source spells it. */
  method IsAuditSql(sql: Bytes) returns (r: bool)
    ensures r == Audit(sql, BlackList)
  {
    r := IsAuditSqlWith(sql, BlackList);
  }

  /** IsAuditSql with the heartbeat keywords upper-cased. */
  method IsAuditSqlFixed(sql: Bytes) returns (r: bool)
    ensures r == Audit(sql, FixedBlackList)
  {
    r := IsAuditSqlWith(sql, FixedBlackList);
  }

  /** With non-empty keywords, the keyword loop succeeds exactly when the greedy in-order search does. */
  lemma {:induction false} ChainIsSearch(u: Bytes, keys: seq<Bytes>, from: nat)
    requires from <= |u| && forall n :: 0 <= n < |keys| ==> |keys[n]| > 0
    ensures ChainFrom(u, keys, from) <==> SearchInOrder(u, keys, from) >= 0
    decreases |keys|
  {
    if keys != [] {
      if from == |u| {
        assert !OccursAt(u[from..], keys[0], 0);
      } else {
        var idx := Index(u[from..], keys[0]);
        if idx >= 0 {
          ChainIsSearch(u, keys[1..], from + idx + |keys[0]|);
        }
      }
    }
  }

  /**
   * A blacklist entry matches exactly when the statement starts with its
   * first word and its other keywords can be placed, in order and without
   * overlap, in the upper-cased rest.
   */
  lemma ListedIsPlacement(sql: Bytes, entry: seq<Bytes>)
    requires |entry| > 0 && forall n :: 0 <= n < |entry| ==> |entry[n]| > 0
    ensures Listed(sql, entry) <==>
      LongerWithPrefixFold(sql, entry[0]) && exists ps :: PlacedInOrder(Upper(sql[|entry[0]|..]), entry[1..], 0, ps)
  {
    if LongerWithPrefixFold(sql, entry[0]) {
      var u := Upper(sql[|entry[0]|..]);
      ChainIsSearch(u, entry[1..], 0);
      SearchInOrderComplete(u, entry[1..], 0);
    }
  }

  /** Short and long statements, and statements with ';', are always audited. */
  lemma AlwaysAudited(sql: Bytes, list: seq<seq<Bytes>>)
    requires ValidList(list)
    requires |sql| <= 4 || |sql| >= 64 || (';' in sql && !EqualFold(sql, "SELECT 1"))
    ensures Audit(sql, list)
  {
  }

  /** "SELECT 1" is never audited, whatever its case. */
  lemma SelectOneNotAudited(sql: Bytes, list: seq<seq<Bytes>>)
    requires ValidList(list) && EqualFold(sql, "SELECT 1")
    ensures !Audit(sql, list)
  {
  }

  /** A statement without ';' of 5 to 63 bytes that an entry matches is not audited. */
  lemma BlacklistedNotAudited(sql: Bytes, list: seq<seq<Bytes>>, n: nat)
    requires ValidList(list) && n < |list| && Listed(sql, list[n])
    requires 4 < |sql| < 64 && ';' !in sql
    ensures !Audit(sql, list)
  {
  }

  /** An upper-cased text holds no lower-case letter, so it holds no 'h'. */
  lemma NoLowerAfterUpper(s: Bytes)
    ensures 'h' !in Upper(s)
  {
    var u := Upper(s);
    forall k | 0 <= k < |u|
      ensures u[k] != 'h'
    {
      assert u[k] == UpperByte(s[k]);
    }
  }

  /** As written, the heartbeat SELECT entry can never match: its second keyword has lower-case letters. */
  lemma HeartbeatEntryNeverMatches(sql: Bytes)
    ensures !Listed(sql, BlackList[3])
  {
    var e := BlackList[3];
    if LongerWithPrefixFold(sql, e[0]) {
      var u := Upper(sql[|e[0]|..]);
      NoLowerAfterUpper(sql[|e[0]|..]);
      var key: Bytes := "FROM heartbeat WHERE";
      assert key[5] == 'h';
      AbsentByteNoOccurrence(u, key, 5);
      assert e[1..] == [key];
      assert u[0..] == u;
    }
  }

  /** A statement that differs, up to case, from p at some index below |p| does not start with p. */
  lemma DiffersAt(s: Bytes, p: Bytes, k: nat)
    requires k < |p| && k < |s| && UpperByte(s[k]) != UpperByte(p[k])
    ensures !LongerWithPrefixFold(s, p)
  {
    if |s| > |p| {
      assert s[..|p|][k] == s[k];
    }
  }

  /** A heartbeat probe of the kind the blacklist means to leave out. */
  const Probe: Bytes := "SELECT ts " + ProbeKey + " id=1"

  const ProbeKey: Bytes := "FROM heartbeat WHERE"

  /** The probe starts with no first word of the blacklist but SELECT. */
  lemma ProbeMissesOtherEntries(n: nat)
    requires n < |BlackList| && n != 3
    ensures !Listed(Probe, BlackList[n])
  {
    var w := BlackList[n][0];
    if n == 2 {
      DiffersAt(Probe, w, 7);
    } else if n == 4 {
      DiffersAt(Probe, w, 0);
    } else if n == 9 {
      DiffersAt(Probe, w, 2);
    } else {
      assert w == "SHOW";
      DiffersAt(Probe, w, 1);
    }
  }

  /** So, as written, a heartbeat probe is audited although the blacklist lists it. */
  lemma HeartbeatProbeAudited()
    ensures Audit(Probe, BlackList)
  {
    assert |Probe| == 35;
    assert ';' !in Probe;
    forall n | 0 <= n < |BlackList|
      ensures !Listed(Probe, BlackList[n])
    {
      if n == 3 {
        HeartbeatEntryNeverMatches(Probe);
      } else {
        ProbeMissesOtherEntries(n);
      }
    }
  }

  /** The upper-cased form of a text equal, up to case, to one without lower-case letters is that text. */
  lemma UpperOfFold(c: Bytes, key: Bytes)
    requires EqualFold(c, key) && forall k :: 0 <= k < |key| ==> !('a' <= key[k] <= 'z')
    ensures Upper(c) == key
  {
    forall k | 0 <= k < |c|
      ensures Upper(c)[k] == key[k]
    {
      assert UpperByte(key[k]) == key[k];
    }
  }

  /** A keyword that occurs in u is found by the keyword loop. */
  lemma SingleKeyFound(u: Bytes, key: Bytes, p: nat)
    requires |key| > 0 && OccursAt(u, key, p)
    ensures ChainFrom(u, [key], 0)
  {
    assert u[0..] == u;
    assert [key][1..] == [];
  }

  lemma UpperSlice(s: Bytes, i: nat, j: nat)
    requires i <= j <= |s|
    ensures Upper(s)[i..j] == Upper(s[i..j])
  {
  }

  /**
   * With the keywords upper-cased, a SELECT (any case) that mentions FROM
   * heartbeat WHERE (any case), is short enough and has no ';', is not
   * audited.
   */
  lemma HeartbeatProbeNotAudited(sql: Bytes, p: nat)
    requires 6 <= p && p + 20 <= |sql| < 64 && ';' !in sql
    requires EqualFold(sql[..6], "SELECT") && EqualFold(sql[p..p + 20], "FROM HEARTBEAT WHERE")
    ensures !Audit(sql, FixedBlackList)
  {
    var key: Bytes := "FROM HEARTBEAT WHERE";
    var entry: seq<Bytes> := FixedBlackList[3];
    assert entry == ["SELECT", key];
    var rest := sql[6..];
    assert rest[p - 6..p + 14] == sql[p..p + 20];
    UpperSlice(rest, p - 6, p + 14);
    UpperOfFold(sql[p..p + 20], key);
    SingleKeyFound(Upper(rest), key, p - 6);
    assert entry[1..] == [key];
    assert Listed(sql, entry);
    BlacklistedNotAudited(sql, FixedBlackList, 3);
  }

  /** The same probe, once the keywords are upper-cased, is not audited. */
  lemma HeartbeatProbeFixed()
    ensures !Audit(Probe, FixedBlackList)
  {
    ProbeFields();
    HeartbeatProbeNotAudited(Probe, 10);
  }

  lemma ProbeFields()
    ensures 30 <= |Probe| < 64 && ';' !in Probe
    ensures EqualFold(Probe[..6], "SELECT") && EqualFold(Probe[10..30], "FROM HEARTBEAT WHERE")
  {
    assert Probe[..6] == "SELECT";
    assert Probe[10..30] == ProbeKey;
  }
}
