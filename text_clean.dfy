/**
 * The two text cleaners of the fingerprint code (removeQuote and removeSpace
 * in utils/fingerprint.go): one replaces quoted literals by 's', the other
 * collapses runs of white space.
 */
module TextClean {
  import opened ByteText

  // ------------------------------------------------------------ removeQuote

  /** Where the scan is: outside literals, inside '...' or inside "...". */
  datatype QState = Outside | InSingle | InDouble

  /** The state after reading byte b in state q. */
  function Next(b: Byte, q: QState): QState
  {
    if b == '\'' then (match q case Outside => InSingle case InSingle => Outside case InDouble => InDouble)
    else if b == '"' then (match q case Outside => InDouble case InDouble => Outside case InSingle => InSingle)
    else q
  }

  /**
   * What reading byte b in state q writes: an opening quote of either kind
   * writes a single quote, the matching close writes "s'", the other kind of
   * quote inside a literal writes nothing, a byte outside literals is copied
   * and a byte inside one is dropped.
   */
  function Out(b: Byte, q: QState): Bytes
  {
    if b == '\'' || b == '"' then
      (if q == Outside then "'" else if Next(b, q) == Outside then "s'" else [])
    else if q == Outside then [b]
    else []
  }

  /** How many bytes one step consumes: inside a literal a backslash also swallows the byte after it. */
  function Width(b: Byte, q: QState): nat
  {
    if q != Outside && b == '\\' then 2 else 1
  }

  /** The bytes of s from i on, or nothing once a backslash skip has stepped past the end. */
  function From(s: Bytes, i: nat): Bytes
  {
    if i <= |s| then s[i..] else []
  }

  /** What removeQuote writes for the bytes s, read in state q. */
  function Unquote(s: Bytes, q: QState): Bytes
    decreases |s|
  {
    if s == [] then [] else Out(s[0], q) + Unquote(From(s, Width(s[0], q)), Next(s[0], q))
  }

  /** removeQuote: inputs shorter than two bytes are returned as they are. */
  function RemoveQuoteSpec(sql: Bytes): Bytes
  {
    if |sql| < 2 then sql else Unquote(sql, Outside)
  }

  /** One step of Unquote, read at position i of sql. */
  lemma UnquoteAt(sql: Bytes, i: nat, q: QState)
    requires i < |sql|
    ensures Unquote(From(sql, i), q) == Out(sql[i], q) + Unquote(From(sql, i + Width(sql[i], q)), Next(sql[i], q))
  {
    var s := sql[i..];
    assert s[0] == sql[i];
    assert From(s, Width(sql[i], q)) == From(sql, i + Width(sql[i], q));
  }

  function StateOf(sq: int, bq: int): QState
  {
    if sq == 1 then InSingle else if bq == 1 then InDouble else Outside
  }

  lemma AppendAssoc(a: Bytes, b: Bytes, c: Bytes)
    ensures (a + b) + c == a + (b + c)
  {
  }

  /** removeQuote as the source writes it: one pass with the two quote flags sq and bq. */
  method RemoveQuote(sql: Bytes) returns (r: Bytes)
    ensures r == RemoveQuoteSpec(sql)
  {
    var length := |sql|;
    if length < 2 {
      return sql;
    }
    var sq := 0;
    var bq := 0;
    var result: Bytes := [];
    var i := 0;
    assert From(sql, 0) == sql;
    while i < length
      invariant i <= length + 1
      invariant 0 <= sq <= 1 && 0 <= bq <= 1 && sq + bq <= 1
      invariant result + Unquote(From(sql, i), StateOf(sq, bq)) == Unquote(sql, Outside)
      decreases length + 1 - i
    {
      ghost var q := StateOf(sq, bq);
      ghost var i0 := i;
      ghost var result0 := result;
      UnquoteAt(sql, i, q);
      if sql[i] == '\'' {
        if sq == 0 && bq == 0 {
          sq := 1;
          result := result + "'";
        } else if sq == 1 {
          sq := 0;
          result := result + "s'";
        }
      } else if sql[i] == '"' {
        if sq == 0 && bq == 0 {
          bq := 1;
          result := result + "'";
        } else if bq == 1 {
          bq := 0;
          result := result + "s'";
        }
      } else {
        if sq == 0 && bq == 0 {
          result := result + [sql[i]];
        } else if sql[i] == '\\' {
          i := i + 1;
        }
      }
      i := i + 1;
      assert result == result0 + Out(sql[i0], q);
      assert StateOf(sq, bq) == Next(sql[i0], q);
      assert i == i0 + Width(sql[i0], q);
      AppendAssoc(result0, Out(sql[i0], q), Unquote(From(sql, i), StateOf(sq, bq)));
    }
    assert From(sql, i) == [];
    return result;
  }

  /** Reading one byte that is not a skipping backslash. */
  lemma UnquoteHead(c: Byte, u: Bytes, q: QState)
    requires Width(c, q) == 1
    ensures Unquote([c] + u, q) == Out(c, q) + Unquote(u, Next(c, q))
  {
    assert ([c] + u)[0] == c && From([c] + u, 1) == u;
  }

  predicate QuoteFree(s: Bytes) { '\'' !in s && '"' !in s }

  /** Bytes outside literals are copied unchanged: a quote-free prefix passes through. */
  lemma {:induction false} QuoteFreePrefix(a: Bytes, rest: Bytes)
    requires QuoteFree(a)
    ensures Unquote(a + rest, Outside) == a + Unquote(rest, Outside)
    decreases |a|
  {
    if a == [] {
      assert a + rest == rest;
    } else {
      var c, t := a[0], a[1..];
      assert a == [c] + t;
      assert Out(c, Outside) == [c] && Next(c, Outside) == Outside by {
        assert c in a;
      }
      assert a + rest == [c] + (t + rest);
      UnquoteHead(c, t + rest, Outside);
      QuoteFreePrefix(t, rest);
      AppendAssoc([c], t, Unquote(rest, Outside));
    }
  }

  /** A statement without quotes is its own result. */
  lemma QuoteFreeUnchanged(sql: Bytes)
    requires QuoteFree(sql)
    ensures RemoveQuoteSpec(sql) == sql
  {
    QuoteFreePrefix(sql, []);
    assert sql + [] == sql;
  }

  /** Inside a literal, bytes that are neither quotes nor backslashes are dropped. */
  lemma {:induction false} LiteralBodyDropped(b: Bytes, rest: Bytes, q: QState)
    requires q != Outside && '\'' !in b && '"' !in b && '\\' !in b
    ensures Unquote(b + rest, q) == Unquote(rest, q)
    decreases |b|
  {
    if b == [] {
      assert b + rest == rest;
    } else {
      assert b == [b[0]] + b[1..];
      assert b + rest == [b[0]] + (b[1..] + rest);
      UnquoteHead(b[0], b[1..] + rest, q);
      LiteralBodyDropped(b[1..], rest, q);
    }
  }

  /**
   * A closed literal '...' or "..." whose body holds no quote and no
   * backslash becomes 's'.
   */
  lemma ClosedLiteralBecomesS(delim: Byte, b: Bytes, rest: Bytes)
    requires delim == '\'' || delim == '"'
    requires '\'' !in b && '"' !in b && '\\' !in b
    ensures Unquote([delim] + b + [delim] + rest, Outside) == "'s'" + Unquote(rest, Outside)
  {
    var q := Next(delim, Outside);
    var t := [delim] + rest;
    assert [delim] + b + [delim] + rest == [delim] + (b + t);
    UnquoteHead(delim, b + t, Outside);
    LiteralBodyDropped(b, t, q);
    UnquoteHead(delim, rest, q);
    AppendAssoc("'", "s'", Unquote(rest, Outside));
    assert "'" + "s'" == "'s'";
  }

  /** Only the single quote is ever written for a quote: no double quote survives. */
  lemma {:induction false} NoDoubleQuoteLeft(s: Bytes, q: QState)
    ensures '"' !in Unquote(s, q)
    decreases |s|
  {
    if s != [] {
      NoDoubleQuoteLeft(From(s, Width(s[0], q)), Next(s[0], q));
    }
  }

  /** An escaped quote does not close the literal. */
  lemma EscapedQuoteStaysInside(sql: Bytes)
    requires sql == "'a\\'b' x"
    ensures RemoveQuoteSpec(sql) == "'s' x"
  {
    assert From(sql, 8) == [];
    UnquoteAt(sql, 7, Outside);
    assert Unquote(From(sql, 7), Outside) == "x";
    UnquoteAt(sql, 6, Outside);
    assert Unquote(From(sql, 6), Outside) == " x";
    UnquoteAt(sql, 5, InSingle);
    assert Unquote(From(sql, 5), InSingle) == "s' x";
    UnquoteAt(sql, 4, InSingle);
    UnquoteAt(sql, 2, InSingle);
    UnquoteAt(sql, 1, InSingle);
    assert Unquote(From(sql, 1), InSingle) == "s' x";
    assert From(sql, 0) == sql;
    UnquoteAt(sql, 0, Outside);
  }

  // ------------------------------------------------------------ removeSpace

  /** What the middle loop of removeSpace writes for the byte at j. */
  function SpaceByte(s: Bytes, j: nat): Bytes
    requires 1 <= j < |s|
  {
    if !IsSpace(s[j]) then [s[j]]
    else if IsSpace(s[j - 1]) then []
    else " "
  }

  /** The output of the middle loop from j up to the last byte, which it does not visit. */
  function SpaceMiddle(s: Bytes, j: nat): Bytes
    requires 1 <= j <= |s|
    decreases |s| - j
  {
    if j >= |s| - 1 then [] else SpaceByte(s, j) + SpaceMiddle(s, j + 1)
  }

  /**
   * removeSpace: the first byte is kept as it is; a white-space byte after a
   * non-space becomes ' ', one after another white-space byte is dropped;
   * the last byte is kept only when it is not white space.
   */
  function RemoveSpaceSpec(s: Bytes): Bytes
  {
    if |s| < 2 then s
    else [s[0]] + SpaceMiddle(s, 1) + (if IsSpace(s[|s| - 1]) then [] else [s[|s| - 1]])
  }

  method RemoveSpace(sql: Bytes) returns (r: Bytes)
    ensures r == RemoveSpaceSpec(sql)
  {
    var length := |sql|;
    if length < 2 {
      return sql;
    }
    var buf: Bytes := [sql[0]];
    var j := 1;
    while j < length - 1
      invariant 1 <= j <= length - 1
      invariant buf + SpaceMiddle(sql, j) == [sql[0]] + SpaceMiddle(sql, 1)
      decreases length - j
    {
      if !IsSpace(sql[j - 1]) && IsSpace(sql[j]) {
        buf := buf + " ";
        j := j + 1;
      } else if IsSpace(sql[j - 1]) && IsSpace(sql[j]) {
        j := j + 1;
      } else {
        buf := buf + [sql[j]];
        j := j + 1;
      }
    }
    if !IsSpace(sql[j]) {
      buf := buf + [sql[j]];
    }
    return buf;
  }

  /** The non-space bytes of s, in order. */
  function Solid(s: Bytes): Bytes
  {
    if s == [] then [] else (if IsSpace(s[0]) then [] else [s[0]]) + Solid(s[1..])
  }

  lemma {:induction false} SolidAppend(a: Bytes, b: Bytes)
    ensures Solid(a + b) == Solid(a) + Solid(b)
    decreases |a|
  {
    if a == [] {
      assert a + b == b;
    } else {
      assert (a + b)[0] == a[0] && (a + b)[1..] == a[1..] + b;
      SolidAppend(a[1..], b);
    }
  }

  /** The middle loop keeps the non-space bytes of s[j..|s|-1] and nothing else. */
  lemma {:induction false} MiddleKeepsSolid(s: Bytes, j: nat)
    requires 1 <= j <= |s|
    ensures j < |s| ==> Solid(SpaceMiddle(s, j)) == Solid(s[j..|s| - 1])
    ensures j == |s| ==> SpaceMiddle(s, j) == []
    decreases |s| - j
  {
    if j < |s| - 1 {
      MiddleKeepsSolid(s, j + 1);
      SolidAppend(SpaceByte(s, j), SpaceMiddle(s, j + 1));
      assert s[j..|s| - 1] == [s[j]] + s[j + 1..|s| - 1];
      SolidAppend([s[j]], s[j + 1..|s| - 1]);
    } else if j == |s| - 1 {
      assert s[j..|s| - 1] == [];
    }
  }

  /** removeSpace drops and rewrites white space only: the other bytes survive, in order. */
  lemma RemoveSpaceKeepsSolid(s: Bytes)
    ensures Solid(RemoveSpaceSpec(s)) == Solid(s)
  {
    if |s| >= 2 {
      var last: Bytes := if IsSpace(s[|s| - 1]) then [] else [s[|s| - 1]];
      MiddleKeepsSolid(s, 1);
      SolidAppend([s[0]] + SpaceMiddle(s, 1), last);
      SolidAppend([s[0]], SpaceMiddle(s, 1));
      assert s == [s[0]] + s[1..|s| - 1] + [s[|s| - 1]];
      SolidAppend([s[0]] + s[1..|s| - 1], [s[|s| - 1]]);
      SolidAppend([s[0]], s[1..|s| - 1]);
      assert Solid([s[|s| - 1]]) == Solid(last) by {
        assert [s[|s| - 1]][1..] == [];
        if !IsSpace(s[|s| - 1]) {
          assert last[1..] == [];
        }
      }
    }
  }

  /** No two white-space bytes are adjacent in a sequence. */
  predicate NoDoubleSpace(s: Bytes)
  {
    forall k :: 0 < k < |s| ==> !(IsSpace(s[k - 1]) && IsSpace(s[k]))
  }

  /**
   * The middle loop from j writes no two adjacent white-space bytes, starts
   * with white space only after a non-space byte, and writes white space
   * only as ' '.
   */
  lemma {:induction false} MiddleSingleSpaced(s: Bytes, j: nat)
    requires 1 <= j <= |s|
    ensures NoDoubleSpace(SpaceMiddle(s, j))
    ensures |SpaceMiddle(s, j)| > 0 && IsSpace(SpaceMiddle(s, j)[0]) ==> j < |s| && !IsSpace(s[j - 1])
    ensures forall k :: 0 <= k < |SpaceMiddle(s, j)| && IsSpace(SpaceMiddle(s, j)[k]) ==> SpaceMiddle(s, j)[k] == ' '
    decreases |s| - j
  {
    if j < |s| - 1 {
      MiddleSingleSpaced(s, j + 1);
      var p := SpaceByte(s, j);
      var m := SpaceMiddle(s, j + 1);
      assert SpaceMiddle(s, j) == p + m;
      assert forall k :: 0 <= k < |p| ==> p[k] == s[j] || p[k] == ' ';
      forall k | 0 < k < |p + m|
        ensures !(IsSpace((p + m)[k - 1]) && IsSpace((p + m)[k]))
      {
        if k > |p| {
          assert (p + m)[k - 1] == m[k - 1 - |p|] && (p + m)[k] == m[k - |p|];
        } else if k == |p| {
          assert (p + m)[k] == m[0];
          assert (p + m)[k - 1] == p[|p| - 1];
        }
      }
    }
  }

  /**
   * The result of removeSpace holds no two adjacent white-space bytes, and
   * every white-space byte after the first is a plain ' '.
   */
  lemma RemoveSpaceSingleSpaced(s: Bytes)
    ensures NoDoubleSpace(RemoveSpaceSpec(s))
    ensures forall k :: 0 < k < |RemoveSpaceSpec(s)| && IsSpace(RemoveSpaceSpec(s)[k]) ==> RemoveSpaceSpec(s)[k] == ' '
  {
    if |s| >= 2 {
      var m := SpaceMiddle(s, 1);
      var last: Bytes := if IsSpace(s[|s| - 1]) then [] else [s[|s| - 1]];
      MiddleSingleSpaced(s, 1);
      var r := RemoveSpaceSpec(s);
      assert r == [s[0]] + m + last;
      forall k | 0 < k < |r|
        ensures !(IsSpace(r[k - 1]) && IsSpace(r[k]))
        ensures IsSpace(r[k]) ==> r[k] == ' '
      {
        if k <= |m| {
          assert r[k] == m[k - 1];
          if k > 1 {
            assert r[k - 1] == m[k - 2];
          }
        } else {
          assert r[k] == last[0];
        }
      }
    }
  }
}
