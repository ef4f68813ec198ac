/**
 * Newline removal and MySQL string escaping (RemoveNewLine and EscapeString
 * in utils/string.go). Both fill a preallocated byte buffer through a write
 * index and return the filled prefix.
 */
module TextEdit {
  import opened ByteText

  // --------------------------------------------------------- RemoveNewLine

  /** The bytes of s other than '\n', in order. */
  function WithoutNewLines(s: Bytes): Bytes
  {
    if s == [] then []
    else WithoutNewLines(s[..|s| - 1]) + (if s[|s| - 1] == '\n' then [] else [s[|s| - 1]])
  }

  method RemoveNewLine(str: Bytes) returns (r: Bytes)
    ensures r == WithoutNewLines(str)
  {
    var length := |str|;
    if length == 0 {
      return [];
    }
    var i := 0;
    var buf := new Byte[length];
    for j := 0 to length
      invariant i <= j
      invariant buf[..i] == WithoutNewLines(str[..j])
    {
      assert str[..j + 1][..j] == str[..j];
      if str[j] != '\n' {
        buf[i] := str[j];
        i := i + 1;
      }
    }
    assert str[..length] == str;
    if i == 0 {
      return [];
    }
    return buf[..i];
  }

  lemma {:induction false} WithoutNewLinesAppend(a: Bytes, b: Bytes)
    ensures WithoutNewLines(a + b) == WithoutNewLines(a) + WithoutNewLines(b)
    decreases |b|
  {
    if b == [] {
      assert a + b == a;
    } else {
      var c := b[..|b| - 1];
      assert (a + b)[..|a + b| - 1] == a + c;
      WithoutNewLinesAppend(a, c);
    }
  }

  /** RemoveNewLine leaves no newline behind. */
  lemma {:induction false} NoNewLineLeft(s: Bytes)
    ensures '\n' !in WithoutNewLines(s)
    decreases |s|
  {
    if s != [] {
      NoNewLineLeft(s[..|s| - 1]);
    }
  }

  /**
   * RemoveNewLine drops every '\n' and nothing else: every other byte keeps
   * its number of occurrences, and the length drops by the number of newlines.
   */
  lemma {:induction false} OnlyNewLinesDropped(s: Bytes)
    ensures forall b :: b != '\n' ==> multiset(WithoutNewLines(s))[b] == multiset(s)[b]
    ensures |WithoutNewLines(s)| == |s| - multiset(s)['\n']
    decreases |s|
  {
    if s != [] {
      var p, c := s[..|s| - 1], s[|s| - 1];
      OnlyNewLinesDropped(p);
      assert s == p + [c];
      assert multiset(s) == multiset(p) + multiset{c};
      var e := if c == '\n' then [] else [c];
      assert WithoutNewLines(s) == WithoutNewLines(p) + e;
      assert multiset(WithoutNewLines(s)) == multiset(WithoutNewLines(p)) + multiset(e);
    }
  }

  /** A text without newlines is returned unchanged, so the removal is idempotent. */
  lemma {:induction false} NoNewLineUnchanged(s: Bytes)
    requires '\n' !in s
    ensures WithoutNewLines(s) == s
    decreases |s|
  {
    if s != [] {
      var p := s[..|s| - 1];
      assert s == p + [s[|s| - 1]];
      assert forall b :: b in p ==> b in s;
      NoNewLineUnchanged(p);
    }
  }

  lemma RemoveNewLineIdempotent(s: Bytes)
    ensures WithoutNewLines(WithoutNewLines(s)) == WithoutNewLines(s)
  {
    NoNewLineLeft(s);
    NoNewLineUnchanged(WithoutNewLines(s));
  }

  // ---------------------------------------------------------- EscapeString

  /** The code byte that follows the backslash for the seven escaped bytes. */
  function EscapeCode(c: Byte): Option<Byte>
  {
    if c == 0 as char then Some('0')
    else if c == '\n' then Some('n')
    else if c == '\r' then Some('r')
    else if c == 0x1a as char then Some('Z')
    else if c == '\'' then Some('\'')
    else if c == '"' then Some('"')
    else if c == '\\' then Some('\\')
    else None
  }

  /** The byte a code stands for after a backslash: the inverse of EscapeCode. */
  function DecodeEscape(d: Byte): Option<Byte>
  {
    if d == '0' then Some(0 as char)
    else if d == 'n' then Some('\n')
    else if d == 'r' then Some('\r')
    else if d == 'Z' then Some(0x1a as char)
    else if d == '\'' then Some('\'')
    else if d == '"' then Some('"')
    else if d == '\\' then Some('\\')
    else None
  }

  lemma CodesAreInverse(c: Byte)
    ensures EscapeCode(c).Some? ==> DecodeEscape(EscapeCode(c).value) == Some(c)
    ensures EscapeCode(c).None? ==> c != '\\'
  {
  }

  function EscapeByte(c: Byte): Bytes
  {
    match EscapeCode(c)
    case Some(d) => ['\\', d]
    case None => [c]
  }

  /** EscapeString's output: each escaped byte becomes a backslash and its code, the rest are copied. */
  function Escape(s: Bytes): Bytes
  {
    if s == [] then [] else Escape(s[..|s| - 1]) + EscapeByte(s[|s| - 1])
  }

  method EscapeString(str: Bytes) returns (r: Bytes)
    ensures r == Escape(str)
  {
    var pos := 0;
    var buf := new Byte[|str| * 2];
    for k := 0 to |str|
      invariant pos <= 2 * k
      invariant buf[..pos] == Escape(str[..k])
    {
      var c := str[k];
      assert str[..k + 1][..k] == str[..k];
      match EscapeCode(c)
      case Some(d) =>
        buf[pos] := '\\';
        buf[pos + 1] := d;
        pos := pos + 2;
      case None =>
        buf[pos] := c;
        pos := pos + 1;
    }
    assert str[..|str|] == str;
    return buf[..pos];
  }

  lemma {:induction false} EscapeAppend(a: Bytes, b: Bytes)
    ensures Escape(a + b) == Escape(a) + Escape(b)
    decreases |b|
  {
    if b == [] {
      assert a + b == a;
    } else {
      var c := b[..|b| - 1];
      assert (a + b)[..|a + b| - 1] == a + c;
      EscapeAppend(a, c);
    }
  }

  /** The output is between one and two times as long as the input. */
  lemma {:induction false} EscapeLength(s: Bytes)
    ensures |s| <= |Escape(s)| <= 2 * |s|
    decreases |s|
  {
    if s != [] {
      EscapeLength(s[..|s| - 1]);
    }
  }

  /** Reading an escaped text back: a backslash and a known code give the byte it stands for. */
  function Unescape(t: Bytes): Bytes
    decreases |t|
  {
    if t == [] then []
    else if t[0] == '\\' && |t| >= 2 && DecodeEscape(t[1]).Some? then [DecodeEscape(t[1]).value] + Unescape(t[2..])
    else [t[0]] + Unescape(t[1..])
  }

  lemma UnescapeByte(c: Byte, rest: Bytes)
    ensures Unescape(EscapeByte(c) + rest) == [c] + Unescape(rest)
  {
    CodesAreInverse(c);
    var e := EscapeByte(c);
    if EscapeCode(c).Some? {
      assert (e + rest)[0] == '\\' && (e + rest)[1] == EscapeCode(c).value;
      assert (e + rest)[2..] == rest;
    } else {
      assert (e + rest)[0] == c && (e + rest)[1..] == rest;
    }
  }

  /** Escaping loses nothing: unescaping the output gives the input back. */
  lemma {:induction false} EscapeRoundTrip(s: Bytes)
    ensures Unescape(Escape(s)) == s
    decreases |s|
  {
    if s != [] {
      var t := s[1..];
      assert s == [s[0]] + t;
      EscapeAppend([s[0]], t);
      assert Escape([s[0]]) == EscapeByte(s[0]) by {
        assert [s[0]][..0] == [];
      }
      UnescapeByte(s[0], Escape(t));
      EscapeRoundTrip(t);
    }
  }

  /** The k-th input byte, when it is one of the seven, shows up as a backslash and its code right after the escape of the bytes before it. */
  lemma EscapedAt(s: Bytes, k: nat)
    requires k < |s| && EscapeCode(s[k]).Some?
    ensures |Escape(s[..k])| + 1 < |Escape(s)|
    ensures Escape(s)[|Escape(s[..k])|] == '\\'
    ensures Escape(s)[|Escape(s[..k])| + 1] == EscapeCode(s[k]).value
  {
    assert s == s[..k] + [s[k]] + s[k + 1..];
    EscapeAppend(s[..k] + [s[k]], s[k + 1..]);
    EscapeAppend(s[..k], [s[k]]);
    assert Escape([s[k]]) == EscapeByte(s[k]) by {
      assert [s[k]][..0] == [];
    }
  }

  /** No NUL, newline, carriage return or Ctrl-Z is left in the output. */
  lemma {:induction false} NoControlBytesLeft(s: Bytes)
    ensures forall b :: b in Escape(s) ==> b != 0 as char && b != '\n' && b != '\r' && b != 0x1a as char
    decreases |s|
  {
    if s != [] {
      NoControlBytesLeft(s[..|s| - 1]);
    }
  }
}
