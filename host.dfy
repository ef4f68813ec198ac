/**
 * The process-list row parser of utils/host.go (getConnAddr): a row of
 * MySQL's tab-separated process list gives the connection's thread id and
 * the user and client host it belongs to.
 */
module Host {
  import opened ByteText

  /** MySQLConnAddr: who a connection belongs to. */
  datatype ConnAddr = ConnAddr(username: Bytes, host: Bytes)

  /** What getConnAddr returns for an accepted row: the thread id and the connection's owner. */
  datatype ProcessRow = ProcessRow(threadId: Bytes, addr: ConnAddr)

  /** The user field that starts at i: "null" when the field is empty. It ends at ByteFrom(line, '\t', i). */
  function UserField(line: Bytes, i: nat): Bytes
    requires i < |line|
  {
    if line[i] == '\t' then "null" else line[i..ByteFrom(line, '\t', i)]
  }

  /** A host field without the port: cut before the first ':' unless the field starts with it. */
  function CutPort(h: Bytes): Bytes
  {
    var idx := IndexByte(h, ':');
    if idx > 0 then h[..idx] else h
  }

  /** The host field that starts at k: empty when the row ends first, "null" when the field is empty. */
  function HostField(line: Bytes, k: nat): Bytes
  {
    if k >= |line| then []
    else if line[k] == '\t' then "null"
    else CutPort(line[k..ByteFrom(line, '\t', k)])
  }

  /**
   * getConnAddr: for a row of at least four bytes that starts with a digit
   * 1-9, the leading digits are the thread id; one separator byte follows,
   * then the user field and the host field, each ended by a tab. Nothing
   * when the row is too short, starts otherwise, or ends before the host field.
   */
  function ConnAddrOf(line: Bytes): Option<ProcessRow>
  {
    if |line| < 4 || !('1' <= line[0] <= '9') then None
    else FieldsAfter(line, DigitEnd(line, 0))
  }

  /** The user and host fields after a thread id that ends at t. */
  function FieldsAfter(line: Bytes, t: nat): Option<ProcessRow>
    requires t <= |line|
  {
    if t + 1 >= |line| then None
    else
      var user := UserField(line, t + 1);
      var host := HostField(line, ByteFrom(line, '\t', t + 1) + 1);
      if |user| == 0 || |host| == 0 then None
      else Some(ProcessRow(line[..t], ConnAddr(user, host)))
  }

  /** Advance to the next tab or the end of the row. */
  method SkipToTab(line: Bytes, i: nat) returns (j: nat)
    requires i <= |line|
    ensures j == ByteFrom(line, '\t', i)
  {
    j := i;
    while j < |line| && line[j] != '\t'
      invariant i <= j <= |line|
      invariant ByteFrom(line, '\t', j) == ByteFrom(line, '\t', i)
      decreases |line| - j
    {
      j := j + 1;
    }
  }

  /** getConnAddr, with the returned pointer as an option: None is the source's ("", nil). */
  method GetConnAddr(line: Bytes) returns (threadid: Bytes, addr: Option<ConnAddr>)
    ensures addr.None? ==> threadid == [] && ConnAddrOf(line).None?
    ensures addr.Some? ==> ConnAddrOf(line) == Some(ProcessRow(threadid, addr.value))
  {
    var i := 0;
    var j := 0;
    if |line| < 4 {
      return [], None;
    }
    var username: Bytes := [];
    var host: Bytes := [];
    if '1' <= line[i] <= '9' {
      while i < |line| && '0' <= line[i] <= '9'
        invariant i <= |line|
        invariant DigitEnd(line, i) == DigitEnd(line, 0)
        decreases |line| - i
      {
        i := i + 1;
      }
      threadid := line[..i];
    } else {
      return [], None;
    }
    ghost var t := i;
    assert ConnAddrOf(line) == FieldsAfter(line, t);

    i := i + 1;
    if i < |line| {
      username, j := ReadUser(line, i);
    } else {
      return [], None;
    }

    i := j + 1;
    host := ReadHost(line, i);
    assert FieldsAfter(line, t) == if |username| == 0 || |host| == 0 then None
      else Some(ProcessRow(threadid, ConnAddr(username, host)));

    if |username| == 0 || |host| == 0 {
      return [], None;
    }
    return threadid, Some(ConnAddr(username, host));
  }

  /** The user-field step of getConnAddr: the field, and the tab or end of row after it. */
  method ReadUser(line: Bytes, i: nat) returns (username: Bytes, j: nat)
    requires i < |line|
    ensures username == UserField(line, i) && j == ByteFrom(line, '\t', i)
  {
    j := i;
    if line[j] == '\t' {
      username := "null";
    } else {
      j := SkipToTab(line, i);
      username := line[i..j];
    }
  }

  /** The host-field step of getConnAddr: the field without its port. */
  method ReadHost(line: Bytes, i: nat) returns (host: Bytes)
    ensures host == HostField(line, i)
  {
    host := [];
    if i < |line| {
      if line[i] == '\t' {
        host := "null";
      } else {
        var j := SkipToTab(line, i);
        var h := line[i..j];
        var idx := IndexByte(h, ':');
        if idx > 0 {
          host := h[..idx];
        } else {
          host := h;
        }
      }
    }
  }

  // ---------------------------------------------------------------- lemmas

  lemma HostFieldNotEmpty(line: Bytes, k: nat)
    requires k < |line|
    ensures |HostField(line, k)| > 0
  {
  }

  /**
   * A row is accepted exactly when it has at least four bytes, starts with a
   * digit 1-9, and has a tab after the byte that follows the thread id which
   * is not the last byte of the row.
   */
  lemma AcceptedExactly(line: Bytes)
    ensures ConnAddrOf(line).Some? <==>
      |line| >= 4 && '1' <= line[0] <= '9' &&
      exists p :: DigitEnd(line, 0) + 1 <= p < |line| - 1 && line[p] == '\t'
  {
    if |line| >= 4 && '1' <= line[0] <= '9' {
      FieldsAfterExactly(line, DigitEnd(line, 0));
    }
  }

  /** After a thread id ending at t, the fields are read exactly when a tab follows t + 1 before the last byte. */
  lemma FieldsAfterExactly(line: Bytes, t: nat)
    requires t <= |line|
    ensures FieldsAfter(line, t).Some? <==> exists p :: t + 1 <= p < |line| - 1 && line[p] == '\t'
  {
    if t + 1 < |line| {
      var j := ByteFrom(line, '\t', t + 1);
      ByteAbsent(line, '\t', t + 1);
      if j + 1 < |line| {
        assert line[j] == '\t';
        HostFieldNotEmpty(line, j + 1);
      } else {
        assert forall p :: t + 1 <= p < |line| - 1 ==> line[p] != '\t';
      }
    }
  }

  /** Thread-id digits: a run of decimal digits without a leading zero. */
  predicate IsThreadId(tid: Bytes)
  {
    |tid| >= 1 && '1' <= tid[0] <= '9' && forall k :: 0 <= k < |tid| ==> IsDigit(tid[k])
  }

  /** The thread id of an accepted row: the maximal digit run at its start, without a leading zero. */
  lemma ThreadIdShape(line: Bytes)
    requires ConnAddrOf(line).Some?
    ensures var tid := ConnAddrOf(line).value.threadId;
      IsThreadId(tid) && tid == line[..|tid|] && |tid| < |line| && !IsDigit(line[|tid|])
  {
    DigitRun(line, 0);
  }

  /** A field of the row: no tab inside. */
  predicate TabFreeField(f: Bytes)
  {
    forall k :: 0 <= k < |f| ==> f[k] != '\t'
  }

  /** The user field holds no tab. */
  lemma UserFieldShape(line: Bytes, i: nat)
    requires i < |line|
    ensures TabFreeField(UserField(line, i))
  {
    ByteAbsent(line, '\t', i);
  }

  /** The host field holds no tab, and a ':' only as its first byte. */
  lemma HostFieldShape(line: Bytes, k: nat)
    ensures TabFreeField(HostField(line, k))
    ensures ':' in HostField(line, k) ==> HostField(line, k)[0] == ':'
  {
    if k < |line| && line[k] != '\t' {
      var h := line[k..ByteFrom(line, '\t', k)];
      ByteAbsent(line, '\t', k);
      assert forall m :: 0 <= m < |h| ==> h[m] == line[k + m];
      IndexByteIsFirst(h, ':');
      var idx := IndexByte(h, ':');
      if idx > 0 {
        assert forall m :: 0 <= m < idx ==> h[..idx][m] == h[m];
      }
    }
  }

  /**
   * The user and host of an accepted row are non-empty and hold no tab, and
   * the host holds a ':' only as its first byte.
   */
  lemma AcceptedShape(line: Bytes)
    requires ConnAddrOf(line).Some?
    ensures var a := ConnAddrOf(line).value.addr;
      |a.username| > 0 && TabFreeField(a.username) &&
      |a.host| > 0 && TabFreeField(a.host) && (':' in a.host ==> a.host[0] == ':')
  {
    var i := DigitEnd(line, 0) + 1;
    UserFieldShape(line, i);
    HostFieldShape(line, ByteFrom(line, '\t', i) + 1);
  }

  /** A thread id followed by a tab is read back whole. */
  lemma ThreadIdOfRow(line: Bytes, tid: Bytes)
    requires IsThreadId(tid) && |tid| < |line| && line[..|tid|] == tid && line[|tid|] == '\t'
    ensures DigitEnd(line, 0) == |tid|
  {
    assert forall k :: 0 <= k < |tid| ==> line[k] == line[..|tid|][k];
    DigitEndIs(line, 0, |tid|);
  }

  /** A non-empty user field followed by a tab is read back whole. */
  lemma UserOfRow(line: Bytes, i: nat, user: Bytes)
    requires |user| > 0 && TabFreeField(user)
    requires i + |user| < |line| && line[i..i + |user|] == user && line[i + |user|] == '\t'
    ensures UserField(line, i) == user && ByteFrom(line, '\t', i) == i + |user|
  {
    assert forall k :: i <= k < i + |user| ==> line[k] == line[i..i + |user|][k - i];
    ByteFromIs(line, '\t', i, i + |user|);
  }

  /** A host field followed by nothing, a tab, or a ':' and a port is read back without the port. */
  lemma HostOfRow(line: Bytes, k: nat, host: Bytes, tail: Bytes)
    requires k <= |line| && line[k..] == host + tail
    requires |host| > 0 && TabFreeField(host) && ':' !in host
    requires tail == [] || tail[0] == '\t' || tail[0] == ':'
    ensures HostField(line, k) == host
  {
    var n := k + |host|;
    assert forall m :: k <= m < |line| ==> line[m] == line[k..][m - k];
    assert forall m :: k <= m < n ==> line[m] == host[m - k];
    var e := ByteFrom(line, '\t', n);
    ByteAbsent(line, '\t', n);
    assert n < |line| ==> line[n] == tail[0];
    assert e > n ==> line[n] == ':';
    ByteFromIs(line, '\t', k, e);
    var h := line[k..e];
    assert |h| >= |host|;
    assert forall m :: 0 <= m < |host| ==> h[m] == host[m];
    assert h[..|host|] == host;
    ByteFromIs(h, ':', 0, |host|);
  }

  /**
   * Reading a row back: thread id, a tab, the user, a tab, the host and what
   * follows it (nothing, a tab, or a ':' and the port) give the thread id,
   * the user and the host.
   */
  lemma RowRoundTrip(line: Bytes, tid: Bytes, user: Bytes, host: Bytes, tail: Bytes)
    requires IsThreadId(tid)
    requires |user| > 0 && TabFreeField(user)
    requires |host| > 0 && TabFreeField(host) && ':' !in host
    requires tail == [] || tail[0] == '\t' || tail[0] == ':'
    requires line == tid + "\t" + user + "\t" + host + tail
    ensures ConnAddrOf(line) == Some(ProcessRow(tid, ConnAddr(user, host)))
  {
    RowSlices(line, tid, user, host, tail);
    AcceptedFromSlices(line, tid, user, host, tail);
  }

  lemma RowSlices(line: Bytes, tid: Bytes, user: Bytes, host: Bytes, tail: Bytes)
    requires line == tid + "\t" + user + "\t" + host + tail
    ensures |line| == |tid| + |user| + |host| + |tail| + 2
    ensures line[..|tid|] == tid && line[|tid|] == '\t'
    ensures line[|tid| + 1..|tid| + 1 + |user|] == user && line[|tid| + 1 + |user|] == '\t'
    ensures line[|tid| + |user| + 2..] == host + tail
  {
    assert line[0..] == tid + ("\t" + (user + ("\t" + (host + tail))));
    FieldThenTab(line, 0, tid, user + ("\t" + (host + tail)));
    assert line[..|tid|] == line[0..|tid|];
    FieldThenTab(line, |tid| + 1, user, host + tail);
  }

  /** Where s holds f and a tab from a on: the slices of f and of what follows the tab. */
  lemma FieldThenTab(s: Bytes, a: nat, f: Bytes, rest: Bytes)
    requires a <= |s| && s[a..] == f + ("\t" + rest)
    ensures |s| == a + |f| + 1 + |rest|
    ensures s[a..a + |f|] == f && s[a + |f|] == '\t' && s[a + |f| + 1..] == rest
  {
    var t := s[a..];
    assert t[..|f|] == f && t[|f|] == '\t' && t[|f| + 1..] == rest;
    assert s[a..a + |f|] == t[..|f|];
    assert s[a + |f| + 1..] == t[|f| + 1..];
  }

  lemma AcceptedFromSlices(line: Bytes, tid: Bytes, user: Bytes, host: Bytes, tail: Bytes)
    requires IsThreadId(tid)
    requires |user| > 0 && TabFreeField(user)
    requires |host| > 0 && TabFreeField(host) && ':' !in host
    requires tail == [] || tail[0] == '\t' || tail[0] == ':'
    requires |line| == |tid| + |user| + |host| + |tail| + 2
    requires line[..|tid|] == tid && line[|tid|] == '\t'
    requires line[|tid| + 1..|tid| + 1 + |user|] == user && line[|tid| + 1 + |user|] == '\t'
    requires line[|tid| + |user| + 2..] == host + tail
    ensures ConnAddrOf(line) == Some(ProcessRow(tid, ConnAddr(user, host)))
  {
    ThreadIdOfRow(line, tid);
    UserOfRow(line, |tid| + 1, user);
    HostOfRow(line, |tid| + |user| + 2, host, tail);
    assert line[0] == tid[0];
    AcceptedFromFields(line, tid, user, host);
  }

  /** ConnAddrOf from where the thread id, the user field and the host field end. */
  lemma AcceptedFromFields(line: Bytes, tid: Bytes, user: Bytes, host: Bytes)
    requires |line| >= 4 && '1' <= line[0] <= '9'
    requires DigitEnd(line, 0) == |tid| && line[..|tid|] == tid && |tid| + 1 < |line|
    requires UserField(line, |tid| + 1) == user && ByteFrom(line, '\t', |tid| + 1) == |tid| + 1 + |user|
    requires HostField(line, |tid| + |user| + 2) == host
    requires |user| > 0 && |host| > 0
    ensures ConnAddrOf(line) == Some(ProcessRow(tid, ConnAddr(user, host)))
  {
    assert ConnAddrOf(line) == FieldsAfter(line, |tid|);
  }

  /** A row with an empty user and an empty host reports both as "null". */
  lemma EmptyFieldsAreNull(tid: Bytes, rest: Bytes)
    requires IsThreadId(tid)
    ensures ConnAddrOf(tid + "\t\t\t" + rest) == Some(ProcessRow(tid, ConnAddr("null", "null")))
  {
    var line := tid + "\t\t\t" + rest;
    var t := |tid|;
    assert forall k :: 0 <= k < t ==> line[k] == tid[k];
    DigitEndIs(line, 0, t);
    assert line[..t] == tid;
    assert line[t + 1] == '\t' && line[t + 2] == '\t';
  }

  /** A row that ends right after the user field gives nothing: there is no host field. */
  lemma RowWithoutHostRejected(tid: Bytes, user: Bytes)
    requires IsThreadId(tid) && |user| > 0 && TabFreeField(user)
    ensures ConnAddrOf(tid + "\t" + user).None?
  {
    var line := tid + "\t" + user;
    var t := |tid|;
    assert forall k :: 0 <= k < t ==> line[k] == tid[k];
    DigitEndIs(line, 0, t);
    var i := t + 1;
    assert forall k :: i <= k < |line| ==> line[k] == user[k - i];
    ByteFromIs(line, '\t', i, |line|);
  }
}
