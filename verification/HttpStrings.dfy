// What the recovered strings are worth: they end where the parser has been.

module HttpStrings {
  import opened HttpText
  import opened HttpConn
  import opened HttpLines
  import opened HttpChunks

  // ---------- the recovered strings ----------

  /** The pointer is null, or its string ends below the checked index. */
  ghost predicate Grounded(s: Conn, p: Pointer) {
    p == Null || exists k :: p.index <= k < s.checkedIdx <= |s.buf| && s.buf[k] == NUL
  }

  ghost predicate AllGrounded(s: Conn) {
    Grounded(s, s.url) && Grounded(s, s.version) && Grounded(s, s.host)
  }

  function TextAt(s: Conn, p: Pointer): string
    requires p == Null || p.index <= |s.buf|
  {
    if p == Null then "" else CString(s.buf, p.index)
  }

  /** NULs stay, and the checked index does not go back: what was grounded stays so. */
  lemma {:induction false} StaysGrounded(s: Conn, t: Conn, p: Pointer)
    requires Grounded(s, p) && s.checkedIdx <= t.checkedIdx <= |t.buf| == |s.buf|
    requires forall k | 0 <= k < s.checkedIdx && s.buf[k] == NUL :: t.buf[k] == NUL
    ensures Grounded(t, p)
  {
  }

  lemma EndGrounds(s: Conn, p: Pointer, e: nat)
    requires e < s.checkedIdx <= |s.buf| && s.buf[e] == NUL && (p != Null ==> p.index <= e)
    ensures Grounded(s, p)
  {
  }

  lemma {:induction false} TargetGrounds(s: Conn, target: nat, rest: string)
    requires target + |rest| < s.checkedIdx <= |s.buf| && s.buf[target + |rest|] == NUL && AllGrounded(s)
    ensures AllGrounded(TargetWork(s, target, rest).0)
  {
    hide SameNoCase, FirstBlank, FirstSlash, Next, Grounded;
    var t, e := TargetWork(s, target, rest).0, target + |rest|;
    StaysGrounded(s, t, s.host);
    if t.url == s.url { StaysGrounded(s, t, s.url); } else { EndGrounds(t, t.url, e); }
    EndGrounds(t, t.version, e);
  }

  lemma {:induction false} RequestGrounds(s: Conn, text: nat, line: string)
    requires text + |line| < s.checkedIdx <= |s.buf| && s.buf[text + |line|] == NUL && AllGrounded(s)
    ensures AllGrounded(RequestWork(s, text, line).0)
  {
    hide SameNoCase, FirstBlank, Next, TargetWork;
    var j := FirstBlank(line);
    if j < |line| {
      var t := s.(buf := s.buf[text + j := NUL]);
      assert t.buf[text + |line|] == NUL;
      StaysGrounded(s, t, s.version);
      StaysGrounded(s, t, s.host);
      if SameNoCase(line[..j], "GET") {
        var target := Next(line);
        TargetGrounds(t.(url := At(text + target)), text + target, line[target..]);
      }
    }
  }

  lemma {:induction false} HeadersGround(s: Conn, text: nat)
    requires text <= s.checkedIdx <= |s.buf| && TextEnd(s.buf, text) < s.checkedIdx && AllGrounded(s)
    ensures AllGrounded(ParseHeaders(s, text).0)
  {
    hide SameNoCase, Atol, ToInt, Grounded, StartsNoCase, BlankSpan;
    var t := ParseHeaders(s, text).0;
    StaysGrounded(s, t, s.url);
    StaysGrounded(s, t, s.version);
    if t.host == s.host { StaysGrounded(s, t, s.host); } else { EndGrounds(t, t.host, TextEnd(s.buf, text)); }
  }

  lemma {:induction false} HandleGrounds(s: Conn)
    requires Valid(s) && AllGrounded(s) && (s.phase != Content ==> LineScanned(s))
    ensures AllGrounded(HandleLine(s).0)
  {
    hide RequestWork, ParseRequestLine, ParseHeaders, CString;
    var t, text := s.(startLine := s.checkedIdx), s.startLine;
    StaysGrounded(s, t, s.url);
    StaysGrounded(s, t, s.version);
    StaysGrounded(s, t, s.host);
    if s.phase == RequestLine {
      RequestIs(t, text);
      RequestGrounds(t, text, CString(t.buf, text));
    } else if s.phase == Headers {
      HeadersGround(t, text);
    } else {
      var r := ParseContent(t, text).0;
      StaysGrounded(s, r, s.url);
      StaysGrounded(s, r, s.version);
      StaysGrounded(s, r, s.host);
    }
  }

  lemma {:induction false} ScanGrounds(s: Conn)
    requires Valid(s) && Clean(s) && AllGrounded(s)
    ensures AllGrounded(ParseLine(s).0)
  {
    ScanIs(s);
    var t := ParseLine(s).0;
    assert forall k | 0 <= k < s.checkedIdx && s.buf[k] == NUL :: t.buf[k] == NUL;
    StaysGrounded(s, t, s.url);
    StaysGrounded(s, t, s.version);
    StaysGrounded(s, t, s.host);
  }

  /** process_read leaves no pointer to a string that runs past the lines it has taken off. */
  lemma {:induction false} ProcessGrounds(s: Conn, ok: bool)
    requires Valid(s) && Clean(s) && AllGrounded(s)
    ensures Clean(Process(s, ok).0) && AllGrounded(Process(s, ok).0)
    decreases s.readIdx - s.checkedIdx, ok
  {
    hide HandleLine, ParseLine;
    if s.phase == Content && ok {
      HandleGrounds(s);
      var (t, code) := HandleLine(s);
      if code == NoRequest { ProcessGrounds(t, false); }
    } else {
      ScanIs(s);
      ScanGrounds(s);
      var (l, status) := ParseLine(s);
      if status == LineOk {
        ScannedLine(s);
        HandleGrounds(l);
        var (t, code) := HandleLine(l);
        if code == NoRequest { ProcessGrounds(t, l.phase != Content); }
      }
    }
  }

  lemma {:induction false} FeedGrounds(s: Conn, chunks: seq<string>)
    requires Valid(s) && Clean(s) && AllGrounded(s) && s.readIdx + |Joined(chunks)| <= READ_BUFFER_SIZE
    ensures AllGrounded(Feed(s, chunks).0)
    decreases |chunks|
  {
    hide Process;
    if chunks != [] {
      assert Joined(chunks) == chunks[0] + Joined(chunks[1..]);
      var u := Receive(s, chunks[0]);
      ReceivedBytes(s, chunks[0]);
      StaysGrounded(s, u, s.url);
      StaysGrounded(s, u, s.version);
      StaysGrounded(s, u, s.host);
      ProcessGrounds(u, true);
      ReadIdxKept(u, true);
      var (t, code) := ProcessRead(u);
      if code == NoRequest { FeedGrounds(t, chunks[1..]); }
    }
  }
}
