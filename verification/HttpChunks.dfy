// How the bytes are split into chunks does not change the outcome.

module HttpChunks {
  import opened HttpText
  import opened HttpConn
  import opened HttpLines

  // ---------- the scanner never meets a line end behind it ----------

  predicate IsLineEnd(c: char) { c == CR || c == LF }

  /** No byte below the checked index is CR or LF. */
  predicate Clean(s: Conn)
    requires Valid(s)
  {
    forall i | 0 <= i < s.checkedIdx :: !IsLineEnd(s.buf[i])
  }

  /** The line up to position j, which ends in CR LF, is taken off. */
  function Cut(s: Conn, j: nat): (t: Conn)
    requires Valid(s) && s.checkedIdx <= j && j + 2 <= s.readIdx
    ensures Valid(t)
  {
    s.(buf := s.buf[j := NUL][j + 1 := NUL], checkedIdx := j + 2)
  }

  /** The first CR or LF among the unread bytes, or the read index. */
  function LineEnd(s: Conn): (j: nat)
    requires Valid(s)
    ensures s.checkedIdx <= j <= s.readIdx
    ensures forall i | s.checkedIdx <= i < j :: !IsLineEnd(s.buf[i])
    ensures j < s.readIdx ==> IsLineEnd(s.buf[j])
    decreases s.readIdx - s.checkedIdx
  {
    var c := s.checkedIdx;
    if c == s.readIdx || IsLineEnd(s.buf[c]) then c else LineEnd(s.(checkedIdx := c + 1))
  }

  function Scanned(s: Conn): (Conn, LineStatus)
    requires Valid(s)
  {
    var j := LineEnd(s);
    if j == s.readIdx || (s.buf[j] == CR && j + 1 == s.readIdx) then (s.(checkedIdx := j), LineOpen)
    else if s.buf[j] == CR && s.buf[j + 1] == LF then (Cut(s, j), LineOk)
    else (s.(checkedIdx := j), LineBad)
  }

  /**
   * One scan from a clean state: it stops at the first CR or LF.  A stray LF is
   * always bad, so the branch that looks back for a CR is never taken.
   */
  lemma {:induction false} ScanIs(s: Conn)
    requires Valid(s) && Clean(s)
    ensures ParseLine(s) == Scanned(s)
    ensures Clean(ParseLine(s).0)
    decreases s.readIdx - s.checkedIdx
  {
    var c := s.checkedIdx;
    if c < s.readIdx && !IsLineEnd(s.buf[c]) {
      ScanIs(s.(checkedIdx := c + 1));
    }
  }

  lemma {:induction false} LineEndIs(s: Conn, j: nat)
    requires Valid(s) && s.checkedIdx <= j <= s.readIdx
    requires forall i | s.checkedIdx <= i < j :: !IsLineEnd(s.buf[i])
    requires j < s.readIdx ==> IsLineEnd(s.buf[j])
    ensures LineEnd(s) == j
  {
  }

  // ---------- more bytes behind ----------

  /** s and t differ in what was read, but not below position c. */
  ghost predicate Agree(s: Conn, t: Conn, c: nat) {
    && c <= |s.buf| == |t.buf|
    && t == s.(buf := t.buf, readIdx := t.readIdx)
    && s.buf[..c] == t.buf[..c]
  }

  lemma {:induction false} ReceivedBytes(s: Conn, y: string)
    requires Valid(s) && s.readIdx + |y| <= READ_BUFFER_SIZE
    ensures var t := Receive(s, y); t == s.(buf := t.buf, readIdx := s.readIdx + |y|)
    ensures Receive(s, y).buf[..s.readIdx] == s.buf[..s.readIdx]
    ensures forall i | 0 <= i < s.readIdx :: Receive(s, y).buf[i] == s.buf[i]
  {
  }

  /** Writes below the read index and newly received bytes do not meet. */
  lemma {:induction false} ReceiveCommutes(s: Conn, y: string, k: nat)
    requires Valid(s) && s.readIdx + |y| <= READ_BUFFER_SIZE && k < s.readIdx
    ensures Receive(s, y).buf[k := NUL] == Receive(s.(buf := s.buf[k := NUL]), y).buf
  {
  }

  lemma {:induction false} CutReceive(s: Conn, y: string, j: nat)
    requires Valid(s) && s.readIdx + |y| <= READ_BUFFER_SIZE && s.checkedIdx <= j && j + 2 <= s.readIdx
    ensures Cut(Receive(s, y), j) == Receive(Cut(s, j), y)
  {
    ReceiveCommutes(s, y, j);
    ReceiveCommutes(s.(buf := s.buf[j := NUL]), y, j + 1);
  }

  /** Scanning with more bytes behind gives the same line, or takes up where the short scan stopped. */
  lemma {:induction false} ScanReceive(s: Conn, y: string)
    requires Valid(s) && Clean(s) && s.readIdx + |y| <= READ_BUFFER_SIZE
    ensures Clean(ParseLine(s).0)
    ensures var (l, status) := ParseLine(s);
      ParseLine(Receive(s, y)) ==
      if status == LineOpen then ParseLine(Receive(l, y)) else (Receive(l, y), status)
  {
    var j := LineEnd(s);
    ScanIs(s);
    if j == s.readIdx || (s.buf[j] == CR && j + 1 == s.readIdx) {
      ScanResumes(s, y, j);
    } else {
      ScanReceiveDone(s, y);
    }
  }

  lemma {:induction false} ScanReceiveDone(s: Conn, y: string)
    requires Valid(s) && Clean(s) && s.readIdx + |y| <= READ_BUFFER_SIZE
    requires var j := LineEnd(s); j < s.readIdx && (s.buf[j] == LF || j + 1 < s.readIdx)
    ensures ParseLine(Receive(s, y)) == (Receive(ParseLine(s).0, y), ParseLine(s).1)
  {
    hide Receive, ParseLine;
    var t, j := Receive(s, y), LineEnd(s);
    ReceivedBytes(s, y);
    ScanIs(s);
    ScanIs(t);
    LineEndIs(t, j);
    if s.buf[j] == CR && s.buf[j + 1] == LF {
      CutReceive(s, y, j);
    } else {
      ReceiveMoved(s, y, j);
    }
  }

  lemma {:induction false} ReceiveMoved(s: Conn, y: string, j: nat)
    requires Valid(s) && s.readIdx + |y| <= READ_BUFFER_SIZE && s.startLine <= j <= s.readIdx
    ensures Receive(s.(checkedIdx := j), y) == Receive(s, y).(checkedIdx := j)
  {
  }

  lemma {:induction false} ScanResumes(s: Conn, y: string, j: nat)
    requires Valid(s) && Clean(s) && s.readIdx + |y| <= READ_BUFFER_SIZE
    requires s.checkedIdx <= j <= s.readIdx
    requires forall i | s.checkedIdx <= i < j :: !IsLineEnd(s.buf[i])
    ensures ParseLine(Receive(s, y)) == ParseLine(Receive(s.(checkedIdx := j), y))
  {
    hide Receive, ParseLine;
    var t := Receive(s, y);
    ReceivedBytes(s, y);
    ReceiveMoved(s, y, j);
    ScanIs(t);
    ScanIs(t.(checkedIdx := j));
    LineEndIs(t, LineEnd(t.(checkedIdx := j)));
  }

  // ---------- handlers only look at the line ----------

  lemma {:induction false} UpdateAgrees(a: string, b: string, c: nat, k: nat)
    requires c <= |a| == |b| && a[..c] == b[..c] && k < c
    ensures a[k := NUL][..c] == b[k := NUL][..c]
    ensures a[k := NUL][c..] == a[c..] && b[k := NUL][c..] == b[c..]
  {
  }

  /** Two runs of a handler on texts that agree below c agree below c, and leave the rest alone. */
  ghost predicate SameWork(s: Conn, t: Conn, c: nat, s': (Conn, Code), t': (Conn, Code)) {
    && s'.1 == t'.1 && Agree(s'.0, t'.0, c)
    && |s.buf| == |s'.0.buf| && |t.buf| == |t'.0.buf| && c <= |s.buf| == |t.buf|
    && s'.0.buf[c..] == s.buf[c..] && t'.0.buf[c..] == t.buf[c..]
  }

  lemma {:induction false} TargetIsLocal(s: Conn, t: Conn, target: nat, rest: string, c: nat)
    requires Agree(s, t, c) && target + |rest| < c
    ensures SameWork(s, t, c, TargetWork(s, target, rest), TargetWork(t, target, rest))
  {
    hide SameNoCase, FirstBlank, FirstSlash, Next, StartsNoCase;
    var k := FirstBlank(rest);
    if k < |rest| {
      UpdateAgrees(s.buf, t.buf, c, target + k);
    }
  }

  lemma {:induction false} RequestIsLocal(s: Conn, t: Conn, text: nat, line: string, c: nat)
    requires Agree(s, t, c) && text + |line| < c
    ensures SameWork(s, t, c, RequestWork(s, text, line), RequestWork(t, text, line))
  {
    hide SameNoCase, FirstBlank, Next, TargetWork;
    var j := FirstBlank(line);
    if j < |line| {
      UpdateAgrees(s.buf, t.buf, c, text + j);
      var a, b := s.(buf := s.buf[text + j := NUL]), t.(buf := t.buf[text + j := NUL]);
      if SameNoCase(line[..j], "GET") {
        var target := Next(line);
        TargetIsLocal(a.(url := At(text + target)), b.(url := At(text + target)), text + target, line[target..], c);
      }
    }
  }

  /** The line that was scanned ends below the checked index. */
  predicate LineScanned(s: Conn)
    requires Valid(s)
  {
    s.startLine < s.checkedIdx && TextEnd(s.buf, s.startLine) < s.checkedIdx
  }

  lemma {:induction false} ParseRequestLineIsLocal(s: Conn, t: Conn, text: nat, c: nat)
    requires Agree(s, t, c) && text < c && TextEnd(s.buf, text) < c
    ensures SameWork(s, t, c, ParseRequestLine(s, text), ParseRequestLine(t, text))
  {
    hide CString, ParseRequestLine, RequestWork;
    CStringWithin(s.buf, t.buf, text, c);
    RequestIs(s, text);
    RequestIs(t, text);
    RequestIsLocal(s, t, text, CString(s.buf, text), c);
  }

  lemma {:induction false} ParseHeadersIsLocal(s: Conn, t: Conn, text: nat, c: nat)
    requires Agree(s, t, c) && text < c && TextEnd(s.buf, text) < c
    ensures SameWork(s, t, c, ParseHeaders(s, text), ParseHeaders(t, text))
  {
    hide CString, SameNoCase, Atol, ToInt, BlankSpan;
    CStringWithin(s.buf, t.buf, text, c);
  }

  lemma {:induction false} ReceiveBehind(s: Conn, t: Conn, y: string, c: nat)
    requires Valid(s) && Valid(t) && s.readIdx == t.readIdx && s.readIdx + |y| <= READ_BUFFER_SIZE
    requires c <= s.readIdx && s.buf[c..] == t.buf[c..]
    ensures Receive(t, y).buf == t.buf[..c] + Receive(s, y).buf[c..]
  {
    var a, b := Receive(t, y).buf, t.buf[..c] + Receive(s, y).buf[c..];
    forall i | 0 <= i < |a| ensures a[i] == b[i] {
      if i >= c {
        assert b[i] == Receive(s, y).buf[i];
        assert s.buf[c..][i - c] == t.buf[c..][i - c];
      }
    }
  }

  /** Handling the scanned line commutes with receiving more bytes. */
  lemma {:induction false} HandleReceive(s: Conn, y: string)
    requires Valid(s) && s.phase != Content && LineScanned(s) && s.readIdx + |y| <= READ_BUFFER_SIZE
    ensures HandleLine(Receive(s, y)) == (Receive(HandleLine(s).0, y), HandleLine(s).1)
  {
    hide ParseRequestLine, ParseHeaders, Receive, TextEnd;
    var c := s.checkedIdx;
    var a, b := s.(startLine := c), Receive(s, y).(startLine := c);
    ReceivedBytes(s, y);
    assert Agree(a, b, c) by {
      assert a.buf[..s.readIdx][..c] == a.buf[..c] && b.buf[..s.readIdx][..c] == b.buf[..c];
    }
    if s.phase == RequestLine {
      ParseRequestLineIsLocal(a, b, s.startLine, c);
    } else {
      ParseHeadersIsLocal(a, b, s.startLine, c);
    }
    var a', b' := HandleLine(s), HandleLine(Receive(s, y));
    assert SameWork(a, b, c, a', b');
    ReceiveBehind(s, a'.0, y, c);
    assert b'.0.buf == b'.0.buf[..c] + b'.0.buf[c..];
    ReceivedBytes(a'.0, y);
  }

  // ---------- the request up to its body ----------

  /** The loop of process_read, stopped where the body would begin. */
  function ToBody(s: Conn): (r: (Conn, Code))
    requires Valid(s)
    ensures Valid(r.0)
    decreases s.readIdx - s.checkedIdx
  {
    if s.phase == Content then (s, NoRequest) else
    var (l, status) := ParseLine(s);
    if status != LineOk then (l, NoRequest) else
    var (t, code) := HandleLine(l);
    if code != NoRequest then (t, code) else ToBody(t)
  }

  /** process_read is the head, then the body. */
  lemma {:induction false} HeadThenBody(s: Conn)
    requires Valid(s)
    ensures var (h, code) := ToBody(s);
      ProcessRead(s) == if code == NoRequest && h.phase == Content then Process(h, true) else (h, code)
    decreases s.readIdx - s.checkedIdx
  {
    if s.phase != Content {
      var (l, status) := ParseLine(s);
      if status == LineOk {
        var (t, code) := HandleLine(l);
        if code == NoRequest { HeadThenBody(t); }
      }
    }
  }

  lemma {:induction false} ScannedLine(s: Conn)
    requires Valid(s) && Clean(s) && ParseLine(s).1 == LineOk
    ensures LineScanned(ParseLine(s).0)
  {
    ScanIs(s);
    assert ParseLine(s).0.buf[LineEnd(s)] == NUL;
  }

  /** A scan that found no line finds none again, and does not move. */
  lemma {:induction false} ScanAgain(s: Conn)
    requires Valid(s) && Clean(s) && ParseLine(s).1 != LineOk
    ensures Clean(ParseLine(s).0) && ParseLine(ParseLine(s).0) == ParseLine(s)
  {
    var j := LineEnd(s);
    ScanIs(s);
    ScanIs(s.(checkedIdx := j));
  }

  /**
   * The head of a longer input: what was decided stays decided, and what was
   * not is decided from where the shorter input left the connection.
   */
  lemma {:induction false} HeadReceive(s: Conn, y: string)
    requires Valid(s) && Clean(s) && s.readIdx + |y| <= READ_BUFFER_SIZE
    ensures var (h, code) := ToBody(s);
      && Clean(h) && h.readIdx == s.readIdx
      && (h.phase == Content && s.phase != Content ==> h.startLine == h.checkedIdx)
      && ToBody(Receive(s, y)) == if code != NoRequest then (Receive(h, y), code) else ToBody(Receive(h, y))
    decreases s.readIdx - s.checkedIdx
  {
    hide HandleLine, ParseLine, Receive;
    ReceivedBytes(s, y);
    if s.phase != Content {
      ScanReceive(s, y);
      var (l, status) := ParseLine(s);
      ReceivedBytes(l, y);
      if status == LineOk {
        ScannedLine(s);
        HandleReceive(l, y);
        var (t, code) := HandleLine(l);
        ReceivedBytes(t, y);
        if code == NoRequest { HeadReceive(t, y); }
      } else {
        ScanAgain(s);
        ScanReceive(l, y);
      }
    }
  }

  // ---------- chunks ----------

  /** No chunk but the last ends strictly between lo and hi; the first chunk begins at from. */
  predicate SplitsOutside(from: nat, chunks: seq<string>, lo: int, hi: int)
    decreases |chunks|
  {
    |chunks| <= 1 ||
    (!(lo < from + |chunks[0]| < hi) && SplitsOutside(from + |chunks[0]|, chunks[1..], lo, hi))
  }

  /** No chunk but the last ends strictly inside the body of the whole input. */
  predicate SplitsOutsideBody(s: Conn, chunks: seq<string>)
    requires Valid(s) && s.readIdx + |Joined(chunks)| <= READ_BUFFER_SIZE
  {
    var h := ToBody(Receive(s, Joined(chunks))).0;
    h.phase == Content ==> SplitsOutside(s.readIdx, chunks, h.checkedIdx, h.checkedIdx + h.contentLength)
  }

  /**
   * Same code, same fields, same bytes below the checked index: so the same
   * url, version and host.  Bytes that were not looked at may differ.
   */
  ghost predicate SameOutcome(a: (Conn, Code), b: (Conn, Code)) {
    a.1 == b.1 && a.0.checkedIdx <= |a.0.buf| && Agree(a.0, b.0, a.0.checkedIdx)
  }

  lemma {:induction false} ReceiveTwice(s: Conn, x: string, y: string)
    requires Valid(s) && s.readIdx + |x| + |y| <= READ_BUFFER_SIZE
    ensures Receive(Receive(s, x), y) == Receive(s, x + y)
  {
    var a, b := Receive(Receive(s, x), y).buf, Receive(s, x + y).buf;
    assert a == b;
  }

  lemma {:induction false} ReceiveNothing(s: Conn)
    requires Valid(s)
    ensures Receive(s, "") == s
  {
  }

  lemma {:induction false} ReceiveSameOutcome(s: Conn, y: string, code: Code)
    requires Valid(s) && s.readIdx + |y| <= READ_BUFFER_SIZE
    ensures SameOutcome((s, code), (Receive(s, y), code))
  {
    ReceivedBytes(s, y);
    var t := Receive(s, y);
    assert s.buf[..s.readIdx][..s.checkedIdx] == s.buf[..s.checkedIdx];
    assert t.buf[..s.readIdx][..s.checkedIdx] == t.buf[..s.checkedIdx];
  }

  /** A body that has begun: nothing of it has been looked at. */
  predicate AtBody(s: Conn) {
    s.phase == Content && s.startLine == s.checkedIdx
  }

  /** parse_content does not wait: the outcome is settled, whatever comes behind. */
  lemma {:induction false} WholeBody(s: Conn, y: string)
    requires Valid(s) && AtBody(s) && s.readIdx + |y| <= READ_BUFFER_SIZE && !Waits(s)
    ensures Process(s, true).1 in {GetRequest, OutOfBuffer, SumOverflows}
    ensures SameOutcome(Process(s, true), Process(Receive(s, y), true))
  {
    var t := Receive(s, y);
    ReceiveSameOutcome(s, y, NoRequest);
    var end, c := s.startLine + s.contentLength, s.checkedIdx;
    if 0 <= end < READ_BUFFER_SIZE {
      if end < c {
        UpdateAgrees(s.buf, t.buf, c, end);
      } else {
        assert s.buf[end := NUL][..c] == s.buf[..c];
        assert t.buf[end := NUL][..c] == t.buf[..c];
      }
    }
  }

  /** Nothing of the body has arrived: nothing happens. */
  lemma {:induction false} NoBodyYet(s: Conn)
    requires Valid(s) && AtBody(s) && s.checkedIdx == s.readIdx && Waits(s)
    ensures Process(s, true) == (s, NoRequest)
  {
  }

  /**
   * Feeding the chunks one by one and handing them over at once come to the
   * same, if no chunk but the last ends strictly inside the body.
   */
  lemma {:induction false} FeedIsWhole(s: Conn, chunks: seq<string>)
    requires Valid(s) && Clean(s) && (s.phase == Content ==> AtBody(s) && s.checkedIdx == s.readIdx)
    requires chunks != [] && s.readIdx + |Joined(chunks)| <= READ_BUFFER_SIZE
    requires SplitsOutsideBody(s, chunks)
    ensures SameOutcome(Feed(s, chunks), ProcessRead(Receive(s, Joined(chunks))))
    decreases |chunks|
  {
    hide ToBody, Process, Receive;
    var z, rest := chunks[0], chunks[1..];
    var y := Joined(rest);
    assert Joined(chunks) == z + y;
    var u := Receive(s, z);
    ReceiveTwice(s, z, y);
    ReceivedBytes(s, z);
    assert Clean(u);
    HeadReceive(u, y);
    HeadThenBody(u);
    var w := Receive(u, y);
    HeadThenBody(w);
    var (h, code) := ToBody(u);
    if rest == [] {
      assert y == "" && z + y == z;
      assert Feed(s, chunks) == ProcessRead(u);
      ReceiveSameOutcome(ProcessRead(u).0, "", NoRequest);
    } else if code != NoRequest {
      ReceiveSameOutcome(h, y, code);
    } else if h.phase != Content {
      HeadThenBody(Receive(h, y));
      FeedIsWhole(h, rest);
    } else {
      BodyHead(h, y);
      if s.phase == Content { BodyHead(s, z); }
      HeadThenBody(Receive(h, y));
      if !Waits(h) {
        WholeBody(h, y);
      } else {
        assert SplitsOutside(s.readIdx, chunks, h.checkedIdx, h.checkedIdx + h.contentLength);
        NoBodyYet(h);
        FeedIsWhole(h, rest);
      }
    }
  }

  lemma {:induction false} BodyHead(h: Conn, y: string)
    requires Valid(h) && h.phase == Content && h.readIdx + |y| <= READ_BUFFER_SIZE
    ensures ToBody(Receive(h, y)) == (Receive(h, y), NoRequest)
    ensures Receive(h, y).phase == Content
    ensures Receive(h, y).checkedIdx == h.checkedIdx && Receive(h, y).contentLength == h.contentLength
  {
  }

  /** For a new connection: the way its bytes are cut up does not matter. */
  lemma {:induction false} ChunkingDoesNotMatter(chunks: seq<string>)
    requires chunks != [] && |Joined(chunks)| <= READ_BUFFER_SIZE
    requires SplitsOutsideBody(Fresh(), chunks)
    ensures SameOutcome(Feed(Fresh(), chunks), ProcessRead(Receive(Fresh(), Joined(chunks))))
  {
    FeedIsWhole(Fresh(), chunks);
  }
}
