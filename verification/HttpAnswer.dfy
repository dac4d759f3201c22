// The first answer to any bytes, cut into any chunks, told by the bytes alone:
// what their lines say, and what positions in the body say.  No buffer, no
// handler and no phase of the parser is mentioned.

module HttpAnswer {
  import opened HttpText
  import opened HttpConn
  import opened HttpLines
  import opened HttpChunks
  import opened HttpBody
  import opened HttpCuts
  import opened HttpRoundTrip

  // ---------- what the lines of the head say ----------

  /**
   * What becomes of the head.  Unfinished: it is not complete, or a CR or LF
   * stands where no line ends.  Malformed: the first line is no request line.
   * NoBody: complete, of length 0.  BodyAt: complete, and a body of that length
   * is to follow there.
   */
  datatype Head = Unfinished | Malformed | NoBody | BodyAt(start: nat, length: int)

  /** The first CR or LF, or the length. */
  function FirstEnd(bytes: string): (j: nat)
    ensures j <= |bytes| && NoLineEnd(bytes[..j]) && (j < |bytes| ==> bytes[j] in {CR, LF})
  {
    if bytes == "" || bytes[0] in {CR, LF} then 0 else
      var j := 1 + FirstEnd(bytes[1..]);
      assert bytes[..j] == [bytes[0]] + bytes[1..][..j - 1];
      j
  }

  /** The bytes start with a line of length j and its CR LF. */
  predicate LineOf(bytes: string, j: nat) {
    j + 1 < |bytes| && j == FirstEnd(bytes) && bytes[j] == CR && bytes[j + 1] == LF
  }

  /** The text of a line, which a NUL in it cuts short. */
  function TextOf(line: string): string { CString(line, 0) }

  ghost predicate IsRequestLine(text: string) {
    exists target, version :: RequestShape(text, target, version)
  }

  ghost function HeadOf(bytes: string): Head {
    var j := FirstEnd(bytes);
    if !LineOf(bytes, j) then Unfinished
    else if !IsRequestLine(TextOf(bytes[..j])) then Malformed
    else HeadersOf(bytes, j + 2, 0)
  }

  /** The header lines from position at on, up to the first empty one; the last length counts. */
  function HeadersOf(bytes: string, at: nat, length: int): Head
    requires at <= |bytes|
    decreases |bytes| - at
  {
    var rest := bytes[at..];
    var j := FirstEnd(rest);
    if !LineOf(rest, j) then Unfinished else
    var text := TextOf(rest[..j]);
    if text != "" then HeadersOf(bytes, at + j + 2, LengthAfter(text, length))
    else if length == 0 then NoBody else BodyAt(at + j + 2, length)
  }

  function LengthAfter(text: string, length: int): int {
    if StartsNoCase(text, "Content-Length:") then ToInt(Atol(SkipBlanks(text[15..]))) else length
  }

  // ---------- the parser reads that ----------

  /** The bytes from the checked index on are still to be read, and the line begins there. */
  predicate Ahead(s: Conn, bytes: string) {
    && Valid(s) && Clean(s) && s.phase != Content && s.startLine == s.checkedIdx && s.readIdx == |bytes|
    && Unread(s) == bytes[s.checkedIdx..]
  }

  lemma {:induction false} FirstEndIs(s: Conn, bytes: string)
    requires Ahead(s, bytes)
    ensures LineEnd(s) == s.checkedIdx + FirstEnd(bytes[s.checkedIdx..])
    ensures forall i | s.checkedIdx <= i < |bytes| :: s.buf[i] == bytes[i]
  {
    var c, rest := s.checkedIdx, bytes[s.checkedIdx..];
    forall i | c <= i < |bytes| ensures s.buf[i] == bytes[i] {
      assert s.buf[i] == Unread(s)[i - c] && bytes[i] == rest[i - c];
    }
    var j := FirstEnd(rest);
    forall i | c <= i < c + j ensures !IsLineEnd(s.buf[i]) {
      assert rest[..j][i - c] == rest[i - c] == s.buf[i];
    }
    assert j < |rest| ==> rest[j] == s.buf[c + j];
    LineEndIs(s, c + j);
  }

  /** One scan finds a line exactly if the bytes start with one, and its text. */
  lemma {:induction false} LineAhead(s: Conn, bytes: string)
    requires Ahead(s, bytes)
    ensures var rest := bytes[s.checkedIdx..]; var j := FirstEnd(rest); var (l, status) := ParseLine(s);
      && Valid(l) && Clean(l) && l.phase == s.phase && (status == LineOk <==> LineOf(rest, j))
      && (status == LineOk ==>
            && LineScanned(l) && l == s.(buf := l.buf, checkedIdx := s.checkedIdx + j + 2)
            && CString(l.buf, l.startLine) == TextOf(rest[..j]) && Unread(l) == bytes[l.checkedIdx..])
  {
    hide ParseLine, LineEnd, CString, FirstEnd, Unread, TextOf, Clean, LineScanned;
    var c, rest := s.checkedIdx, bytes[s.checkedIdx..];
    var j := FirstEnd(rest);
    FirstEndIs(s, bytes);
    ScanIs(s);
    assert forall i | 0 <= i < |rest| :: rest[i] == s.buf[c + i];
    if LineOf(rest, j) {
      ScannedLine(s);
      CutAhead(s, bytes, j);
    }
  }

  lemma {:induction false} CutAhead(s: Conn, bytes: string, j: nat)
    requires Valid(s) && s.readIdx == |bytes| && s.checkedIdx + j + 2 <= s.readIdx
    requires forall i | s.checkedIdx <= i < |bytes| :: s.buf[i] == bytes[i]
    ensures var l := Cut(s, s.checkedIdx + j);
      CString(l.buf, s.checkedIdx) == TextOf(bytes[s.checkedIdx..][..j]) && Unread(l) == bytes[l.checkedIdx..]
  {
    hide CString, TextOf;
    var c, l := s.checkedIdx, Cut(s, s.checkedIdx + j);
    SameLineText(l.buf, c, bytes[c..][..j]);
  }

  lemma {:induction false} SameLineText(buf: string, c: nat, line: string)
    requires c + |line| < |buf| && buf[c + |line|] == NUL
    requires forall i | 0 <= i < |line| :: buf[c + i] == line[i]
    ensures CString(buf, c) == TextOf(line)
  {
    var e := TextEnd(line, 0);
    assert forall i | c <= i < c + e :: buf[i] == line[i - c];
    CStringIs(buf, c, c + e);
    assert buf[c..c + e] == line[..e];
  }

  /** What is to be shown of the head, once the rest of the bytes says that it is head. */
  ghost predicate ReadAs(s: Conn, bytes: string, head: Head)
    requires Valid(s)
  {
    var (h, code) := ToBody(s);
    match head
    case Unfinished => code == NoRequest && h.phase != Content
    case Malformed => code == BadRequest && h.phase != Content
    case NoBody => code == GetRequest && h.phase != Content
    case BodyAt(start, length) =>
      && code == NoRequest && AtBody(h) && h.checkedIdx == start && h.contentLength == length
      && h.readIdx == |bytes| && Unread(h) == bytes[start..]
  }

  lemma {:induction false} NoTurn(s: Conn)
    requires Valid(s) && s.phase != Content && ParseLine(s).1 != LineOk
    ensures ToBody(s) == (ParseLine(s).0, NoRequest)
  {
  }

  lemma {:induction false} HeadRead(s: Conn)
    requires Valid(s) && s.phase == Content
    ensures ToBody(s) == (s, NoRequest)
  {
  }

  lemma {:induction false} HeadersRead(s: Conn, bytes: string)
    requires Ahead(s, bytes) && s.phase == Headers
    ensures ReadAs(s, bytes, HeadersOf(bytes, s.checkedIdx, s.contentLength))
    decreases |bytes| - s.checkedIdx
  {
    hide ParseLine, CString, TextEnd, LineOf, Unread, TextOf, HandleLine, LengthAfter, ToBody, FirstEnd;
    LineAhead(s, bytes);
    var (l, status) := ParseLine(s);
    if status != LineOk {
      NoTurn(s);
    } else {
      Turn(s);
      HeaderHandled(l);
      var (t, code) := HandleLine(l);
      assert Unread(t) == Unread(l) by { SameUnread(l, t); }
      if code == NoRequest {
        if t.phase == Headers { HeadersRead(t, bytes); } else { HeadRead(t); }
      }
    }
  }

  lemma SameUnread(s: Conn, t: Conn)
    requires Valid(s) && t == s.(startLine := t.startLine, phase := t.phase, url := t.url, version := t.version,
                                 host := t.host, contentLength := t.contentLength, linger := t.linger)
    requires Valid(t)
    ensures Unread(t) == Unread(s)
  {
  }

  /** What a header line does, as far as the answer depends on it. */
  lemma {:induction false} HeaderHandled(l: Conn)
    requires Valid(l) && Clean(l) && l.phase == Headers
    ensures var (t, code) := HandleLine(l); var text := CString(l.buf, l.startLine);
      && Valid(t) && Clean(t)
      && t == l.(startLine := l.checkedIdx, phase := t.phase, host := t.host,
                 contentLength := t.contentLength, linger := t.linger)
      && (if text == "" then
            t.contentLength == l.contentLength &&
            (if l.contentLength == 0 then code == GetRequest && t.phase == Headers
             else code == NoRequest && t.phase == Content)
          else code == NoRequest && t.phase == Headers && t.contentLength == LengthAfter(text, l.contentLength))
  {
    hide CString, SameNoCase, StartsNoCase, Atol, ToInt, BlankSpan;
    NamesDiffer(CString(l.buf, l.startLine));
    HandleStaysClean(l);
  }

  /** The head of any bytes on a new connection. */
  lemma {:induction false} HeadIsRead(bytes: string)
    requires |bytes| <= READ_BUFFER_SIZE
    ensures Valid(Receive(Fresh(), bytes)) && ReadAs(Receive(Fresh(), bytes), bytes, HeadOf(bytes))
  {
    hide ParseLine, CString, TextEnd, LineOf, Unread, TextOf, ParseRequestLine, Receive, RequestShape;
    var s := Receive(Fresh(), bytes);
    ReceivedBytes(Fresh(), bytes);
    FreshUnread(bytes);
    assert bytes[0..] == bytes;
    LineAhead(s, bytes);
    var (l, status) := ParseLine(s);
    if status == LineOk {
      Turn(s);
      var u := l.(startLine := l.checkedIdx);
      RequestLineAcceptsShape(u, l.startLine);
      HandleKeepsUnread(l);
      var (t, code) := HandleLine(l);
      if code == NoRequest {
        AcceptedPhase(u, l.startLine);
        HeadersRead(t, bytes);
      } else {
        RefusedPhase(u, l.startLine);
      }
    }
  }

  lemma {:induction false} AcceptedPhase(s: Conn, text: nat)
    requires text <= |s.buf| && ParseRequestLine(s, text).1 == NoRequest
    ensures var t := ParseRequestLine(s, text).0;
      t == s.(buf := t.buf, url := t.url, version := t.version, phase := Headers)
  {
    hide CString, SameNoCase, StartsNoCase, FirstBlank, FirstSlash, BlankSpan;
  }

  lemma {:induction false} RefusedPhase(s: Conn, text: nat)
    requires text <= |s.buf| && ParseRequestLine(s, text).1 != NoRequest
    ensures ParseRequestLine(s, text).0.phase == s.phase && ParseRequestLine(s, text).1 == BadRequest
  {
    hide CString, SameNoCase, StartsNoCase, FirstBlank, FirstSlash, BlankSpan;
  }

  // ---------- the answer ----------

  /** The first answer when the bytes arrive in these chunks; NoRequest if there is none. */
  ghost function Answer(chunks: seq<string>): Code {
    match HeadOf(Joined(chunks))
    case Unfinished => NoRequest
    case Malformed => BadRequest
    case NoBody => GetRequest
    case BodyAt(start, length) => CodeOf(JudgeAll(Joined(chunks), length, start, start, 0, chunks), length)
  }

  /** process_read after each chunk comes to that answer, for any bytes and any chunks. */
  lemma {:induction false} FeedAnswers(chunks: seq<string>)
    requires chunks != [] && |Joined(chunks)| <= READ_BUFFER_SIZE
    ensures Feed(Fresh(), chunks).1 == Answer(chunks)
  {
    hide Feed, Process, Receive, ToBody, HeadOf, CodeOf, Unread;
    var bytes := Joined(chunks);
    var all := Receive(Fresh(), bytes);
    HeadIsRead(bytes);
    HeadThenBody(all);
    var h := ToBody(all).0;
    if h.phase == Content {
      CutsInsideBody(chunks);
      UnreadBytes(h, bytes);
      JudgeLocal(h.buf, bytes, h.contentLength, h.checkedIdx, h.checkedIdx, 0, chunks);
    } else {
      ChunkingDoesNotMatter(chunks);
    }
  }

  lemma {:induction false} UnreadBytes(h: Conn, bytes: string)
    requires Valid(h) && h.readIdx == |bytes| && Unread(h) == bytes[h.checkedIdx..]
    ensures forall i | h.checkedIdx <= i < |bytes| :: h.buf[i] == bytes[i]
  {
    forall i | h.checkedIdx <= i < |bytes| ensures h.buf[i] == bytes[i] {
      assert h.buf[i] == Unread(h)[i - h.checkedIdx] && bytes[i] == bytes[h.checkedIdx..][i - h.checkedIdx];
    }
  }

  /** The same for one call. */
  lemma {:induction false} CallAnswers(bytes: string)
    requires |bytes| <= READ_BUFFER_SIZE
    ensures ProcessRead(Receive(Fresh(), bytes)).1 == Answer([bytes])
  {
    hide Feed, Process, Receive, Answer;
    FeedOne(bytes);
    FeedAnswers([bytes]);
  }

  /** The bytes start with a complete line that is no request line. */
  ghost predicate StartsMalformed(bytes: string) {
    exists line, more ::
      bytes == line + CRLF + more && NoLineEnd(line) && !IsRequestLine(TextOf(line))
  }

  lemma {:induction false} MalformedIff(bytes: string)
    ensures HeadOf(bytes) == Malformed <==> StartsMalformed(bytes)
  {
    hide TextOf, IsRequestLine, HeadersOf, FirstEnd;
    var j := FirstEnd(bytes);
    if LineOf(bytes, j) {
      assert bytes == bytes[..j] + CRLF + bytes[j + 2..];
      NeverMalformed(bytes, j + 2, 0);
    }
    if line, more :| bytes == line + CRLF + more && NoLineEnd(line) && !IsRequestLine(TextOf(line)) {
      LineInFront(bytes, line, more);
    }
  }

  lemma {:induction false} LineInFront(bytes: string, line: string, more: string)
    requires bytes == line + CRLF + more && NoLineEnd(line)
    ensures FirstEnd(bytes) == |line| && LineOf(bytes, |line|) && bytes[..|line|] == line
  {
    assert bytes[|line|] == CR && bytes[|line| + 1] == LF && bytes[..|line|] == line;
    if line != "" {
      assert bytes[0] == line[0] && bytes[1..] == line[1..] + CRLF + more;
      LineInFront(bytes[1..], line[1..], more);
    }
  }

  lemma {:induction false} NeverMalformed(bytes: string, at: nat, length: int)
    requires at <= |bytes|
    ensures HeadersOf(bytes, at, length) != Malformed
    decreases |bytes| - at
  {
    hide TextOf;
    var rest := bytes[at..];
    var j := FirstEnd(rest);
    if LineOf(rest, j) && TextOf(rest[..j]) != "" {
      NeverMalformed(bytes, at + j + 2, LengthAfter(TextOf(rest[..j]), length));
    }
  }

  /** BAD_REQUEST is the answer exactly to bytes that start with a complete line that is no request line. */
  lemma {:induction false} BadRequestIff(chunks: seq<string>)
    requires chunks != [] && |Joined(chunks)| <= READ_BUFFER_SIZE
    ensures Feed(Fresh(), chunks).1 == BadRequest <==> StartsMalformed(Joined(chunks))
    ensures ProcessRead(Receive(Fresh(), Joined(chunks))).1 == BadRequest <==> StartsMalformed(Joined(chunks))
  {
    hide Feed, Process, Receive, HeadOf, StartsMalformed, JudgeAll;
    FeedAnswers(chunks);
    CallAnswers(Joined(chunks));
    assert Joined([Joined(chunks)]) == Joined(chunks) by { FeedOne(Joined(chunks)); }
    MalformedIff(Joined(chunks));
  }
}
