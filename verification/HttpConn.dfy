// The incremental request parser as values: one connection's buffer, indices
// and fields, the line scanner, the three line handlers, and process_read.

module HttpConn {
  import opened HttpText

  const READ_BUFFER_SIZE: int := 2048

  datatype Phase = RequestLine | Headers | Content

  datatype LineStatus = LineOk | LineBad | LineOpen

  /**
   * What process_read returns.  GetRequest stands for the call of do_request.
   * Two are not codes of the source.  OutOfBuffer marks the one store, of the
   * NUL behind the body, that can fall outside m_read_buf; SumOverflows marks
   * the one sum of two ints, of the length and the checked index, that can
   * exceed an int.  What the source does from there on is not defined.
   */
  datatype Code = NoRequest | GetRequest | BadRequest | OutOfBuffer | SumOverflows

  /** A pointer into the read buffer, or null. */
  datatype Pointer = Null | At(index: nat)

  datatype Conn = Conn(
    buf: string,
    readIdx: nat,
    checkedIdx: nat,
    startLine: nat,
    phase: Phase,
    url: Pointer,
    version: Pointer,
    host: Pointer,
    contentLength: int,
    linger: bool)

  predicate Valid(s: Conn) {
    |s.buf| == READ_BUFFER_SIZE && s.startLine <= s.checkedIdx <= s.readIdx <= READ_BUFFER_SIZE
  }

  /** `init`. */
  function Fresh(): (s: Conn)
    ensures Valid(s) && forall i | 0 <= i < READ_BUFFER_SIZE :: s.buf[i] == NUL
  {
    Conn(seq(READ_BUFFER_SIZE, _ => NUL), 0, 0, 0, RequestLine, Null, Null, Null, 0, false)
  }

  /** Bytes arriving behind the ones already read. */
  function Receive(s: Conn, bytes: string): (t: Conn)
    requires Valid(s) && s.readIdx + |bytes| <= READ_BUFFER_SIZE
    ensures Valid(t)
  {
    s.(buf := s.buf[..s.readIdx] + bytes + s.buf[s.readIdx + |bytes|..], readIdx := s.readIdx + |bytes|)
  }

  // ---------- the scanner ----------

  function ParseLine(s: Conn): (r: (Conn, LineStatus))
    requires Valid(s)
    ensures Valid(r.0)
    ensures r.0 == s.(buf := r.0.buf, checkedIdx := r.0.checkedIdx) && s.checkedIdx <= r.0.checkedIdx
    ensures r.1 == LineOk ==> s.checkedIdx < r.0.checkedIdx
    decreases s.readIdx - s.checkedIdx
  {
    var c := s.checkedIdx;
    if c == s.readIdx then (s, LineOpen)
    else if s.buf[c] == CR then
      if c + 1 == s.readIdx then (s, LineOpen)
      else if s.buf[c + 1] == LF then (s.(buf := s.buf[c := NUL][c + 1 := NUL], checkedIdx := c + 2), LineOk)
      else (s, LineBad)
    else if s.buf[c] == LF then
      if c > 1 && s.buf[c - 1] == CR then (s.(buf := s.buf[c - 1 := NUL][c := NUL], checkedIdx := c + 1), LineOk)
      else (s, LineBad)
    else ParseLine(s.(checkedIdx := c + 1))
  }

  // ---------- the line handlers ----------

  /** What a handler may change: the text of the line, the phase and the recovered fields. */
  predicate Handled(s: Conn, t: Conn) {
    && |t.buf| == |s.buf| && t.readIdx == s.readIdx
    && t.checkedIdx == s.checkedIdx && t.startLine == s.startLine
    && forall i | 0 <= i < |s.buf| :: t.buf[i] == s.buf[i] || t.buf[i] == NUL
  }

  function ParseRequestLine(s: Conn, text: nat): (r: (Conn, Code))
    requires text <= |s.buf|
    ensures Handled(s, r.0) && r.1 in {NoRequest, BadRequest}
  {
    var line := CString(s.buf, text);
    var j := FirstBlank(line);
    if j == |line| then (s.(url := Null), BadRequest) else
    var buf := s.buf[text + j := NUL];
    var url := text + j + 1;
    if !SameNoCase(CString(buf, text), "GET") then (s.(buf := buf, url := At(url)), BadRequest) else
    var target := url + BlankSpan(CString(buf, url));
    ParseTarget(s.(buf := buf, url := At(target)), target)
  }

  function ParseTarget(s: Conn, target: nat): (r: (Conn, Code))
    requires target <= |s.buf|
    ensures Handled(s, r.0) && r.1 in {NoRequest, BadRequest}
  {
    var rest := CString(s.buf, target);
    var k := FirstBlank(rest);
    if k == |rest| then (s.(version := Null), BadRequest) else
    var buf := s.buf[target + k := NUL];
    var version := target + k + 1 + BlankSpan(CString(buf, target + k + 1));
    CheckTarget(s.(buf := buf, version := At(version)), target, CString(buf, target), CString(buf, version))
  }

  /** The checks at the end of parse_request_line, on the target and version just cut off. */
  function CheckTarget(s: Conn, target: nat, url: string, version: string): (r: (Conn, Code))
    ensures Handled(s, r.0) && r.0.buf == s.buf && r.1 in {NoRequest, BadRequest}
  {
    if !SameNoCase(version, "HTTP/1.1") then (s, BadRequest)
    else if !StartsNoCase(url, "HTTP://") then
      if url != "" && url[0] == '/' then (s.(phase := Headers), NoRequest) else (s, BadRequest)
    else
      var m := FirstSlash(url[7..]);
      if m == |url[7..]| then (s.(url := Null), BadRequest)
      else (s.(url := At(target + 7 + m), phase := Headers), NoRequest)
  }

  function ParseHeaders(s: Conn, text: nat): (r: (Conn, Code))
    requires text <= |s.buf|
    ensures Handled(s, r.0) && r.0.buf == s.buf && r.1 in {NoRequest, GetRequest}
  {
    var line := CString(s.buf, text);
    if line == "" then
      if s.contentLength != 0 then (s.(phase := Content), NoRequest) else (s, GetRequest)
    else if StartsNoCase(line, "Connextion:") then
      (if SameNoCase(SkipBlanks(line[11..]), "keep-alive") then s.(linger := true) else s, NoRequest)
    else if StartsNoCase(line, "Content-Length:") then
      (s.(contentLength := ToInt(Atol(SkipBlanks(line[15..])))), NoRequest)
    else if StartsNoCase(line, "Host:") then
      (s.(host := At(text + 5 + BlankSpan(line[5..]))), NoRequest)
    else (s, NoRequest)
  }

  /** parse_content waits: the sum is an int, and fewer bytes have been read. */
  predicate Waits(s: Conn) {
    s.readIdx < s.contentLength + s.checkedIdx <= INT_MAX
  }

  function ParseContent(s: Conn, text: nat): (r: (Conn, Code))
    requires |s.buf| == READ_BUFFER_SIZE
    ensures Handled(s, r.0) && r.0 == s.(buf := r.0.buf)
    ensures r.1 in {NoRequest, GetRequest, OutOfBuffer, SumOverflows}
    ensures r.1 == NoRequest <==> Waits(s)
  {
    if s.contentLength + s.checkedIdx > INT_MAX then (s, SumOverflows)
    else if s.readIdx >= s.contentLength + s.checkedIdx then
      var end := text + s.contentLength;
      if 0 <= end < READ_BUFFER_SIZE then (s.(buf := s.buf[end := NUL]), GetRequest) else (s, OutOfBuffer)
    else (s, NoRequest)
  }

  // ---------- process_read ----------

  /** The handler of the current phase, on the line that has just been scanned. */
  function HandleLine(s: Conn): (r: (Conn, Code))
    requires Valid(s)
    ensures Valid(r.0) && Handled(s.(startLine := s.checkedIdx), r.0)
  {
    var text, t := s.startLine, s.(startLine := s.checkedIdx);
    match s.phase
    case RequestLine => ParseRequestLine(t, text)
    case Headers => ParseHeaders(t, text)
    case Content => ParseContent(t, text)
  }

  /** The loop of process_read; ok says that the line status is LINE_OK. */
  function Process(s: Conn, ok: bool): (r: (Conn, Code))
    requires Valid(s)
    ensures Valid(r.0)
    decreases s.readIdx - s.checkedIdx, ok
  {
    if s.phase == Content && ok then
      var (t, code) := HandleLine(s);
      if code != NoRequest then (t, code) else Process(t, false)
    else
      var (l, status) := ParseLine(s);
      if status != LineOk then (l, NoRequest) else
      var (t, code) := HandleLine(l);
      if code != NoRequest then (t, code) else Process(t, l.phase != Content)
  }

  function ProcessRead(s: Conn): (r: (Conn, Code))
    requires Valid(s)
    ensures Valid(r.0)
  {
    Process(s, true)
  }

  /** process_read after every chunk, until it returns something other than NO_REQUEST. */
  function Feed(s: Conn, chunks: seq<string>): (r: (Conn, Code))
    requires Valid(s) && s.readIdx + |Joined(chunks)| <= READ_BUFFER_SIZE
    decreases |chunks|
  {
    if chunks == [] then (s, NoRequest) else
      var (t, code) := ProcessRead(Receive(s, chunks[0]));
      assert Joined(chunks) == chunks[0] + Joined(chunks[1..]);
      if code != NoRequest then (t, code) else
      assert t.readIdx == s.readIdx + |chunks[0]| by { ReadIdxKept(Receive(s, chunks[0]), true); }
      Feed(t, chunks[1..])
  }

  function Joined(chunks: seq<string>): string {
    if chunks == [] then "" else chunks[0] + Joined(chunks[1..])
  }

  lemma {:induction false} ReadIdxKept(s: Conn, ok: bool)
    requires Valid(s)
    ensures Process(s, ok).0.readIdx == s.readIdx
    decreases s.readIdx - s.checkedIdx, ok
  {
    if s.phase == Content && ok {
      var (t, code) := HandleLine(s);
      if code == NoRequest { ReadIdxKept(t, false); }
    } else {
      var (l, status) := ParseLine(s);
      if status == LineOk {
        var (t, code) := HandleLine(l);
        if code == NoRequest { ReadIdxKept(t, l.phase != Content); }
      }
    }
  }
}
