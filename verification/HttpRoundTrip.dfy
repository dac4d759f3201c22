// The scanner as a splitter of lines, and parsing a printed request.

module HttpRoundTrip {
  import opened HttpText
  import opened HttpConn
  import opened HttpLines
  import opened HttpChunks
  import opened HttpStrings
  import opened HttpBody
  import opened HttpCuts

  const CRLF: string := [CR, LF]

  function Unread(s: Conn): string
    requires Valid(s)
  {
    s.buf[s.checkedIdx..s.readIdx]
  }

  predicate NoLineEnd(s: string) { forall i | 0 <= i < |s| :: !IsLineEnd(s[i]) }

  // ---------- successive lines ----------

  /** The lines found by calling parse_line while it says LINE_OK. */
  function ScanAll(s: Conn): (r: (seq<string>, Conn, LineStatus))
    requires Valid(s)
    ensures Valid(r.1)
    decreases s.readIdx - s.checkedIdx
  {
    var (l, status) := ParseLine(s);
    if status != LineOk then ([], l, status) else
    var (lines, end, last) := ScanAll(l);
    ([s.buf[s.checkedIdx..LineEnd(s)]] + lines, end, last)
  }

  function WithEnds(lines: seq<string>): string {
    if lines == [] then "" else lines[0] + CRLF + WithEnds(lines[1..])
  }

  /** What a scan leaves unread starts with. */
  predicate Stopped(rest: string, status: LineStatus) {
    match status
    case LineOk => false
    case LineOpen => rest == "" || rest == [CR]
    case LineBad => rest != "" && (rest[0] == LF || (rest[0] == CR && |rest| > 1 && rest[1] != LF))
  }

  /**
   * The lines, each with its CR LF, then bytes that are no line ends, then
   * nothing, a last CR, or a stray CR or LF: together the bytes to be read.
   */
  lemma {:induction false} ScanSplits(s: Conn) returns (plain: string)
    requires Valid(s) && Clean(s)
    ensures var (lines, end, status) := ScanAll(s);
      && Unread(s) == WithEnds(lines) + plain + Unread(end)
      && (forall line | line in lines :: NoLineEnd(line))
      && NoLineEnd(plain) && Stopped(Unread(end), status)
    decreases s.readIdx - s.checkedIdx
  {
    hide ParseLine, Unread;
    var (l, status) := ParseLine(s);
    ScanIs(s);
    ScanParts(s);
    plain := s.buf[s.checkedIdx..LineEnd(s)];
    if status == LineOk {
      var line := plain;
      plain := ScanSplits(l);
      var (lines, end, last) := ScanAll(l);
      assert ([line] + lines)[1..] == lines;
      ManyParts(line + CRLF, WithEnds(lines), plain, Unread(end));
    } else {
      assert WithEnds([]) == "" && "" + plain == plain;
    }
  }

  /** One scan takes the bytes to be read apart. */
  lemma {:induction false} ScanParts(s: Conn)
    requires Valid(s) && Clean(s)
    ensures var (l, status) := ParseLine(s); var line := s.buf[s.checkedIdx..LineEnd(s)];
      && NoLineEnd(line)
      && Unread(s) == (if status == LineOk then line + CRLF else line) + Unread(l)
      && (status != LineOk ==> Stopped(Unread(l), status))
  {
    hide ParseLine, LineEnd;
    ScanIs(s);
    var c, j, n := s.checkedIdx, LineEnd(s), s.readIdx;
    if ParseLine(s).1 == LineOk {
      CutParts(s, j);
    } else {
      TwoSlices(s.buf, c, j, n);
    }
  }

  lemma {:induction false} CutParts(s: Conn, j: nat)
    requires Valid(s) && s.checkedIdx <= j && j + 2 <= s.readIdx && s.buf[j] == CR && s.buf[j + 1] == LF
    ensures Unread(s) == s.buf[s.checkedIdx..j] + CRLF + Unread(Cut(s, j))
  {
    assert Unread(Cut(s, j)) == s.buf[j + 2..s.readIdx];
    LineAndRest(s.buf, s.checkedIdx, j, s.readIdx);
  }

  lemma TwoSlices(buf: string, c: nat, j: nat, n: nat)
    requires c <= j <= n <= |buf|
    ensures buf[c..n] == buf[c..j] + buf[j..n]
  {
  }

  lemma LineAndRest(buf: string, c: nat, j: nat, n: nat)
    requires c <= j && j + 2 <= n <= |buf| && buf[j] == CR && buf[j + 1] == LF
    ensures buf[c..n] == buf[c..j] + CRLF + buf[j + 2..n]
  {
    assert buf[j..j + 2] == CRLF;
  }

  lemma ManyParts(a: string, b: string, c: string, d: string)
    ensures a + (b + c + d) == (a + b) + c + d
  {
  }

  // ---------- one line ----------

  /** Bytes that a line may hold. */
  predicate Plain(s: string) { NoLineEnd(s) && NUL !in s }

  /** The bytes to be read are a line, its CR LF, and more. */
  predicate Coming(s: Conn, line: string, more: string)
    requires Valid(s)
  {
    Unread(s) == line + CRLF + more
  }

  lemma {:induction false} NextLine(s: Conn, line: string, more: string)
    requires Valid(s) && Clean(s) && s.startLine == s.checkedIdx && Plain(line) && Coming(s, line, more)
    ensures var (l, status) := ParseLine(s);
      && status == LineOk && Valid(l) && Clean(l) && LineScanned(l)
      && l == s.(buf := l.buf, checkedIdx := s.checkedIdx + |line| + 2)
      && l.buf[..s.checkedIdx] == s.buf[..s.checkedIdx]
      && TextEnd(l.buf, l.startLine) == s.checkedIdx + |line|
      && CString(l.buf, l.startLine) == line
      && Unread(l) == more
  {
    hide ParseLine, TextEnd;
    ComingBytes(s, line, more);
    var c, j := s.checkedIdx, s.checkedIdx + |line|;
    LineEndIs(s, j);
    ScanIs(s);
    CutLine(s, line, j);
  }

  /** The bytes to be read, one by one. */
  lemma {:induction false} ComingBytes(s: Conn, line: string, more: string)
    requires Valid(s) && Coming(s, line, more)
    ensures var c := s.checkedIdx; var j := c + |line|;
      && j + 2 <= s.readIdx
      && (forall i | c <= i < j :: s.buf[i] == line[i - c])
      && s.buf[j] == CR && s.buf[j + 1] == LF
      && s.buf[j + 2..s.readIdx] == more
  {
    var c, u := s.checkedIdx, Unread(s);
    assert |u| == |line| + 2 + |more|;
    assert forall i | 0 <= i < |u| :: s.buf[c + i] == u[i];
    assert forall i | 0 <= i < |line| :: u[i] == line[i];
    forall i | c <= i < c + |line| ensures s.buf[i] == line[i - c] {
      assert s.buf[c + (i - c)] == u[i - c];
    }
    assert u[|line|] == CRLF[0] && u[|line| + 1] == CRLF[1];
    assert u[|line| + 2..] == more;
  }

  lemma {:induction false} CutLine(s: Conn, line: string, j: nat)
    requires Valid(s) && Clean(s) && Plain(line) && j == s.checkedIdx + |line| && j + 2 <= s.readIdx
    requires forall i | s.checkedIdx <= i < j :: s.buf[i] == line[i - s.checkedIdx]
    ensures var l, c := Cut(s, j), s.checkedIdx;
      && Clean(l) && l.buf[..c] == s.buf[..c]
      && TextEnd(l.buf, c) == j && CString(l.buf, c) == line
      && Unread(l) == s.buf[j + 2..s.readIdx]
  {
    var l, c := Cut(s, j), s.checkedIdx;
    assert l.buf[c..j] == line;
    forall i | c <= i < j ensures l.buf[i] != NUL && !IsLineEnd(l.buf[i]) {
      assert line[i - c] in line;
    }
    CStringIs(l.buf, c, j);
    assert l.buf[j + 2..s.readIdx] == s.buf[j + 2..s.readIdx];
  }

  /** One turn of the loop. */
  lemma {:induction false} Turn(s: Conn)
    requires Valid(s) && s.phase != Content && ParseLine(s).1 == LineOk
    ensures var (t, code) := HandleLine(ParseLine(s).0);
      ToBody(s) == if code != NoRequest then (t, code) else ToBody(t)
  {
    hide HandleLine, ParseLine;
  }

  // ---------- printed requests ----------

  /** A header line.  The blanks may be empty; Other is a header the parser does not know. */
  datatype Field =
    | Host(name: string, blanks: string, value: string)
    | Length(name: string, blanks: string, space: string, sign: string, digits: string, tail: string)
    | Connection(name: string, blanks: string, value: string)
    | Other(text: string)

  function Print(f: Field): string {
    match f
    case Host(name, blanks, value) => name + blanks + value
    case Length(name, blanks, space, sign, digits, tail) => name + blanks + (space + sign + digits + tail)
    case Connection(name, blanks, value) => name + blanks + value
    case Other(text) => text
  }

  predicate AllBlank(s: string) { forall i | 0 <= i < |s| :: IsBlank(s[i]) }

  /** No line end or NUL, and no blank in front. */
  predicate GoodValue(s: string) { Plain(s) && (s != "" ==> !IsBlank(s[0])) }

  predicate GoodField(f: Field) {
    match f
    case Host(name, blanks, value) => SameNoCase(name, "Host:") && AllBlank(blanks) && GoodValue(value)
    case Length(name, blanks, space, sign, digits, tail) =>
      && SameNoCase(name, "Content-Length:") && AllBlank(blanks)
      && NumberShape(space, sign, digits, tail) && GoodValue(space + sign + digits + tail)
    case Connection(name, blanks, value) => SameNoCase(name, "Connextion:") && AllBlank(blanks) && GoodValue(value)
    case Other(text) =>
      && text != "" && Plain(text) && !StartsNoCase(text, "Connextion:")
      && !StartsNoCase(text, "Content-Length:") && !StartsNoCase(text, "Host:")
  }

  /** What a reader of the header lines knows; the last Host and the last length count. */
  datatype Known = Known(hasHost: bool, host: string, length: int, linger: bool)

  function Learn(k: Known, f: Field): Known
    requires GoodField(f)
  {
    match f
    case Host(_, _, value) => k.(hasHost := true, host := value)
    case Length(_, _, _, sign, digits, _) => k.(length := ToInt(NumberSaid(sign, digits)))
    case Connection(_, _, value) => if SameNoCase(value, "keep-alive") then k.(linger := true) else k
    case Other(_) => k
  }

  function LearnAll(k: Known, fs: seq<Field>): Known
    requires forall f | f in fs :: GoodField(f)
    decreases |fs|
  {
    if fs == [] then k else LearnAll(Learn(k, fs[0]), fs[1..])
  }

  function PrintAll(fs: seq<Field>): string {
    if fs == [] then "" else Print(fs[0]) + CRLF + PrintAll(fs[1..])
  }

  /** The connection has recovered the path, the version, and what is known of the fields. */
  ghost predicate Recovered(s: Conn, path: string, version: string, k: Known) {
    && AllGrounded(s)
    && PointsTo(s.buf, s.url, path) && PointsTo(s.buf, s.version, version)
    && (if k.hasHost then PointsTo(s.buf, s.host, k.host) else s.host == Null)
    && s.contentLength == k.length && s.linger == k.linger
  }

  ghost predicate InHeaders(s: Conn, path: string, version: string, k: Known) {
    && Valid(s) && Clean(s) && s.phase == Headers && s.startLine == s.checkedIdx
    && Recovered(s, path, version, k)
  }

  /** Bytes behind the strings do not matter to what they say. */
  lemma {:induction false} StillPointsTo(s: Conn, t: Conn, p: Pointer, text: string)
    requires s.checkedIdx <= |s.buf| == |t.buf| && s.buf[..s.checkedIdx] == t.buf[..s.checkedIdx]
    requires s.checkedIdx <= t.checkedIdx <= |t.buf|
    requires Grounded(s, p)
    ensures PointsTo(s.buf, p, text) ==> PointsTo(t.buf, p, text)
    ensures Grounded(t, p)
  {
    assert forall k | 0 <= k < s.checkedIdx :: s.buf[k] == s.buf[..s.checkedIdx][k] == t.buf[k];
    if p != Null {
      CStringWithin(s.buf, t.buf, p.index, s.checkedIdx);
    }
  }

  lemma {:induction false} StillRecovered(s: Conn, t: Conn, path: string, version: string, k: Known)
    requires Recovered(s, path, version, k)
    requires s.checkedIdx <= |s.buf| == |t.buf| && s.buf[..s.checkedIdx] == t.buf[..s.checkedIdx]
    requires s.checkedIdx <= t.checkedIdx <= |t.buf|
    requires t == s.(buf := t.buf, readIdx := t.readIdx, checkedIdx := t.checkedIdx, startLine := t.startLine,
                     phase := t.phase)
    ensures Recovered(t, path, version, k)
  {
    hide CString, PointsTo, Grounded;
    StillPointsTo(s, t, s.url, path);
    StillPointsTo(s, t, s.version, version);
    StillPointsTo(s, t, s.host, k.host);
  }

  // ---------- one header line ----------

  lemma {:induction false} Skips(name: string, prefix: string, blanks: string, rest: string)
    requires SameNoCase(name, prefix) && AllBlank(blanks) && (rest != "" ==> !IsBlank(rest[0]))
    ensures var line := name + blanks + rest;
      && StartsNoCase(line, prefix)
      && line[|prefix|..] == blanks + rest
      && BlankSpan(line[|prefix|..]) == |blanks| && SkipBlanks(line[|prefix|..]) == rest
  {
    hide BlankSpan;
    var line := name + blanks + rest;
    assert line[..|prefix|] == name;
    assert line[|prefix|..] == blanks + rest;
    BlanksThenText(blanks, rest);
  }

  /** The three known names differ in their first letters, so only one of the tests succeeds. */
  lemma {:induction false} NamesDiffer(line: string)
    ensures !(StartsNoCase(line, "Connextion:") && StartsNoCase(line, "Content-Length:"))
    ensures !(StartsNoCase(line, "Connextion:") && StartsNoCase(line, "Host:"))
    ensures !(StartsNoCase(line, "Content-Length:") && StartsNoCase(line, "Host:"))
  {
    if StartsNoCase(line, "Connextion:") {
      assert Lower(line[..11][0]) == 'c' && Lower(line[..11][4]) == 'e';
    }
    if StartsNoCase(line, "Content-Length:") {
      assert Lower(line[..15][0]) == 'c' && Lower(line[..15][4]) == 'e' && Lower(line[..15][3]) == 't';
    }
    if StartsNoCase(line, "Connextion:") {
      assert Lower(line[..11][3]) == 'n';
    }
    if StartsNoCase(line, "Host:") {
      assert Lower(line[..5][0]) == 'h';
    }
  }

  /** A printed field is a line that is not empty. */
  lemma {:induction false} PrintIsPlain(f: Field)
    requires GoodField(f)
    ensures Plain(Print(f)) && Print(f) != ""
  {
    match f
    case Host(name, blanks, value) => NamedIsPlain(name, "Host:", blanks, value);
    case Length(name, blanks, space, sign, digits, tail) =>
      NamedIsPlain(name, "Content-Length:", blanks, space + sign + digits + tail);
    case Connection(name, blanks, value) => NamedIsPlain(name, "Connextion:", blanks, value);
    case Other(text) =>
  }

  lemma {:induction false} NamedIsPlain(name: string, prefix: string, blanks: string, rest: string)
    requires SameNoCase(name, prefix) && AllBlank(blanks) && Plain(rest) && prefix != ""
    requires forall i | 0 <= i < |prefix| :: prefix[i] > ' '
    ensures Plain(name + blanks + rest) && name + blanks + rest != ""
  {
    var line := name + blanks + rest;
    forall i | 0 <= i < |line| ensures !IsLineEnd(line[i]) && line[i] != NUL {
      if i < |name| {
        assert line[i] == name[i] && Lower(name[i]) == Lower(prefix[i]);
      } else if i < |name| + |blanks| {
        assert line[i] == blanks[i - |name|] && IsBlank(blanks[i - |name|]);
      } else {
        assert line[i] == rest[i - |name| - |blanks|] && line[i] in rest;
      }
    }
  }

  /** What ParseHeaders makes of a printed field. */
  lemma {:induction false} FieldHandled(s: Conn, text: nat, f: Field)
    requires text <= |s.buf| && CString(s.buf, text) == Print(f) && GoodField(f)
    ensures ParseHeaders(s, text) == (
      match f
      case Host(name, blanks, _) => s.(host := At(text + |name| + |blanks|))
      case Length(_, _, _, sign, digits, _) => s.(contentLength := ToInt(NumberSaid(sign, digits)))
      case Connection(_, _, value) => if SameNoCase(value, "keep-alive") then s.(linger := true) else s
      case Other(_) => s, NoRequest)
  {
    hide SameNoCase, StartsNoCase, CString, BlankSpan, SkipBlanks, NumberShape, NumberSaid, Atol, ToInt;
    PrintIsPlain(f);
    NamesDiffer(Print(f));
    match f
    case Host(name, blanks, value) => Skips(name, "Host:", blanks, value); NameLength(name, "Host:");
    case Length(name, blanks, space, sign, digits, tail) =>
      Skips(name, "Content-Length:", blanks, space + sign + digits + tail);
      AtolIs(space, sign, digits, tail);
    case Connection(name, blanks, value) => Skips(name, "Connextion:", blanks, value);
    case Other(text) =>
  }

  lemma {:induction false} NameLength(name: string, prefix: string)
    requires SameNoCase(name, prefix)
    ensures |name| == |prefix|
  {
  }

  // ---------- the headers ----------

  lemma {:induction false} HostLine(line: string, name: string, blanks: string, value: string)
    requires line == name + blanks + value
    ensures |name| + |blanks| <= |line| && line[|name| + |blanks|..] == value
  {
  }

  /** One printed field read: the connection knows what the field says. */
  lemma {:induction false} FieldTurn(s: Conn, path: string, version: string, k: Known, f: Field, more: string)
    requires InHeaders(s, path, version, k) && GoodField(f) && Coming(s, Print(f), more)
    ensures var t := HandleLine(ParseLine(s).0).0;
      && ToBody(s) == ToBody(t) && t.readIdx == s.readIdx
      && InHeaders(t, path, version, Learn(k, f)) && Unread(t) == more
  {
    hide ParseLine, CString, Print, Recovered, ParseHeaders, TextEnd, ToBody;
    PrintIsPlain(f);
    NextLine(s, Print(f), more);
    Turn(s);
    var l := ParseLine(s).0;
    var text := l.startLine;
    var u := l.(startLine := l.checkedIdx);
    FieldHandled(u, text, f);
    StillRecovered(s, u, path, version, k);
    FieldRecovered(u, text, path, version, k, f);
  }

  lemma {:induction false} FieldRecovered(s: Conn, text: nat, path: string, version: string, k: Known, f: Field)
    requires Recovered(s, path, version, k) && GoodField(f)
    requires text < s.checkedIdx <= |s.buf| && CString(s.buf, text) == Print(f) && TextEnd(s.buf, text) < s.checkedIdx
    ensures Recovered(ParseHeaders(s, text).0, path, version, Learn(k, f))
  {
    hide CString, ParseHeaders, TextEnd, NumberShape, NumberSaid, SameNoCase;
    FieldHandled(s, text, f);
    if f.Host? {
      HostLine(Print(f), f.name, f.blanks, f.value);
      CStringSuffix(s.buf, text, text + |f.name| + |f.blanks|);
      assert s.buf[TextEnd(s.buf, text)] == NUL;
    }
  }

  /** All printed fields read. */
  lemma {:induction false} FieldsTurn(
      s: Conn, path: string, version: string, k: Known, fs: seq<Field>, more: string) returns (t: Conn)
    requires Valid(s) && InHeaders(s, path, version, k) && (forall f | f in fs :: GoodField(f))
    requires Unread(s) == PrintAll(fs) + more
    ensures Valid(t) && t.readIdx == s.readIdx && ToBody(s) == ToBody(t)
    ensures InHeaders(t, path, version, LearnAll(k, fs)) && Unread(t) == more
    decreases |fs|
  {
    hide ToBody, InHeaders, Unread, GoodField, Learn, Print, ParseLine, HandleLine;
    if fs == [] {
      assert "" + more == more;
      t := s;
    } else {
      AppendThree(Print(fs[0]), PrintAll(fs[1..]), more);
      FieldTurn(s, path, version, k, fs[0], PrintAll(fs[1..]) + more);
      t := FieldsTurn(HandleLine(ParseLine(s).0).0, path, version, Learn(k, fs[0]), fs[1..], more);
    }
  }

  lemma AppendThree(a: string, b: string, c: string)
    ensures (a + CRLF + b) + c == a + CRLF + (b + c)
  {
  }

  /** The empty line: the request is complete, or its body begins. */
  lemma {:induction false} EmptyLine(s: Conn, path: string, version: string, k: Known, body: string)
    requires InHeaders(s, path, version, k) && Unread(s) == CRLF + body
    ensures var (t, code) := ToBody(s);
      && Valid(t) && t.readIdx == s.readIdx && t.startLine == t.checkedIdx == t.readIdx - |body|
      && Unread(t) == body
      && Recovered(t, path, version, k)
      && (if k.length == 0 then code == GetRequest else code == NoRequest && t.phase == Content)
  {
    hide ParseLine, CString, Recovered, TextEnd, StartsNoCase;
    assert CRLF + body == "" + CRLF + body;
    NextLine(s, "", body);
    Turn(s);
    var l := ParseLine(s).0;
    var u := l.(startLine := l.checkedIdx);
    StillRecovered(s, u, path, version, k);
    assert u.contentLength == k.length by { RecoveredLength(u, path, version, k); }
    var t := HandleLine(l).0;
    StillRecovered(u, t, path, version, k);
    assert |Unread(l)| == l.readIdx - l.checkedIdx;
  }

  lemma RecoveredLength(s: Conn, path: string, version: string, k: Known)
    requires Recovered(s, path, version, k)
    ensures s.contentLength == k.length
  {
  }

  // ---------- the request line ----------

  lemma {:induction false} ShapeIsPlain(line: string, target: string, version: string)
    requires RequestShape(line, target, version) && Plain(target)
    ensures Plain(line)
  {
    hide PathOf;
    var m, b1, b2 :|
      && line == m + b1 + target + b2 + version
      && SameNoCase(m, "GET") && Blanks(b1) && GoodTarget(target)
      && Blanks(b2) && SameNoCase(version, "HTTP/1.1");
    NamedIsPlain(m, "GET", b1, target);
    NamedIsPlain(version, "HTTP/1.1", "", "");
    assert version + "" + "" == version;
    assert Plain(b2);
    PlainAppend(m + b1 + target, b2);
    PlainAppend(m + b1 + target + b2, version);
  }

  lemma PlainAppend(a: string, b: string)
    requires Plain(a) && Plain(b)
    ensures Plain(a + b)
  {
  }

  /** A request line of the shape read on a new connection. */
  lemma {:induction false} RequestTurn(s: Conn, line: string, target: string, version: string, more: string)
    requires Valid(s) && Clean(s) && s.phase == RequestLine && s.startLine == s.checkedIdx
    requires s.host == Null && s.contentLength == 0 && !s.linger && s.url == s.version == Null
    requires RequestShape(line, target, version) && Plain(target) && Coming(s, line, more)
    ensures var t := HandleLine(ParseLine(s).0).0;
      && ToBody(s) == ToBody(t) && t.readIdx == s.readIdx
      && InHeaders(t, PathOf(target), version, Known(false, "", 0, false)) && Unread(t) == more
  {
    hide ParseLine, CString, RequestShape, ParseRequestLine, TextEnd, ToBody, PathOf, GoodTarget, AllGrounded;
    ShapeIsPlain(line, target, version);
    NextLine(s, line, more);
    Turn(s);
    var l := ParseLine(s).0;
    RequestLineRecovers(l.(startLine := l.checkedIdx), l.startLine, target, version);
    assert AllGrounded(l) by { NullIsGrounded(l); }
    HandleGrounds(l);
    HandleKeepsUnread(l);
  }

  lemma NullIsGrounded(s: Conn)
    requires s.url == s.version == s.host == Null
    ensures AllGrounded(s)
  {
  }

  /** The handlers of the head write inside the line only. */
  lemma {:induction false} HandleKeepsUnread(s: Conn)
    requires Valid(s) && Clean(s) && s.phase != Content && LineScanned(s)
    ensures Valid(HandleLine(s).0) && Clean(HandleLine(s).0) && Unread(HandleLine(s).0) == Unread(s)
  {
    hide ParseRequestLine, ParseHeaders, TextEnd;
    var c := s.checkedIdx;
    var a, t := s.(startLine := c), HandleLine(s).0;
    if s.phase == RequestLine {
      ParseRequestLineIsLocal(a, a, s.startLine, c);
    } else {
      ParseHeadersIsLocal(a, a, s.startLine, c);
    }
    assert t.buf[c..] == s.buf[c..];
    forall i | c <= i < s.readIdx ensures t.buf[i] == s.buf[i] {
      assert t.buf[c..][i - c] == s.buf[c..][i - c];
    }
    assert Unread(t) == Unread(s);
  }

  // ---------- the whole request ----------

  /** The bytes of a request: request line, fields, empty line, body. */
  function PrintRequest(line: string, fields: seq<Field>, body: string): string {
    line + CRLF + (PrintAll(fields) + (CRLF + body))
  }

  lemma {:induction false} FreshUnread(bytes: string)
    requires |bytes| <= READ_BUFFER_SIZE
    ensures Unread(Receive(Fresh(), bytes)) == bytes && Clean(Receive(Fresh(), bytes))
  {
  }

  /** The bytes behind the strings, the indices and the phase do not matter to what was recovered. */
  lemma {:induction false} RecoveredIsKept(s: Conn, t: Conn, path: string, version: string, k: Known)
    requires Recovered(s, path, version, k) && KeepsBelow(s, t, s.checkedIdx)
    requires s.checkedIdx <= t.checkedIdx <= |t.buf|
    ensures Recovered(t, path, version, k)
  {
    StillRecovered(s, t, path, version, k);
  }

  /**
   * What the body of a printed request comes to, from where it begins: nothing
   * if it is not all there; otherwise the NUL is stored where the length says
   * the body ends, which may be in front of the body or outside the buffer; or
   * the sum that says where is no int.
   */
  lemma {:induction false} BodyTurn(s: Conn, path: string, version: string, k: Known)
    requires Valid(s) && Clean(s) && AtBody(s) && Recovered(s, path, version, k)
    ensures var (t, code) := Process(s, true); var end := s.checkedIdx + k.length;
      && code == (if Exceeds(s.buf, k.length, s.checkedIdx, s.readIdx) then SumOverflows
                  else if end > s.readIdx then NoRequest
                  else if 0 <= end < READ_BUFFER_SIZE then GetRequest else OutOfBuffer)
      && (code == GetRequest ==> t == s.(buf := s.buf[end := NUL]))
      && (code == OutOfBuffer ==> t == s)
      && (k.length >= 0 ==> Recovered(t, path, version, k))
  {
    hide Process, Recovered, HandleLine, BodyScan;
    RecoveredLength(s, path, version, k);
    var t := Process(s, true).0;
    if s.readIdx < s.contentLength + s.checkedIdx {
      ShortCall(s);
    } else {
      BodyResult(s);
    }
    CallIsJudged(s);
    if k.length >= 0 {
      BodyKeepsBelow(s, true, s.checkedIdx);
      RecoveredIsKept(s, t, path, version, k);
    }
  }

  /** What a call makes of a body that is there. */
  lemma {:induction false} BodyResult(s: Conn)
    requires Valid(s) && AtBody(s) && s.contentLength + s.checkedIdx <= s.readIdx
    ensures var end := s.checkedIdx + s.contentLength;
      Process(s, true) == if 0 <= end < READ_BUFFER_SIZE then (s.(buf := s.buf[end := NUL]), GetRequest)
                          else (s, OutOfBuffer)
  {
  }

  function NothingKnown(): Known { Known(false, "", 0, false) }

  /** The head of a printed request, from a new connection: what it recovers, and where the body begins. */
  lemma {:induction false} HeadOfPrinted(
      line: string, target: string, version: string, fields: seq<Field>, body: string)
    requires RequestShape(line, target, version) && Plain(target) && (forall f | f in fields :: GoodField(f))
    requires |PrintRequest(line, fields, body)| <= READ_BUFFER_SIZE
    ensures var bytes, k := PrintRequest(line, fields, body), LearnAll(NothingKnown(), fields);
      var (h, code) := ToBody(Receive(Fresh(), bytes));
      && Valid(h) && Clean(h) && h.readIdx == |bytes| && h.startLine == h.checkedIdx == |bytes| - |body|
      && Unread(h) == body && Recovered(h, PathOf(target), version, k)
      && (if k.length == 0 then code == GetRequest else code == NoRequest && h.phase == Content)
  {
    hide ToBody, ParseLine, HandleLine, PathOf, RequestShape, GoodField, Process, Receive, Recovered, LearnAll;
    var bytes, none := PrintRequest(line, fields, body), NothingKnown();
    var path, k := PathOf(target), LearnAll(none, fields);
    var s := Receive(Fresh(), bytes);
    ReceivedBytes(Fresh(), bytes);
    FreshUnread(bytes);
    RequestTurn(s, line, target, version, PrintAll(fields) + (CRLF + body));
    var t := FieldsTurn(HandleLine(ParseLine(s).0).0, path, version, none, fields, CRLF + body);
    EmptyLine(t, path, version, k, body);
    HeadReceive(s, "");
  }

  /** The result of a printed request whose head ends in h, with a body of n bytes and a last length of length. */
  function PrintedResult(h: Conn, length: int, n: nat): Code {
    var end := h.checkedIdx + length;
    if length == 0 then GetRequest
    else if Exceeds(h.buf, length, h.checkedIdx, h.readIdx) then SumOverflows
    else if length > n then NoRequest
    else if 0 <= end < READ_BUFFER_SIZE then GetRequest else OutOfBuffer
  }

  /**
   * Parsing a printed request.  The request line may use any case and any
   * blanks, the target may be absolute; the fields come in any order and
   * number, lengths of either sign; the body may be short or have more bytes
   * behind it.  The result is GET_REQUEST if there is no body or it is all
   * there, unless the place of the NUL behind it lies outside the buffer or a
   * sum is no int, which takes a length within the buffer's size of INT_MAX;
   * and unless the length is negative the request is recovered.  In every case
   * it is recovered before the NUL is stored, and nothing but that is stored.
   */
  lemma {:induction false} PrintedRequestIsRecovered(
      line: string, target: string, version: string, fields: seq<Field>, body: string)
    requires RequestShape(line, target, version) && Plain(target) && (forall f | f in fields :: GoodField(f))
    requires |PrintRequest(line, fields, body)| <= READ_BUFFER_SIZE
    ensures var bytes, k := PrintRequest(line, fields, body), LearnAll(NothingKnown(), fields);
      var all := Receive(Fresh(), bytes); var end := |bytes| - |body| + k.length;
      var (t, code) := ProcessRead(all); var h := ToBody(all).0;
      && h.checkedIdx == |bytes| - |body| && code == PrintedResult(h, k.length, |body|)
      && (code == SumOverflows ==> |bytes| + k.length > INT_MAX)
      && (k.length >= 0 ==> Recovered(t, PathOf(target), version, k))
      && Recovered(h, PathOf(target), version, k)
      && (code == GetRequest ==> t == if k.length == 0 then h else h.(buf := h.buf[end := NUL]))
  {
    hide ToBody, PathOf, RequestShape, GoodField, Process, Receive, Recovered, LearnAll, PrintRequest, BodyScan;
    var bytes, k := PrintRequest(line, fields, body), LearnAll(NothingKnown(), fields);
    var all := Receive(Fresh(), bytes);
    HeadOfPrinted(line, target, version, fields, body);
    ReceivedBytes(Fresh(), bytes);
    HeadThenBody(all);
    if k.length != 0 {
      BodyTurn(ToBody(all).0, PathOf(target), version, k);
    }
  }

  /**
   * The same with the bytes arriving in any chunks: unless the length is
   * negative the request is recovered; the result is the one above if no chunk
   * but the last ends strictly inside the body.
   */
  lemma {:induction false} PrintedRequestInChunks(
      line: string, target: string, version: string, fields: seq<Field>, body: string, chunks: seq<string>)
    requires RequestShape(line, target, version) && Plain(target) && (forall f | f in fields :: GoodField(f))
    requires chunks != [] && Joined(chunks) == PrintRequest(line, fields, body)
    requires |Joined(chunks)| <= READ_BUFFER_SIZE
    ensures var k, start := LearnAll(NothingKnown(), fields), |Joined(chunks)| - |body|;
      var (t, code) := Feed(Fresh(), chunks); var h := ToBody(Receive(Fresh(), Joined(chunks))).0;
      && (k.length >= 0 ==> Recovered(t, PathOf(target), version, k))
      && (SplitsOutside(0, chunks, start, start + k.length) ==> code == PrintedResult(h, k.length, |body|))
  {
    hide ToBody, PathOf, RequestShape, GoodField, Process, Receive, Recovered, LearnAll, PrintRequest;
    hide Feed, SplitsOutside, SameRequest, PrintedResult;
    var bytes, k := Joined(chunks), LearnAll(NothingKnown(), fields);
    HeadOfPrinted(line, target, version, fields, body);
    PrintedRequestIsRecovered(line, target, version, fields, body);
    ReceivedBytes(Fresh(), bytes);
    ChunksRecoverTheSame(chunks);
    RecoveredLength(ToBody(Receive(Fresh(), bytes)).0, PathOf(target), version, k);
    var a, b := ProcessRead(Receive(Fresh(), bytes)).0, Feed(Fresh(), chunks).0;
    if k.length >= 0 {
      RecoveredEither(b, a, PathOf(target), version, k);
    }
  }

  /** What is said of the same request is recovered from both or from neither. */
  lemma {:induction false} RecoveredEither(a: Conn, b: Conn, path: string, version: string, k: Known)
    requires SameRequest(a, b) && Recovered(b, path, version, k)
    ensures Recovered(a, path, version, k)
  {
    hide CString;
  }
}
