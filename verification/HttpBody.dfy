// How a body is looked for.  A call that does not find the body complete scans
// the body's bytes for line ends; each line it takes off moves the start of
// the line, and every byte it passes moves the checked index, from which the
// next call counts.  Here that is told by positions in the bytes as they
// arrived, without the buffer that is overwritten.

module HttpBody {
  import opened HttpText
  import opened HttpConn
  import opened HttpLines
  import opened HttpChunks

  // ---------- the head ----------

  lemma {:induction false} CodeMeansNoBody(l: Conn)
    requires Valid(l) && l.phase != Content && HandleLine(l).1 != NoRequest
    ensures HandleLine(l).0.phase != Content && HandleLine(l).1 !in {OutOfBuffer, SumOverflows}
  {
    hide CString, SameNoCase, StartsNoCase, FirstBlank, FirstSlash, BlankSpan;
  }

  /** What the head alone can come to. */
  lemma {:induction false} HeadHasNoCode(s: Conn)
    requires Valid(s)
    ensures ToBody(s).0.phase == Content ==> ToBody(s).1 == NoRequest
    ensures ToBody(s).1 !in {OutOfBuffer, SumOverflows} && s.checkedIdx <= ToBody(s).0.checkedIdx
    decreases s.readIdx - s.checkedIdx
  {
    hide ParseLine, HandleLine;
    if s.phase != Content && ParseLine(s).1 == LineOk {
      var (t, code) := HandleLine(ParseLine(s).0);
      if code == NoRequest { HeadHasNoCode(t); } else { CodeMeansNoBody(ParseLine(s).0); }
    }
  }

  /** A head that is not complete waits where no line can be taken off. */
  lemma {:induction false} HeadWaits(s: Conn)
    requires Valid(s) && Clean(s) && ToBody(s).1 == NoRequest && ToBody(s).0.phase != Content
    ensures ParseLine(ToBody(s).0).1 != LineOk
    decreases s.readIdx - s.checkedIdx
  {
    hide ParseLine, HandleLine;
    ScanIs(s);
    var (l, status) := ParseLine(s);
    if status == LineOk {
      ScannedLine(s);
      HeadWaits(HandleLine(l).0);
    } else {
      ScanAgain(s);
    }
  }

  lemma {:induction false} HandleStaysClean(l: Conn)
    requires Valid(l) && Clean(l)
    ensures Clean(HandleLine(l).0)
  {
    hide HandleLine;
    var t := HandleLine(l).0;
    assert Handled(l.(startLine := l.checkedIdx), t);
  }

  /** If no line can be taken off yet, the body begins behind what has been read. */
  lemma {:induction false} BodyBehind(h: Conn, y: string)
    requires Valid(h) && Clean(h) && h.phase != Content && h.readIdx + |y| <= READ_BUFFER_SIZE
    requires ParseLine(h).1 != LineOk && ToBody(Receive(h, y)).0.phase == Content
    ensures ToBody(Receive(h, y)).0.checkedIdx > h.readIdx
  {
    hide ParseLine, HandleLine, Receive;
    var t := Receive(h, y);
    ReceivedBytes(h, y);
    ScanIs(h);
    ScanIs(t);
    var (l, status) := ParseLine(t);
    if status == LineOk {
      var j := LineEnd(t);
      if j < h.readIdx { LineEndIs(h, j); }
      var (u, code) := HandleLine(l);
      if code == NoRequest { HeadHasNoCode(u); } else { CodeMeansNoBody(l); }
    }
  }

  // ---------- the scan of a body's bytes ----------

  /** Where a scan leaves off: at end, in a line that begins at line. */
  datatype Place = Place(line: nat, end: nat)

  /**
   * A scan of the bytes from c up to r, in a line that begins at line.  It
   * goes over plain bytes and line ends, and stops at a stray CR or LF, at r,
   * or behind the first line end whose position and the length do not sum up
   * to an int.
   */
  function BodyScan(buf: string, length: int, line: nat, c: nat, r: nat): (p: Place)
    requires line <= c
    ensures line <= p.line <= p.end && c <= p.end && (c <= r ==> p.end <= r)
    decreases r - c
  {
    if c >= r || r > |buf| || buf[c] == LF then Place(line, c)
    else if buf[c] != CR then BodyScan(buf, length, line, c + 1, r)
    else if c + 1 == r || buf[c + 1] != LF then Place(line, c)
    else if c + 2 + length > INT_MAX then Place(c + 2, c + 2)
    else BodyScan(buf, length, c + 2, c + 2, r)
  }

  lemma {:induction false} ScanLocal(a: string, b: string, length: int, line: nat, c: nat, r: nat)
    requires line <= c && r <= |a| && r <= |b| && forall i | c <= i < r :: a[i] == b[i]
    ensures BodyScan(a, length, line, c, r) == BodyScan(b, length, line, c, r)
    decreases r - c
  {
    if c < r && a[c] != LF {
      if a[c] != CR { ScanLocal(a, b, length, line, c + 1, r); }
      else if c + 1 < r && a[c + 1] == LF { ScanLocal(a, b, length, c + 2, c + 2, r); }
    }
  }

  lemma {:induction false} ScanAt(buf: string, length: int, line: nat, c: nat, j: nat, r: nat)
    requires line <= c <= j <= r <= |buf| && forall i | c <= i < j :: !IsLineEnd(buf[i])
    ensures BodyScan(buf, length, line, c, r) == BodyScan(buf, length, line, j, r)
    decreases j - c
  {
    if c < j { ScanAt(buf, length, line, c + 1, j, r); }
  }

  lemma TailOfTail(a: string, b: string, c: nat, d: nat)
    requires c <= d <= |a| == |b| && a[c..] == b[c..]
    ensures a[d..] == b[d..]
  {
    assert a[d..] == a[c..][d - c..];
    assert b[d..] == b[c..][d - c..];
  }

  /** One scan of parse_line is one step of the way. */
  lemma {:induction false} ScanStep(s: Conn)
    requires Valid(s) && Clean(s) && Waits(s)
    ensures var (l, status) := Scanned(s);
      && BodyScan(s.buf, s.contentLength, s.startLine, s.checkedIdx, s.readIdx) ==
         (if status != LineOk then Place(s.startLine, l.checkedIdx)
          else if l.checkedIdx + s.contentLength > INT_MAX then Place(l.checkedIdx, l.checkedIdx)
          else BodyScan(l.buf, s.contentLength, l.checkedIdx, l.checkedIdx, s.readIdx))
      && l.buf[l.checkedIdx..] == s.buf[l.checkedIdx..]
  {
    hide LineEnd;
    var j := LineEnd(s);
    ScanAt(s.buf, s.contentLength, s.startLine, s.checkedIdx, j, s.readIdx);
    if Scanned(s).1 == LineOk && j + 2 + s.contentLength <= INT_MAX {
      ScanLocal(s.buf, Cut(s, j).buf, s.contentLength, j + 2, j + 2, s.readIdx);
    }
  }

  /** What parse_content makes of a body that it waits for, and of a sum that is no int. */
  lemma {:induction false} BodyHandled(s: Conn)
    requires Valid(s) && s.phase == Content
    ensures Waits(s) ==> HandleLine(s) == (s.(startLine := s.checkedIdx), NoRequest)
    ensures s.contentLength + s.checkedIdx > INT_MAX ==>
              HandleLine(s) == (s.(startLine := s.checkedIdx), SumOverflows)
  {
  }

  /** The loop of process_read over an incomplete body is that scan. */
  lemma {:induction false} BodyScanIs(s: Conn)
    requires Valid(s) && Clean(s) && s.phase == Content && Waits(s)
    ensures var (t, code) := Process(s, false);
      var p := BodyScan(s.buf, s.contentLength, s.startLine, s.checkedIdx, s.readIdx);
      && Clean(t) && t == s.(buf := t.buf, startLine := p.line, checkedIdx := p.end)
      && t.buf[p.end..] == s.buf[p.end..]
      && code == (if p.line + s.contentLength > INT_MAX then SumOverflows else NoRequest)
    decreases s.readIdx - s.checkedIdx
  {
    hide ParseLine, HandleLine, BodyScan;
    var (l, status) := ParseLine(s);
    ScanIs(s);
    ScanStep(s);
    if status == LineOk {
      BodyHandled(l);
      var u := l.(startLine := l.checkedIdx);
      if Waits(l) {
        BodyScanIs(u);
        TailOfTail(u.buf, s.buf, u.checkedIdx, Process(u, false).0.checkedIdx);
      }
    }
  }

  // ---------- what one call decides ----------

  /**
   * Waiting: no result yet; the line begins at line and the next call counts
   * from end.  Decided: the call compares counted and the length with read,
   * and stores behind the line that begins at line.
   */
  datatype Verdict = Waiting(line: nat, end: nat) | Decided(line: nat, counted: nat, read: nat)

  /** What a call makes of the bytes up to r, if it counts from c in a line that begins at line. */
  function Judge(buf: string, length: int, line: nat, c: nat, r: nat): (v: Verdict)
    requires line <= c
    ensures v.Waiting? ==> v.line <= v.end && c <= v.end
    ensures v.Decided? ==> v.line <= v.counted && c <= v.counted && v.read == r && (c <= r ==> v.counted <= r)
    ensures v.Decided? ==> v.counted + length <= r || v.counted + length > INT_MAX
  {
    if c + length > INT_MAX || c + length <= r then Decided(line, c, r) else
    var p := BodyScan(buf, length, c, c, r);
    if p.line + length > INT_MAX then Decided(p.line, p.end, r) else Waiting(p.line, p.end)
  }

  function CodeOf(v: Verdict, length: int): Code {
    match v
    case Waiting(_, _) => NoRequest
    case Decided(line, counted, _) =>
      if counted + length > INT_MAX then SumOverflows
      else if 0 <= line + length < READ_BUFFER_SIZE then GetRequest else OutOfBuffer
  }

  lemma {:induction false} CallIsJudged(s: Conn)
    requires Valid(s) && Clean(s) && s.phase == Content
    ensures var (t, code) := Process(s, true);
      var v := Judge(s.buf, s.contentLength, s.startLine, s.checkedIdx, s.readIdx);
      && code == CodeOf(v, s.contentLength) && Clean(t) && s.checkedIdx <= t.checkedIdx
      && (v.Waiting? ==>
            && t == s.(buf := t.buf, startLine := v.line, checkedIdx := v.end)
            && t.buf[v.end..] == s.buf[v.end..])
  {
    if Waits(s) {
      hide HandleLine, BodyScan;
      BodyHandled(s);
      BodyScanIs(s.(startLine := s.checkedIdx));
    } else {
      hide BodyScan;
    }
  }

  // ---------- what the calls decide ----------

  /**
   * The first decision of a call after each chunk; the first chunk begins at
   * from.  Calls before the head is complete, which is at c, do nothing.
   */
  function JudgeAll(buf: string, length: int, line: nat, c: nat, from: nat, chunks: seq<string>): (v: Verdict)
    requires line <= c
    ensures v.line <= if v.Waiting? then v.end else v.counted
    decreases |chunks|
  {
    if chunks == [] then Waiting(line, c) else
    var r := from + |chunks[0]|;
    if r < c then JudgeAll(buf, length, line, c, r, chunks[1..]) else
    match Judge(buf, length, line, c, r)
    case Waiting(l, e) => JudgeAll(buf, length, l, e, r, chunks[1..])
    case Decided(l, n, m) => Decided(l, n, m)
  }

  /** A decision is made where the bytes suffice, or where the sum is no int. */
  lemma {:induction false} DecidedBy(buf: string, length: int, line: nat, c: nat, from: nat, chunks: seq<string>)
    requires line <= c
    ensures var v := JudgeAll(buf, length, line, c, from, chunks);
      v.Decided? ==>
      && c <= v.counted <= v.read <= from + |Joined(chunks)|
      && (v.counted + length <= v.read || v.counted + length > INT_MAX)
    decreases |chunks|
  {
    if chunks != [] {
      var r, rest := from + |chunks[0]|, chunks[1..];
      assert |Joined(chunks)| == |chunks[0]| + |Joined(rest)|;
      if r < c {
        DecidedBy(buf, length, line, c, r, rest);
      } else {
        var v := Judge(buf, length, line, c, r);
        if v.Waiting? { DecidedBy(buf, length, v.line, v.end, r, rest); }
      }
    }
  }

  /** Only the bytes from where the calls count on matter. */
  lemma {:induction false} JudgeLocal(
      a: string, b: string, length: int, line: nat, c: nat, from: nat, chunks: seq<string>)
    requires from + |Joined(chunks)| <= |a| && from + |Joined(chunks)| <= |b| && line <= c
    requires forall i | c <= i < from + |Joined(chunks)| :: a[i] == b[i]
    ensures JudgeAll(a, length, line, c, from, chunks) == JudgeAll(b, length, line, c, from, chunks)
    decreases |chunks|
  {
    hide BodyScan;
    if chunks != [] {
      var r, rest := from + |chunks[0]|, chunks[1..];
      assert |Joined(chunks)| == |chunks[0]| + |Joined(rest)|;
      if r < c {
        JudgeLocal(a, b, length, line, c, r, rest);
      } else {
        ScanLocal(a, b, length, c, c, r);
        var v := Judge(a, length, line, c, r);
        if v.Waiting? {
          JudgeLocal(a, b, length, v.line, v.end, r, rest);
        }
      }
    }
  }

  /** In the body, the calls are judged by the bytes as they arrived. */
  lemma {:induction false} FeedIsJudged(s: Conn, chunks: seq<string>)
    requires Valid(s) && Clean(s) && s.phase == Content && s.readIdx + |Joined(chunks)| <= READ_BUFFER_SIZE
    ensures var buf := Receive(s, Joined(chunks)).buf;
      var v, a := JudgeAll(buf, s.contentLength, s.startLine, s.checkedIdx, s.readIdx, chunks), Feed(s, chunks);
      && a.1 == CodeOf(v, s.contentLength) && s.checkedIdx <= a.0.checkedIdx
      && (v.Waiting? ==> a.0.startLine == v.line && a.0.checkedIdx == v.end)
    decreases |chunks|
  {
    hide Process, Receive, Judge;
    if chunks != [] {
      var z, rest := chunks[0], chunks[1..];
      var y := Joined(rest);
      assert Joined(chunks) == z + y;
      var u := Receive(s, z);
      ReceivedBytes(s, z);
      ReceiveTwice(s, z, y);
      var x := Receive(u, y);
      ReceivedBytes(u, y);
      CallIsJudged(u);
      ReadIdxKept(u, true);
      SameJudge(u.buf, x.buf, u.contentLength, u.startLine, u.checkedIdx, u.readIdx);
      var v := Judge(u.buf, u.contentLength, u.startLine, u.checkedIdx, u.readIdx);
      if v.Waiting? {
        var t := Process(u, true).0;
        FeedIsJudged(t, rest);
        ReceiveBehind(u, t, y, t.checkedIdx);
        assert forall i | v.end <= i < |x.buf| :: x.buf[i] == Receive(t, y).buf[i];
        JudgeLocal(x.buf, Receive(t, y).buf, s.contentLength, v.line, v.end, u.readIdx, rest);
      }
    }
  }

  lemma {:induction false} SameJudge(a: string, b: string, length: int, line: nat, c: nat, r: nat)
    requires line <= c <= r && r <= |a| && r <= |b| && forall i | c <= i < r :: a[i] == b[i]
    ensures Judge(a, length, line, c, r) == Judge(b, length, line, c, r)
  {
    ScanLocal(a, b, length, c, c, r);
  }

  // ---------- sums that are no ints ----------

  /** Some sum of a position and the length in a call that counts from c is no int. */
  predicate Exceeds(buf: string, length: int, c: nat, r: nat) {
    c + length > INT_MAX || (r < c + length && BodyScan(buf, length, c, c, r).line + length > INT_MAX)
  }

  /** Where the line began does not matter to whether a sum exceeds. */
  lemma {:induction false} LineFree(buf: string, length: int, line: nat, line': nat, c: nat, r: nat)
    requires line <= c && line' <= c && line + length <= INT_MAX && line' + length <= INT_MAX
    ensures BodyScan(buf, length, line, c, r).end == BodyScan(buf, length, line', c, r).end
    ensures BodyScan(buf, length, line, c, r).line + length > INT_MAX <==>
            BodyScan(buf, length, line', c, r).line + length > INT_MAX
    decreases r - c
  {
    if c < r <= |buf| && !IsLineEnd(buf[c]) {
      LineFree(buf, length, line, line', c + 1, r);
    }
  }

  /** A scan that has stopped is taken up again where it stopped. */
  lemma {:induction false} ScanResumes(buf: string, length: int, line: nat, c: nat, r: nat, n: nat)
    requires line <= c <= r <= n <= |buf| && BodyScan(buf, length, line, c, r).line + length <= INT_MAX
    ensures var p := BodyScan(buf, length, line, c, r);
      BodyScan(buf, length, line, c, n) == BodyScan(buf, length, p.line, p.end, n)
    decreases r - c
  {
    if c < r && buf[c] != LF {
      if buf[c] != CR { ScanResumes(buf, length, line, c + 1, r, n); }
      else if c + 1 < r && buf[c + 1] == LF { ScanResumes(buf, length, c + 2, c + 2, r, n); }
    }
  }

  /** If a scan of all bytes meets a sum that is no int, then so do the calls, however the bytes are cut. */
  lemma {:induction false} ExceedsInChunks(
      buf: string, length: int, line: nat, c: nat, from: nat, chunks: seq<string>)
    requires chunks != [] && line <= c <= from + |Joined(chunks)| <= |buf|
    requires c + length > INT_MAX ||
             (line + length <= INT_MAX &&
              BodyScan(buf, length, line, c, from + |Joined(chunks)|).line + length > INT_MAX)
    ensures JudgeAll(buf, length, line, c, from, chunks).Decided?
    decreases |chunks|
  {
    var r, rest, n := from + |chunks[0]|, chunks[1..], from + |Joined(chunks)|;
    assert |Joined(chunks)| == |chunks[0]| + |Joined(rest)|;
    if r < c {
      ExceedsInChunks(buf, length, line, c, r, rest);
    } else {
      var v := Judge(buf, length, line, c, r);
      if v.Waiting? {
        LineFree(buf, length, line, c, c, n);
        ScanResumes(buf, length, c, c, r, n);
        ExceedsInChunks(buf, length, v.line, v.end, r, rest);
      }
    }
  }
}
