// What the cuts between chunks do to a request with a body: which of them
// change the outcome, what each way of cutting comes to, and what none of
// them changes.

module HttpCuts {
  import opened HttpText
  import opened HttpConn
  import opened HttpLines
  import opened HttpChunks
  import opened HttpStrings
  import opened HttpBody

  // ---------- which cuts change the outcome ----------

  /** A scan of the body's bytes from lo up to r stops at the first of them: an LF, or a CR with no LF behind it yet. */
  predicate StopsAtOnce(buf: string, lo: nat, r: nat) {
    lo < r <= |buf| && (buf[lo] == LF || (buf[lo] == CR && (lo + 1 == r || buf[lo + 1] != LF)))
  }

  /** Wherever a chunk but the last ends strictly inside the body of w, the scan stops at once. */
  predicate CutsStop(w: Conn, from: nat, chunks: seq<string>)
    decreases |chunks|
  {
    |chunks| <= 1 ||
    var r := from + |chunks[0]|;
    && (w.checkedIdx < r < w.checkedIdx + w.contentLength ==> StopsAtOnce(w.buf, w.checkedIdx, r))
    && CutsStop(w, r, chunks[1..])
  }

  /** Cuts at or behind the body's end do not matter. */
  lemma {:induction false} CutsBehind(w: Conn, from: nat, chunks: seq<string>)
    requires w.checkedIdx + w.contentLength <= from
    ensures CutsStop(w, from, chunks)
    decreases |chunks|
  {
    if |chunks| > 1 { CutsBehind(w, from + |chunks[0]|, chunks[1..]); }
  }

  lemma {:induction false} ScanStops(buf: string, length: int, lo: nat, r: nat)
    requires lo < r <= |buf|
    ensures BodyScan(buf, length, lo, lo, r).end == lo <==> StopsAtOnce(buf, lo, r)
  {
  }

  /** parse_content does not wait: there is a result, and the checked index stays. */
  lemma {:induction false} WholeIsFound(s: Conn)
    requires Valid(s) && s.phase == Content && !Waits(s)
    ensures Process(s, true).1 in {GetRequest, OutOfBuffer, SumOverflows}
    ensures Process(s, true).0.checkedIdx == s.checkedIdx
  {
  }

  /** If the scan of an incomplete body did not move, nothing changed. */
  lemma {:induction false} ShortBodyStays(s: Conn)
    requires Valid(s) && Clean(s) && AtBody(s) && Waits(s)
    requires BodyScan(s.buf, s.contentLength, s.checkedIdx, s.checkedIdx, s.readIdx).end == s.checkedIdx
    ensures Process(s, true) == (s, NoRequest)
  {
    hide ParseLine;
    assert HandleLine(s) == (s, NoRequest);
    assert Process(s, true) == Process(s, false);
    ScanIs(s);
    ScanAt(s.buf, s.contentLength, s.checkedIdx, s.checkedIdx, LineEnd(s), s.readIdx);
  }

  /** In the body, which is there when all chunks are: the outcome is that of one call exactly if every cut stops. */
  lemma {:induction false} BodyCuts(s: Conn, chunks: seq<string>)
    requires Valid(s) && Clean(s) && AtBody(s)
    requires chunks != [] && s.readIdx + |Joined(chunks)| <= READ_BUFFER_SIZE
    requires s.contentLength + s.checkedIdx <= s.readIdx + |Joined(chunks)|
    ensures var w := Receive(s, Joined(chunks));
      SameOutcome(Feed(s, chunks), ProcessRead(w)) <==> CutsStop(w, s.readIdx, chunks)
    decreases |chunks|
  {
    hide Process, Receive, HandleLine, SameOutcome, BodyScan;
    var z, rest := chunks[0], chunks[1..];
    var y := Joined(rest);
    var u := Receive(s, z);
    ReceivedBytes(s, z);
    ReceivedBytes(u, y);
    ReceiveTwice(s, z, y);
    var w := Receive(u, y);
    var c := s.checkedIdx;
    if rest == [] {
      assert y == "" && z + y == z;
      SameAsItself(ProcessRead(u));
    } else if !Waits(u) {
      WholeBody(u, y);
      CutsBehind(w, u.readIdx, rest);
    } else {
      CallIsJudged(u);
      var t := Process(u, true).0;
      if c < u.readIdx { ScanStops(u.buf, u.contentLength, c, u.readIdx); }
      if t.checkedIdx == c {
        ShortBodyStays(u);
        BodyCuts(u, rest);
      } else {
        FeedIsJudged(t, rest);
        WholeIsFound(w);
        MovedIsNotSame(Feed(s, chunks), ProcessRead(w));
      }
    }
  }

  lemma SameAsItself(a: (Conn, Code))
    requires Valid(a.0)
    ensures SameOutcome(a, a)
  {
  }

  lemma MovedIsNotSame(a: (Conn, Code), b: (Conn, Code))
    requires a.0.checkedIdx != b.0.checkedIdx
    ensures !SameOutcome(a, b)
  {
  }

  // ---------- from the head on ----------

  /** The verdict on a body at lo of the bytes in w, for chunks of which the first begins at from. */
  function BodyVerdict(w: Conn, from: nat, chunks: seq<string>): Verdict {
    JudgeAll(w.buf, w.contentLength, w.checkedIdx, w.checkedIdx, from, chunks)
  }

  /** What is to be shown of the chunks fed to s. */
  ghost predicate CutsDecide(s: Conn, chunks: seq<string>)
    requires Valid(s) && s.readIdx + |Joined(chunks)| <= READ_BUFFER_SIZE
  {
    var all := Receive(s, Joined(chunks));
    var w, a := ToBody(all).0, Feed(s, chunks);
    var v := BodyVerdict(w, s.readIdx, chunks);
    && (w.contentLength + w.checkedIdx <= w.readIdx ==>
          (SameOutcome(a, ProcessRead(all)) <==> CutsStop(w, s.readIdx, chunks)))
    && a.1 == CodeOf(v, w.contentLength)
    && (v.Waiting? ==> a.0.startLine == v.line && a.0.checkedIdx == v.end)
  }

  /** It only matters where the chunks end. */
  lemma {:induction false} SameEnds(w: Conn, from: nat, chunks: seq<string>, from': nat, chunks': seq<string>)
    requires chunks != [] && chunks' != [] && chunks[1..] == chunks'[1..]
    requires from + |chunks[0]| == from' + |chunks'[0]|
    ensures CutsStop(w, from, chunks) == CutsStop(w, from', chunks')
    ensures BodyVerdict(w, from, chunks) == BodyVerdict(w, from', chunks')
  {
    hide Judge;
  }

  /** A chunk that ends before the body neither cuts nor completes it. */
  lemma {:induction false} EndBeforeBody(w: Conn, from: nat, chunks: seq<string>)
    requires |chunks| > 1 && from + |chunks[0]| < w.checkedIdx
    ensures var r := from + |chunks[0]|;
      && CutsStop(w, from, chunks) == CutsStop(w, r, chunks[1..])
      && BodyVerdict(w, from, chunks) == BodyVerdict(w, r, chunks[1..])
  {
    hide Judge;
  }

  lemma {:induction false} HeadCuts(s: Conn, chunks: seq<string>)
    requires Valid(s) && Clean(s) && s.phase != Content
    requires chunks != [] && s.readIdx + |Joined(chunks)| <= READ_BUFFER_SIZE
    requires ToBody(Receive(s, Joined(chunks))).0.phase == Content
    ensures CutsDecide(s, chunks)
    decreases |chunks|
  {
    hide ToBody, Process, Receive, HandleLine, ParseLine, SameOutcome, BodyVerdict, CutsStop, CodeOf;
    var z, rest := chunks[0], chunks[1..];
    var y := Joined(rest);
    var u := Receive(s, z);
    ReceiveTwice(s, z, y);
    ReceivedBytes(s, z);
    HeadReceive(u, y);
    HeadThenBody(u);
    HeadThenBody(Receive(u, y));
    var (h, code) := ToBody(u);
    ReceivedBytes(h, y);
    ReceiveNothing(u);
    if h.phase == Content {
      BodyHead(h, y);
      HeadHasNoCode(u);
      var again := [""] + rest;
      assert Joined(again) == "" + y == y;
      ReceiveNothing(h);
      SameEnds(Receive(h, y), s.readIdx, chunks, h.readIdx, again);
      FeedIsJudged(h, again);
      assert BodyVerdict(Receive(h, y), h.readIdx, again) ==
             JudgeAll(Receive(h, y).buf, h.contentLength, h.startLine, h.checkedIdx, h.readIdx, again) by {
        VerdictIs(Receive(h, y), h.readIdx, again);
      }
      if h.contentLength + h.checkedIdx <= h.readIdx + |y| { BodyCuts(h, again); }
    } else {
      HeadWaits(u);
      BodyBehind(h, y);
      HeadThenBody(Receive(h, y));
      HeadCuts(h, rest);
      EndBeforeBody(ToBody(Receive(h, y)).0, s.readIdx, chunks);
    }
  }

  lemma VerdictIs(w: Conn, from: nat, chunks: seq<string>)
    ensures BodyVerdict(w, from, chunks) ==
            JudgeAll(w.buf, w.contentLength, w.checkedIdx, w.checkedIdx, from, chunks)
  {
  }

  /**
   * The outcome and the cuts, for a request with a body on a new connection
   * and any chunks at all; w is the connection when it has everything and has
   * read the head.  If the body is there, feeding the chunks comes to the same
   * as handing them over at once if and only if every cut inside the body
   * stops the scan at once; in any case the first result is the one that the
   * bytes as they arrived are judged to.
   */
  lemma {:induction false} CutsInsideBody(chunks: seq<string>)
    requires chunks != [] && |Joined(chunks)| <= READ_BUFFER_SIZE
    ensures var all := Receive(Fresh(), Joined(chunks)); var w, a := ToBody(all).0, Feed(Fresh(), chunks);
      w.phase == Content ==>
      && (w.checkedIdx + w.contentLength <= |Joined(chunks)| ==>
            (SameOutcome(a, ProcessRead(all)) <==> CutsStop(w, 0, chunks)))
      && a.1 == CodeOf(BodyVerdict(w, 0, chunks), w.contentLength)
  {
    hide ToBody, Process, Receive, SameOutcome, BodyVerdict, CodeOf;
    var all := Receive(Fresh(), Joined(chunks));
    if ToBody(all).0.phase == Content {
      HeadCuts(Fresh(), chunks);
      ReceivedBytes(Fresh(), Joined(chunks));
      HeadReceive(all, "");
    }
  }

  // ---------- the first result ----------

  /** If the chunks end with the body, it is found exactly if every cut stops. */
  lemma {:induction false} FoundIffCutsStop(w: Conn, from: nat, chunks: seq<string>)
    requires chunks != [] && w.contentLength >= 0 && w.checkedIdx + w.contentLength <= |w.buf| <= READ_BUFFER_SIZE
    requires from + |Joined(chunks)| == w.checkedIdx + w.contentLength
    ensures BodyVerdict(w, from, chunks).Decided? <==> CutsStop(w, from, chunks)
    decreases |chunks|
  {
    hide BodyScan;
    var c, r, rest := w.checkedIdx, from + |chunks[0]|, chunks[1..];
    assert |Joined(chunks)| == |chunks[0]| + |Joined(rest)|;
    if r == c + w.contentLength {
      CutsBehind(w, r, rest);
    } else if r < c {
      FoundIffCutsStop(w, r, rest);
    } else {
      if c < r { ScanStops(w.buf, w.contentLength, c, r); }
      var v := Judge(w.buf, w.contentLength, c, c, r);
      if v.end == c {
        FoundIffCutsStop(w, r, rest);
      } else {
        DecidedBy(w.buf, w.contentLength, v.line, v.end, r, rest);
      }
    }
  }

  /** Bytes that do not complete the body decide only by a sum that is no int. */
  lemma {:induction false} ShortVerdict(w: Conn, from: nat, chunks: seq<string>)
    requires from + |Joined(chunks)| < w.checkedIdx + w.contentLength
    ensures var v := BodyVerdict(w, from, chunks);
      v.Decided? ==> v.counted + w.contentLength > INT_MAX && v.counted <= from + |Joined(chunks)|
  {
    DecidedBy(w.buf, w.contentLength, w.checkedIdx, w.checkedIdx, from, chunks);
  }

  /**
   * If no byte follows the body, the first result is that of one call exactly
   * if, with the whole body there, every cut inside it stops the scan at once;
   * or, with less, there is no result or one call exceeds an int as well.
   * Unless the length is within the buffer's size of INT_MAX, there is no
   * result then.
   */
  lemma {:induction false} FirstResultIff(chunks: seq<string>)
    requires chunks != [] && |Joined(chunks)| <= READ_BUFFER_SIZE
    ensures var all := Receive(Fresh(), Joined(chunks)); var w := ToBody(all).0;
      var n, end := |Joined(chunks)|, w.checkedIdx + w.contentLength;
      var a, b := Feed(Fresh(), chunks).1, ProcessRead(all).1;
      w.phase == Content ==>
      && (n == end ==> (a == b <==> CutsStop(w, 0, chunks)))
      && (n < end ==> (a == b <==> a == NoRequest || b == SumOverflows))
      && (n < end && n + w.contentLength <= INT_MAX ==> a == b == NoRequest)
  {
    hide ToBody, Process, Receive, Feed, BodyVerdict, CutsStop;
    var all := Receive(Fresh(), Joined(chunks));
    var w := ToBody(all).0;
    var n, end := |Joined(chunks)|, w.checkedIdx + w.contentLength;
    ReceivedBytes(Fresh(), Joined(chunks));
    HeadReceive(all, "");
    HeadThenBody(all);
    HeadHasNoCode(all);
    if w.phase == Content && n <= end {
      CutsInsideBody(chunks);
      if n < end {
        ShortVerdict(w, 0, chunks);
        CallIsJudged(w);
        ShortCall(w);
        if Process(w, true).1 == SumOverflows {
          ExceedsInChunks(w.buf, w.contentLength, w.checkedIdx, w.checkedIdx, 0, chunks);
          VerdictIs(w, 0, chunks);
        }
      } else {
        WholeIsFound(w);
        FoundIffCutsStop(w, 0, chunks);
      }
    }
  }

  /** One call on an incomplete body has no result, or a sum exceeds an int. */
  lemma {:induction false} ShortCall(w: Conn)
    requires Valid(w) && Clean(w) && AtBody(w) && w.readIdx < w.contentLength + w.checkedIdx
    ensures Process(w, true).1 ==
            if Exceeds(w.buf, w.contentLength, w.checkedIdx, w.readIdx) then SumOverflows else NoRequest
    ensures w.readIdx + w.contentLength <= INT_MAX ==> !Exceeds(w.buf, w.contentLength, w.checkedIdx, w.readIdx)
  {
    hide Process, BodyScan;
    CallIsJudged(w);
  }

  // ---------- an incomplete body ----------

  /** Where the line began does not matter to a scan. */
  lemma {:induction false} ScanFree(s: Conn, k: nat)
    requires Valid(s) && Clean(s) && k <= s.checkedIdx
    ensures ParseLine(s.(startLine := k)) == (ParseLine(s).0.(startLine := k), ParseLine(s).1)
  {
    ScanIs(s);
    ScanIs(s.(startLine := k));
    LineEndIs(s.(startLine := k), LineEnd(s));
  }

  /** The body is not complete with y, and no sum can exceed an int. */
  predicate StaysShort(s: Conn, y: string) {
    && s.phase == Content && s.readIdx + |y| <= READ_BUFFER_SIZE
    && s.readIdx + |y| < s.contentLength + s.checkedIdx && s.readIdx + |y| + s.contentLength <= INT_MAX
  }

  lemma {:induction false} LoopFree(s: Conn, k: nat)
    requires Valid(s) && Clean(s) && StaysShort(s, "") && k <= s.checkedIdx
    ensures var t := Process(s.(startLine := k), false).0; t == Process(s, false).0.(startLine := t.startLine)
  {
    hide ParseLine, HandleLine;
    ScanFree(s, k);
    var (l, status) := ParseLine(s);
    if status == LineOk {
      BodyHandled(l);
      BodyHandled(l.(startLine := k));
    }
  }

  /** Scanning goes on, with more bytes behind, from where it stopped. */
  lemma {:induction false} LoopReceive(s: Conn, y: string)
    requires Valid(s) && Clean(s) && StaysShort(s, y)
    ensures Valid(Process(s, false).0) && Process(s, false).0.readIdx == s.readIdx
    ensures Process(Receive(s, y), false) == Process(Receive(Process(s, false).0, y), false)
    decreases s.readIdx - s.checkedIdx
  {
    hide ParseLine, HandleLine, Receive;
    ScanIs(s);
    ScanReceive(s, y);
    ReceivedBytes(s, y);
    var (l, status) := ParseLine(s);
    ReceivedBytes(l, y);
    if status == LineOk {
      var u := l.(startLine := l.checkedIdx);
      BodyHandled(l);
      BodyHandled(Receive(l, y));
      ReceiveStart(l, y);
      LoopReceive(u, y);
    } else {
      ScanAgain(s);
      ScanReceive(l, y);
    }
  }

  lemma {:induction false} ReceiveStart(s: Conn, y: string)
    requires Valid(s) && s.readIdx + |y| <= READ_BUFFER_SIZE
    ensures Receive(s, y).(startLine := s.checkedIdx) == Receive(s.(startLine := s.checkedIdx), y)
  {
  }

  /** In the body, chunks that do not complete it come to what one call comes to, but for where the line begins. */
  lemma {:induction false} ShortFeed(s: Conn, chunks: seq<string>)
    requires Valid(s) && Clean(s) && chunks != [] && StaysShort(s, Joined(chunks))
    ensures var a, b := Feed(s, chunks), ProcessRead(Receive(s, Joined(chunks)));
      a.1 == b.1 == NoRequest && a.0 == b.0.(startLine := a.0.startLine)
    decreases |chunks|
  {
    hide Process, Receive, HandleLine;
    var z, rest := chunks[0], chunks[1..];
    var y := Joined(rest);
    assert Joined(chunks) == z + y;
    var u := Receive(s, z);
    ReceivedBytes(s, z);
    ReceivedBytes(u, y);
    ReceiveTwice(s, z, y);
    ShortStep(u, y);
    if rest == [] {
      assert z + y == z;
    } else {
      var t := Process(u, true).0;
      ShortFeed(t, rest);
    }
  }

  lemma {:induction false} ShortStep(u: Conn, y: string)
    requires Valid(u) && Clean(u) && StaysShort(u, y)
    ensures var (t, code) := Process(u, true);
      && code == NoRequest && Clean(t) && StaysShort(t, y) && t.readIdx == u.readIdx
      && var b := Process(Receive(t, y), true).0; b == Process(Receive(u, y), true).0.(startLine := b.startLine)
    ensures Process(Receive(u, y), true).1 == NoRequest
  {
    hide ParseLine, HandleLine, Receive;
    var v := u.(startLine := u.checkedIdx);
    BodyHandled(u);
    BodyScanIs(v);
    var t := Process(u, true).0;
    LoopReceive(v, y);
    ReceivedBytes(u, y);
    ReceivedBytes(v, y);
    ReceiveStart(u, y);
    BodyHandled(Receive(u, y));
    ReceivedBytes(t, y);
    BodyHandled(Receive(t, y));
    LoopFree(Receive(t, y), t.checkedIdx);
    BodyScanIs(Receive(v, y));
  }

  /** The same from the head on. */
  lemma {:induction false} ShortHead(s: Conn, chunks: seq<string>)
    requires Valid(s) && Clean(s) && s.phase != Content
    requires chunks != [] && s.readIdx + |Joined(chunks)| <= READ_BUFFER_SIZE
    requires StaysShort(ToBody(Receive(s, Joined(chunks))).0, "")
    ensures var a, b := Feed(s, chunks), ProcessRead(Receive(s, Joined(chunks)));
      a.1 == b.1 == NoRequest && a.0 == b.0.(startLine := a.0.startLine)
    decreases |chunks|
  {
    hide ToBody, Process, Receive, HandleLine, ParseLine;
    var z, rest := chunks[0], chunks[1..];
    var y := Joined(rest);
    var u := Receive(s, z);
    ReceiveTwice(s, z, y);
    ReceivedBytes(s, z);
    HeadReceive(u, y);
    HeadThenBody(u);
    HeadThenBody(Receive(u, y));
    HeadHasNoCode(Receive(u, y));
    HeadHasNoCode(u);
    var (h, code) := ToBody(u);
    ReceivedBytes(h, y);
    ReceiveNothing(u);
    if h.phase == Content {
      BodyHead(h, y);
      var again := [""] + rest;
      assert Joined(again) == "" + y == y;
      ReceiveNothing(h);
      ShortFeed(h, again);
    } else {
      HeadThenBody(Receive(h, y));
      ShortHead(h, rest);
    }
  }

  /**
   * If the chunks do not complete the body, and no sum can exceed an int, one
   * call and the calls after each chunk leave the same connection behind, but
   * for where the line begins; so their outcome is the same exactly if that
   * is, too.
   */
  lemma {:induction false} ShortBodyOutcome(chunks: seq<string>)
    requires chunks != [] && |Joined(chunks)| <= READ_BUFFER_SIZE
    ensures var all := Receive(Fresh(), Joined(chunks)); var w := ToBody(all).0;
      var n, a, b := |Joined(chunks)|, Feed(Fresh(), chunks), ProcessRead(all);
      w.phase == Content && n < w.checkedIdx + w.contentLength && n + w.contentLength <= INT_MAX ==>
      && a.1 == b.1 == NoRequest && a.0 == b.0.(startLine := a.0.startLine)
      && (SameOutcome(a, b) <==>
          BodyVerdict(w, 0, chunks).line == BodyVerdict(w, 0, [Joined(chunks)]).line)
  {
    hide ToBody, Process, Receive, Feed, BodyVerdict, CutsStop;
    var all := Receive(Fresh(), Joined(chunks));
    var w := ToBody(all).0;
    ReceivedBytes(Fresh(), Joined(chunks));
    HeadReceive(all, "");
    if w.phase == Content && |Joined(chunks)| < w.checkedIdx + w.contentLength
       && |Joined(chunks)| + w.contentLength <= INT_MAX {
      ShortHead(Fresh(), chunks);
      HeadCuts(Fresh(), chunks);
      FeedOne(Joined(chunks));
      HeadCuts(Fresh(), [Joined(chunks)]);
      ShortVerdict(w, 0, chunks);
      ShortVerdict(w, 0, [Joined(chunks)]);
      assert Valid(ProcessRead(all).0);
    }
  }

  // ---------- what no cut changes ----------

  /** t is s but for bytes from lo on and for the indices. */
  ghost predicate KeepsBelow(s: Conn, t: Conn, lo: nat) {
    && t == s.(buf := t.buf, readIdx := t.readIdx, checkedIdx := t.checkedIdx, startLine := t.startLine)
    && lo <= |s.buf| == |t.buf| && s.buf[..lo] == t.buf[..lo]
  }

  lemma {:induction false} KeepsBelowTwice(s: Conn, t: Conn, u: Conn, lo: nat)
    requires KeepsBelow(s, t, lo) && KeepsBelow(t, u, lo)
    ensures KeepsBelow(s, u, lo)
  {
  }

  /** In the body nothing is stored below its begin. */
  lemma {:induction false} BodyKeepsBelow(s: Conn, ok: bool, lo: nat)
    requires Valid(s) && Clean(s) && s.phase == Content && s.contentLength >= 0 && lo <= s.startLine
    ensures var t := Process(s, ok).0; Clean(t) && KeepsBelow(s, t, lo) && lo <= t.startLine
    decreases s.readIdx - s.checkedIdx, ok
  {
    hide ParseLine, HandleLine;
    if ok {
      ContentKeepsBelow(s, lo);
      var (t, code) := HandleLine(s);
      if code == NoRequest { BodyKeepsBelow(t, false, lo); }
    } else {
      var (l, status) := ParseLine(s);
      ScanIs(s);
      assert KeepsBelow(s, l, lo);
      if status == LineOk {
        ContentKeepsBelow(l, lo);
        var (t, code) := HandleLine(l);
        if code == NoRequest { BodyKeepsBelow(t, false, lo); }
      }
    }
  }

  lemma {:induction false} ContentKeepsBelow(s: Conn, lo: nat)
    requires Valid(s) && Clean(s) && s.phase == Content && s.contentLength >= 0 && lo <= s.startLine
    ensures var t := HandleLine(s).0; Clean(t) && KeepsBelow(s, t, lo) && lo <= t.startLine
    ensures HandleLine(s).0.phase == Content && HandleLine(s).0.contentLength >= 0
    ensures HandleLine(s).0.checkedIdx == s.checkedIdx && HandleLine(s).0.readIdx == s.readIdx
  {
  }

  lemma {:induction false} ReceiveKeepsBelow(s: Conn, y: string, lo: nat)
    requires Valid(s) && s.readIdx + |y| <= READ_BUFFER_SIZE && lo <= s.readIdx
    ensures KeepsBelow(s, Receive(s, y), lo)
  {
    assert Receive(s, y).buf[..lo] == s.buf[..lo];
  }

  lemma {:induction false} FeedKeepsBelow(s: Conn, chunks: seq<string>, lo: nat)
    requires Valid(s) && Clean(s) && s.phase == Content && s.contentLength >= 0 && lo <= s.startLine
    requires s.readIdx + |Joined(chunks)| <= READ_BUFFER_SIZE
    ensures KeepsBelow(s, Feed(s, chunks).0, lo)
    decreases |chunks|
  {
    hide Process, Receive, KeepsBelow;
    if chunks == [] {
      NothingChanged(s, lo);
    } else {
      var u := Receive(s, chunks[0]);
      ReceivedBytes(s, chunks[0]);
      BodyKeepsBelow(u, true, lo);
      ReadIdxKept(u, true);
      var (t, code) := ProcessRead(u);
      KeepsBelowTwice(s, u, t, lo);
      if code == NoRequest {
        FeedKeepsBelow(t, chunks[1..], lo);
        KeepsBelowTwice(s, t, Feed(t, chunks[1..]).0, lo);
      }
    }
  }

  lemma NothingChanged(s: Conn, lo: nat)
    requires lo <= |s.buf|
    ensures KeepsBelow(s, s, lo)
  {
  }

  /** Whatever the chunks, the fields are those of w, which has read the head, and its bytes below the body are kept. */
  lemma {:induction false} HeadIsKept(s: Conn, chunks: seq<string>)
    requires Valid(s) && Clean(s) && s.phase != Content
    requires chunks != [] && s.readIdx + |Joined(chunks)| <= READ_BUFFER_SIZE
    requires var w := ToBody(Receive(s, Joined(chunks))).0; w.phase == Content && w.contentLength >= 0
    ensures var w := ToBody(Receive(s, Joined(chunks))).0; KeepsBelow(w, Feed(s, chunks).0, w.checkedIdx)
    decreases |chunks|
  {
    hide ToBody, Process, Receive, HandleLine, ParseLine, KeepsBelow;
    var z, rest := chunks[0], chunks[1..];
    var y := Joined(rest);
    var u := Receive(s, z);
    ReceiveTwice(s, z, y);
    ReceivedBytes(s, z);
    HeadReceive(u, y);
    HeadThenBody(u);
    HeadHasNoCode(Receive(u, y));
    var h := ToBody(u).0;
    if h.phase == Content {
      BodyHead(h, y);
      var again := [""] + rest;
      ReceiveNothing(h);
      var w, lo := Receive(h, y), h.checkedIdx;
      ReceiveKeepsBelow(h, y, lo);
      assert KeepsBelow(w, h, lo) by { KeepsBelowBack(h, w, lo); }
      FeedKeepsBelow(h, again, lo);
      KeepsBelowTwice(w, h, Feed(h, again).0, lo);
    } else {
      ReceiveNothing(u);
      HeadIsKept(h, rest);
    }
  }

  lemma KeepsBelowBack(s: Conn, t: Conn, lo: nat)
    requires KeepsBelow(s, t, lo)
    ensures KeepsBelow(t, s, lo)
  {
  }

  lemma {:induction false} HeadGrounds(s: Conn)
    requires Valid(s) && Clean(s) && AllGrounded(s)
    ensures AllGrounded(ToBody(s).0)
    decreases s.readIdx - s.checkedIdx
  {
    hide HandleLine, ParseLine;
    if s.phase != Content {
      ScanIs(s);
      ScanGrounds(s);
      var (l, status) := ParseLine(s);
      if status == LineOk {
        ScannedLine(s);
        HandleGrounds(l);
        HandleStaysClean(l);
        var (t, code) := HandleLine(l);
        if code == NoRequest { HeadGrounds(t); }
      }
    }
  }

  /** A string that ends below c is the same in two buffers that agree there. */
  lemma {:induction false} SameText(a: string, b: string, c: nat, p: Pointer)
    requires c <= |a| == |b| && a[..c] == b[..c]
    requires p == Null || exists k :: p.index <= k < c && a[k] == NUL
    ensures p == Null || p.index <= |a|
    ensures p == Null || CString(a, p.index) == CString(b, p.index)
  {
    if p != Null {
      CStringWithin(a, b, p.index, c);
    }
  }

  /** The two connections say the same of the request. */
  ghost predicate SameRequest(a: Conn, b: Conn) {
    && a.phase == b.phase && a.contentLength == b.contentLength && a.linger == b.linger
    && a.url == b.url && a.version == b.version && a.host == b.host
    && AllGrounded(a) && AllGrounded(b)
    && TextAt(a, a.url) == TextAt(b, b.url)
    && TextAt(a, a.version) == TextAt(b, b.version)
    && TextAt(a, a.host) == TextAt(b, b.host)
  }

  lemma {:induction false} KeptTexts(a: Conn, b: Conn, c: nat)
    requires AllGrounded(a) && AllGrounded(b) && KeepsBelow(a, b, c)
    requires forall p | p in {a.url, a.version, a.host} && p != Null :: exists k :: p.index <= k < c && a.buf[k] == NUL
    ensures SameRequest(a, b)
  {
    hide CString;
    SameText(a.buf, b.buf, c, a.url);
    SameText(a.buf, b.buf, c, a.version);
    SameText(a.buf, b.buf, c, a.host);
  }

  /**
   * However the bytes are cut into chunks, url, version and host with their
   * texts, the length, the linger flag and the phase come out the same; and
   * so does the first result, if no chunk but the last ends strictly inside
   * the body.
   */
  lemma {:induction false} ChunksRecoverTheSame(chunks: seq<string>)
    requires chunks != [] && |Joined(chunks)| <= READ_BUFFER_SIZE
    ensures var a, b := Feed(Fresh(), chunks), ProcessRead(Receive(Fresh(), Joined(chunks)));
      && SameRequest(a.0, b.0)
      && (SplitsOutsideBody(Fresh(), chunks) ==> a.1 == b.1)
  {
    hide Feed, Process, Receive, ToBody;
    var all := Receive(Fresh(), Joined(chunks));
    var w := ToBody(all).0;
    var a, b := Feed(Fresh(), chunks).0, ProcessRead(all).0;
    ReceivedBytes(Fresh(), Joined(chunks));
    FeedGrounds(Fresh(), chunks);
    ProcessGrounds(all, true);
    if w.phase == Content && w.contentLength >= 0 {
      HeadIsKept(Fresh(), chunks);
      FeedOne(Joined(chunks));
      HeadIsKept(Fresh(), [Joined(chunks)]);
      HeadGrounds(all);
      KeptTexts(w, a, w.checkedIdx);
      KeptTexts(w, b, w.checkedIdx);
    } else {
      if w.phase == Content {
        NothingInside(0, chunks, w.checkedIdx, w.checkedIdx + w.contentLength);
      }
      ChunkingDoesNotMatter(chunks);
      KeptTexts(a, b, a.checkedIdx);
    }
    if SplitsOutsideBody(Fresh(), chunks) {
      ChunkingDoesNotMatter(chunks);
    }
  }

  lemma {:induction false} FeedOne(bytes: string)
    requires |bytes| <= READ_BUFFER_SIZE
    ensures Joined([bytes]) == bytes && Feed(Fresh(), [bytes]) == ProcessRead(Receive(Fresh(), bytes))
  {
    hide Process, Receive;
  }

  lemma {:induction false} NothingInside(from: nat, chunks: seq<string>, lo: int, hi: int)
    requires hi <= lo
    ensures SplitsOutside(from, chunks, lo, hi)
    decreases |chunks|
  {
    if |chunks| > 1 { NothingInside(from + |chunks[0]|, chunks[1..], lo, hi); }
  }

  // ---------- when the store leaves the buffer, and a sum an int ----------

  /**
   * When a call stores the NUL behind the body outside the buffer, on any
   * connection, also one that resumes inside a body: exactly if the body is
   * there, as the parser counts, and the place as far behind the start of the
   * line as the length says is outside.
   */
  lemma {:induction false} OutOfBufferIff(s: Conn)
    requires Valid(s) && Clean(s)
    ensures var h := ToBody(s).0;
      ProcessRead(s).1 == OutOfBuffer <==>
      && h.phase == Content && !Waits(h) && h.contentLength + h.checkedIdx <= INT_MAX
      && !(0 <= h.startLine + h.contentLength < READ_BUFFER_SIZE)
  {
    hide ToBody, Process, BodyScan;
    var h := ToBody(s).0;
    HeadThenBody(s);
    HeadHasNoCode(s);
    HeadReceive(s, "");
    if h.phase == Content {
      CallIsJudged(h);
    }
  }

  /** When a call adds a length and an index to what is no int. */
  lemma {:induction false} SumOverflowsIff(s: Conn)
    requires Valid(s) && Clean(s)
    ensures var h := ToBody(s).0;
      ProcessRead(s).1 == SumOverflows <==>
      h.phase == Content && Exceeds(h.buf, h.contentLength, h.checkedIdx, h.readIdx)
  {
    hide ToBody, Process, BodyScan;
    var h := ToBody(s).0;
    HeadThenBody(s);
    HeadHasNoCode(s);
    HeadReceive(s, "");
    if h.phase == Content {
      CallIsJudged(h);
    }
  }

  /**
   * The same for any chunks on a new connection.  The store leaves the buffer
   * exactly if the length reaches in front of it, or some chunk fills it, the
   * body that the parser counts ends with it, and the call before left no byte
   * between the start of the line and the place it counts from.
   */
  lemma {:induction false} OutOfBufferInChunks(chunks: seq<string>)
    requires chunks != [] && |Joined(chunks)| <= READ_BUFFER_SIZE
    ensures var w := ToBody(Receive(Fresh(), Joined(chunks))).0; var v := BodyVerdict(w, 0, chunks);
      Feed(Fresh(), chunks).1 == OutOfBuffer <==>
      && w.phase == Content && v.Decided?
      && (v.line + w.contentLength < 0 ||
          v.line == v.counted == v.read - w.contentLength == READ_BUFFER_SIZE - w.contentLength)
  {
    hide ToBody, Process, Receive, Feed, BodyVerdict, SameOutcome;
    var all := Receive(Fresh(), Joined(chunks));
    var w := ToBody(all).0;
    if w.phase == Content {
      CutsInsideBody(chunks);
      VerdictIs(w, 0, chunks);
      DecidedBy(w.buf, w.contentLength, w.checkedIdx, w.checkedIdx, 0, chunks);
    } else {
      NoBodyNoStore(chunks);
    }
  }

  lemma {:induction false} NoBodyNoStore(chunks: seq<string>)
    requires chunks != [] && |Joined(chunks)| <= READ_BUFFER_SIZE
    requires ToBody(Receive(Fresh(), Joined(chunks))).0.phase != Content
    ensures Feed(Fresh(), chunks).1 !in {OutOfBuffer, SumOverflows}
  {
    hide ToBody, Process, Receive, Feed;
    var all := Receive(Fresh(), Joined(chunks));
    ChunkingDoesNotMatter(chunks);
    HeadThenBody(all);
    HeadHasNoCode(all);
  }

  /**
   * And when a sum is no int: exactly if the bytes are judged so, which takes
   * a length within the buffer's size of INT_MAX.
   */
  lemma {:induction false} SumOverflowsInChunks(chunks: seq<string>)
    requires chunks != [] && |Joined(chunks)| <= READ_BUFFER_SIZE
    ensures var w := ToBody(Receive(Fresh(), Joined(chunks))).0; var v := BodyVerdict(w, 0, chunks);
      Feed(Fresh(), chunks).1 == SumOverflows <==>
      w.phase == Content && v.Decided? && v.counted + w.contentLength > INT_MAX
    ensures Feed(Fresh(), chunks).1 == SumOverflows ==>
            ToBody(Receive(Fresh(), Joined(chunks))).0.contentLength > INT_MAX - READ_BUFFER_SIZE
  {
    hide ToBody, Process, Receive, Feed, BodyVerdict, SameOutcome;
    var all := Receive(Fresh(), Joined(chunks));
    var w := ToBody(all).0;
    if w.phase == Content {
      CutsInsideBody(chunks);
      VerdictIs(w, 0, chunks);
      DecidedBy(w.buf, w.contentLength, w.checkedIdx, w.checkedIdx, 0, chunks);
    } else {
      NoBodyNoStore(chunks);
    }
  }
}
