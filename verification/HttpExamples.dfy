// Requests spelled out: what is read of an unusual but good one, and inputs on
// which the code does what its author did not mean.

module HttpExamples {
  import opened HttpText
  import opened HttpConn
  import opened HttpLines
  import opened HttpChunks
  import opened HttpBody
  import opened HttpCuts
  import opened HttpRoundTrip

  lemma {:induction false} PlainRequestLine()
    ensures RequestShape("GET / HTTP/1.1", "/", "HTTP/1.1") && Plain("/") && PathOf("/") == "/"
  {
    assert !StartsNoCase("/", "HTTP://");
    assert Blanks(" ") && GoodTarget("/");
    assert "GET / HTTP/1.1" == "GET" + " " + "/" + " " + "HTTP/1.1";
  }

  lemma {:induction false} Tens()
    ensures TenTo(3) == 1000 && TenTo(4) == 10000 && TenTo(9) == 1000000000 && TenTo(10) == 10000000000
  {
    assert TenTo(2) == 100;
    assert TenTo(6) == 1000000;
  }

  lemma {:induction false} DecimalLength(n: nat, k: nat)
    requires k > 0 && TenTo(k - 1) <= n < TenTo(k)
    ensures |Decimal(n)| == k
  {
    if k > 1 {
      DecimalLength(n / 10, k - 1);
    }
  }

  /** A length in the usual form. */
  function Usual(length: int): Field {
    if length < 0 then Length("Content-Length:", "", "", "-", Decimal(-length), "")
    else Length("Content-Length:", "", "", "", Decimal(length), "")
  }

  lemma {:induction false} DecimalIsGood(n: nat)
    ensures AllDigits(Decimal(n)) && PlaceValue(Decimal(n)) == n
    ensures GoodValue(Decimal(n)) && GoodValue("-" + Decimal(n))
  {
    hide PlaceValue, Decimal;
    var d, m := Decimal(n), "-" + Decimal(n);
    DecimalValue(n);
    assert forall i | 0 <= i < |d| :: IsDigit(d[i]);
    assert m[0] == '-' && forall i | 1 <= i < |m| :: m[i] == d[i - 1];
  }

  lemma {:induction false} UsualShape(sign: string, d: string)
    requires AllDigits(d) && d != "" && sign in ["", "-"] && GoodValue(sign + d)
    ensures GoodField(Length("Content-Length:", "", "", sign, d, ""))
  {
    hide GoodValue, AllDigits;
    assert "" + sign + d + "" == sign + d;
  }

  lemma {:induction false} UsualSays(length: int)
    requires -INT_MAX - 1 <= length <= INT_MAX
    ensures GoodField(Usual(length)) && Learn(NothingKnown(), Usual(length)) == Known(false, "", length, false)
  {
    hide PlaceValue, Decimal, GoodValue, AllDigits, NumberShape, GoodField;
    var n := if length < 0 then -length else length;
    DecimalIsGood(n);
    assert "" + Decimal(n) == Decimal(n);
    UsualShape(if length < 0 then "-" else "", Decimal(n));
  }

  /** The request with a plain request line, the given length and no other field. */
  function Plainly(length: int, body: string): string {
    PrintRequest("GET / HTTP/1.1", [Usual(length)], body)
  }

  /** The length of its head. */
  function HeadLength(length: int): nat {
    35 + if length < 0 then 1 + |Decimal(-length)| else |Decimal(length)|
  }

  lemma {:induction false} PlainlyLength(length: int, body: string)
    ensures |Plainly(length, body)| == HeadLength(length) + |body|
  {
    hide Decimal;
    var f := Usual(length);
    assert [f][1..] == [];
    assert PrintAll([f]) == Print(f) + CRLF + "";
  }

  lemma {:induction false} PlainlyPrinted(length: int, body: string)
    requires -INT_MAX - 1 <= length <= INT_MAX && |Plainly(length, body)| <= READ_BUFFER_SIZE
    ensures var (h, code) := ToBody(Receive(Fresh(), Plainly(length, body)));
      && Valid(h) && Clean(h) && h.checkedIdx == HeadLength(length) && h.readIdx == |Plainly(length, body)|
      && Unread(h) == body && h.contentLength == length
      && (length != 0 ==> h.phase == Content)
      && ProcessRead(Receive(Fresh(), Plainly(length, body))).1 == PrintedResult(h, length, |body|)
  {
    hide Process, Receive, ToBody, Recovered, RequestShape, Usual, PrintedResult, PrintRequest, GoodField, Learn;
    hide HeadLength;
    var line, f := "GET / HTTP/1.1", Usual(length);
    var fields := [f];
    PlainRequestLine();
    PlainlyLength(length, body);
    UsualSays(length);
    assert fields[1..] == [];
    assert LearnAll(NothingKnown(), fields) == LearnAll(Learn(NothingKnown(), f), []);
    HeadOfPrinted(line, "/", "HTTP/1.1", fields, body);
    PrintedRequestIsRecovered(line, "/", "HTTP/1.1", fields, body);
    RecoveredLength(ToBody(Receive(Fresh(), Plainly(length, body))).0, "/", "HTTP/1.1",
                    LearnAll(NothingKnown(), fields));
  }

  /**
   * A short request whose length is negative: the parser takes its body for
   * complete, and the place of the NUL is in front of the buffer.
   */
  lemma {:induction false} NegativeLengthLeavesBuffer()
    ensures |Plainly(-1000, "")| < 100 && ProcessRead(Receive(Fresh(), Plainly(-1000, ""))).1 == OutOfBuffer
  {
    hide Process, Receive, ToBody, Plainly, Decimal, TenTo, BodyScan, Unread;
    Tens();
    PlainlyLength(-1000, "");
    DecimalLength(1000, 4);
    PlainlyPrinted(-1000, "");
  }

  /** A short request with the greatest length: where its body ends is no int. */
  lemma {:induction false} HugeLengthExceeds()
    ensures |Plainly(INT_MAX, "")| < 100 && ProcessRead(Receive(Fresh(), Plainly(INT_MAX, ""))).1 == SumOverflows
  {
    hide Process, Receive, ToBody, Plainly, Decimal, TenTo, BodyScan, Unread;
    Tens();
    PlainlyLength(INT_MAX, "");
    DecimalLength(INT_MAX, 10);
    PlainlyPrinted(INT_MAX, "");
  }

  /**
   * A body whose length is positive and that ends before the buffer does.  In
   * one call it is found; cut behind its first two bytes and again behind the
   * third, the NUL is counted from the second byte and falls behind the buffer.
   */
  lemma {:induction false} CutsMoveTheStore(rest: string)
    requires |rest| == 2006
    ensures var chunks := [Plainly(2008, ['a', LF]), "b", rest];
      && |Joined(chunks)| == READ_BUFFER_SIZE
      && ToBody(Receive(Fresh(), Joined(chunks))).0.checkedIdx + 2008 == READ_BUFFER_SIZE - 1
      && ProcessRead(Receive(Fresh(), Joined(chunks))).1 == GetRequest
      && Feed(Fresh(), chunks).1 == OutOfBuffer
  {
    hide Process, Receive, ToBody, Plainly, Feed, BodyVerdict, Joined, Decimal, TenTo, BodyScan;
    Tens();
    var first, chunks := ['a', LF], [Plainly(2008, ['a', LF]), "b", rest];
    var body := first + ("b" + rest);
    PlainlyLength(2008, body);
    PlainlyLength(2008, first);
    DecimalLength(2008, 4);
    PlainlyPrinted(2008, body);
    JoinThree(chunks);
    PlainlyAppend(2008, first, "b" + rest);
    var w := ToBody(Receive(Fresh(), Joined(chunks))).0;
    assert w.buf[39] == Unread(w)[0] && w.buf[40] == Unread(w)[1];
    TwoStops(w, chunks);
    OutOfBufferInChunks(chunks);
  }

  /** How those chunks are judged. */
  lemma {:induction false} TwoStops(w: Conn, chunks: seq<string>)
    requires |w.buf| == READ_BUFFER_SIZE && w.checkedIdx == 39 && w.contentLength == 2008
    requires w.buf[39] == 'a' && w.buf[40] == LF
    requires |chunks| == 3 && |chunks[0]| == 41 && |chunks[1]| == 1 && |chunks[2]| == 2006
    ensures BodyVerdict(w, 0, chunks) == Decided(40, 40, READ_BUFFER_SIZE)
  {
    assert Judge(w.buf, 2008, 39, 39, 41) == Waiting(39, 40);
    assert Judge(w.buf, 2008, 39, 40, 42) == Waiting(40, 40);
    assert JudgeAll(w.buf, 2008, 40, 40, 42, chunks[1..][1..]) == Decided(40, 40, READ_BUFFER_SIZE);
    assert JudgeAll(w.buf, 2008, 39, 40, 41, chunks[1..]) == Decided(40, 40, READ_BUFFER_SIZE);
  }

  lemma {:induction false} JoinThree(chunks: seq<string>)
    requires |chunks| == 3
    ensures Joined(chunks) == chunks[0] + (chunks[1] + chunks[2])
  {
    assert Joined(chunks[1..][1..][1..]) == "";
    assert Joined(chunks[1..][1..]) == chunks[2];
    assert Joined(chunks[1..]) == chunks[1] + chunks[2];
  }

  lemma {:induction false} PlainlyAppend(length: int, first: string, rest: string)
    ensures Plainly(length, first + rest) == Plainly(length, first) + rest
  {
  }

  // ---------- an unusual but good request ----------

  const UNUSUAL_LINE: string := "gEt \thTTp://h/x\t hTTp/1.1"

  function UnusualFields(): seq<Field> {
    [Host("hOST:", " \t", "a"), Length("content-length:", "\t", "", "+", "007", " x"),
     Connection("cONNEXTION:", " ", "Keep-Alive"), Other("Accept: b")]
  }

  function UnusualRequest(): string {
    UNUSUAL_LINE + CRLF +
    ("hOST: \ta" + CRLF + ("content-length:\t+007 x" + CRLF + ("cONNEXTION: Keep-Alive" + CRLF +
     ("Accept: b" + CRLF))) + (CRLF + "1234567"))
  }

  lemma {:induction false} UnusualTarget()
    ensures PathOf("hTTp://h/x") == "/x" && GoodTarget("hTTp://h/x") && Plain("hTTp://h/x")
  {
    hide FirstSlash, SameNoCase;
    var target := "hTTp://h/x";
    assert target[..7] == "hTTp://" && target[7..] == "h/x";
    assert SameNoCase("hTTp://", "HTTP://") by { UnusualCases(); }
    var m := FirstSlash("h/x");
    assert "h/x"[0] == 'h' && "h/x"[1] == '/';
    assert m == 1;
    assert "h/x"[1..] == "/x" && target[8..] == "/x";
  }

  lemma {:induction false} UnusualCases()
    ensures SameNoCase("hTTp://", "HTTP://") && SameNoCase("gEt", "GET") && SameNoCase("hTTp/1.1", "HTTP/1.1")
    ensures SameNoCase("hOST:", "Host:") && SameNoCase("content-length:", "Content-Length:")
    ensures SameNoCase("cONNEXTION:", "Connextion:")
  {
  }

  lemma {:induction false} UnusualLine()
    ensures RequestShape(UNUSUAL_LINE, "hTTp://h/x", "hTTp/1.1") && Plain("hTTp://h/x")
    ensures PathOf("hTTp://h/x") == "/x"
  {
    hide SameNoCase, GoodTarget, PathOf, Plain;
    UnusualTarget();
    UnusualCases();
    assert Blanks(" \t") && Blanks("\t ");
    assert UNUSUAL_LINE == "gEt" + " \t" + "hTTp://h/x" + "\t " + "hTTp/1.1";
  }

  lemma {:induction false} UnusualLength()
    ensures GoodField(Length("content-length:", "\t", "", "+", "007", " x"))
  {
    hide SameNoCase;
    UnusualCases();
    assert "" + "+" + "007" + " x" == "+007 x";
    assert AllDigits("007") && AllWhite("") && NoDigitFirst(" x");
  }

  lemma {:induction false} UnusualOther()
    ensures GoodField(Other("Accept: b"))
  {
    hide SameNoCase, StartsNoCase;
    var other := "Accept: b";
    assert !StartsNoCase(other, "Connextion:") by { OtherLetter(other, "Connextion:"); }
    assert !StartsNoCase(other, "Content-Length:") by { OtherLetter(other, "Content-Length:"); }
    assert !StartsNoCase(other, "Host:") by { OtherLetter(other, "Host:"); }
  }

  lemma {:induction false} OtherLetter(s: string, prefix: string)
    requires s != "" && prefix != "" && Lower(s[0]) != Lower(prefix[0])
    ensures !StartsNoCase(s, prefix)
  {
    assert |prefix| <= |s| ==> s[..|prefix|][0] == s[0];
  }

  lemma {:induction false} UnusualGood()
    ensures forall f | f in UnusualFields() :: GoodField(f)
  {
    hide SameNoCase, StartsNoCase, NumberShape;
    UnusualCases();
    UnusualLength();
    UnusualOther();
  }

  lemma {:induction false} UnusualKnown()
    requires forall f | f in UnusualFields() :: GoodField(f)
    ensures LearnAll(NothingKnown(), UnusualFields()) == Known(true, "a", 7, true)
  {
    hide GoodField;
    var fs := UnusualFields();
    assert PlaceValue("007") == 7 by {
      assert "007"[1..] == "07" && "07"[1..] == "7" && "7"[1..] == "";
      assert PlaceValue("7") == 7 && PlaceValue("07") == 7;
    }
    assert SameNoCase("Keep-Alive", "keep-alive");
    assert LearnAll(NothingKnown(), fs) == LearnAll(Learn(NothingKnown(), fs[0]), fs[1..]);
    assert fs[1..][1..][1..][1..] == [];
  }

  /**
   * Letters in any case, blanks of both kinds, an absolute target, a number with
   * a sign, zeros in front and something behind, and an unknown header.
   */
  lemma {:induction false} UnusualIsRead()
    ensures |UnusualRequest()| <= READ_BUFFER_SIZE
    ensures var (t, code) := ProcessRead(Receive(Fresh(), UnusualRequest()));
      && code == GetRequest && t.contentLength == 7 && t.linger
      && PointsTo(t.buf, t.url, "/x") && PointsTo(t.buf, t.version, "hTTp/1.1") && PointsTo(t.buf, t.host, "a")
  {
    hide Process, Receive, ToBody, RequestShape, GoodField, LearnAll, PathOf, PointsTo;
    var fs, body := UnusualFields(), "1234567";
    UnusualLine();
    UnusualGood();
    UnusualKnown();
    UnusualBytes();
    PrintedRequestIsRecovered(UNUSUAL_LINE, "hTTp://h/x", "hTTp/1.1", fs, body);
  }

  lemma {:induction false} UnusualBytes()
    ensures PrintRequest(UNUSUAL_LINE, UnusualFields(), "1234567") == UnusualRequest()
  {
    var fs := UnusualFields();
    assert Print(fs[0]) == "hOST: \ta" && Print(fs[2]) == "cONNEXTION: Keep-Alive";
    assert Print(fs[1]) == "content-length:\t+007 x" by {
      assert "" + "+" + "007" + " x" == "+007 x";
    }
    FourFields(fs);
  }

  lemma {:induction false} FourFields(fs: seq<Field>)
    requires |fs| == 4
    ensures PrintAll(fs) == Print(fs[0]) + CRLF + (Print(fs[1]) + CRLF + (Print(fs[2]) + CRLF + (Print(fs[3]) + CRLF)))
  {
    hide Print;
    assert PrintAll(fs[1..][1..][1..][1..]) == "";
    assert PrintAll(fs[1..][1..][1..]) == Print(fs[3]) + CRLF;
    assert PrintAll(fs[1..][1..]) == Print(fs[2]) + CRLF + (Print(fs[3]) + CRLF);
    assert PrintAll(fs[1..]) == Print(fs[1]) + CRLF + (Print(fs[2]) + CRLF + (Print(fs[3]) + CRLF));
  }
}
