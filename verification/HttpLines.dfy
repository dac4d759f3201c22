// The line handlers read a line as a text: what they do is a function of the
// C string the line is, and parse_request_line accepts exactly one shape.

module HttpLines {
  import opened HttpText
  import opened HttpConn

  // ---------- the handlers by text ----------

  /** Where the text behind the first word and its blanks begins. */
  function Next(line: string): (b: nat)
    requires FirstBlank(line) < |line|
    ensures FirstBlank(line) < b <= |line|
  {
    var j := FirstBlank(line);
    j + 1 + BlankSpan(line[j + 1..])
  }

  /** What ParseTarget does, told by the C string alone. */
  function TargetWork(s: Conn, target: nat, rest: string): (Conn, Code)
    requires target + |rest| <= |s.buf|
  {
    var k := FirstBlank(rest);
    if k == |rest| then (s.(version := Null), BadRequest) else
    CheckTarget(s.(buf := s.buf[target + k := NUL], version := At(target + Next(rest))),
                target, rest[..k], rest[Next(rest)..])
  }

  /** What ParseRequestLine does, told by the line alone. */
  function RequestWork(s: Conn, text: nat, line: string): (Conn, Code)
    requires text + |line| <= |s.buf|
  {
    var j := FirstBlank(line);
    if j == |line| then (s.(url := Null), BadRequest) else
    var t := s.(buf := s.buf[text + j := NUL]);
    if !SameNoCase(line[..j], "GET") then (t.(url := At(text + j + 1)), BadRequest) else
    TargetWork(t.(url := At(text + Next(line))), text + Next(line), line[Next(line)..])
  }

  /** The texts in the buffer once the first blank of a line has been overwritten. */
  lemma {:induction false} TextsAfterCut(buf: string, p: nat)
    requires p <= |buf| && FirstBlank(CString(buf, p)) < |CString(buf, p)|
    ensures var line := CString(buf, p); var k := FirstBlank(line); var cut := buf[p + k := NUL];
      && CString(cut, p) == line[..k]
      && CString(cut, p + k + 1) == line[k + 1..]
      && CString(cut, p + Next(line)) == line[Next(line)..]
  {
    hide CString, BlankSpan, FirstBlank;
    var line := CString(buf, p);
    var k := FirstBlank(line);
    CStringSplit(buf, p, k);
    var b := BlankSpan(line[k + 1..]);
    CStringSuffix(buf[p + k := NUL], p + k + 1, p + k + 1 + b);
    Slices(line, k + 1, b);
  }

  lemma {:induction false} TargetIs(s: Conn, target: nat)
    requires target <= |s.buf|
    ensures ParseTarget(s, target) == TargetWork(s, target, CString(s.buf, target))
  {
    hide CheckTarget, FirstBlank, BlankSpan, CString;
    if FirstBlank(CString(s.buf, target)) < |CString(s.buf, target)| {
      TextsAfterCut(s.buf, target);
    }
  }

  lemma {:induction false} RequestIs(s: Conn, text: nat)
    requires text <= |s.buf|
    ensures ParseRequestLine(s, text) == RequestWork(s, text, CString(s.buf, text))
  {
    hide SameNoCase, FirstBlank, BlankSpan, CString, TargetWork, ParseTarget;
    var line := CString(s.buf, text);
    if FirstBlank(line) < |line| {
      TextsAfterCut(s.buf, text);
      TargetIs(s.(buf := s.buf[text + FirstBlank(line) := NUL], url := At(text + Next(line))), text + Next(line));
    }
  }

  // ---------- the shape of a request line ----------

  predicate Blanks(s: string) {
    s != "" && forall i | 0 <= i < |s| :: IsBlank(s[i])
  }

  predicate Word(s: string) {
    s != "" && forall i | 0 <= i < |s| :: !IsBlank(s[i])
  }

  /** What the url points at: the target, or an absolute target from the first slash behind the scheme on. */
  function PathOf(target: string): string {
    if StartsNoCase(target, "HTTP://") then target[7 + FirstSlash(target[7..])..] else target
  }

  /** An absolute target with a slash behind the scheme, or a target that starts with a slash. */
  predicate GoodTarget(target: string) {
    Word(target) && PathOf(target) != "" && PathOf(target)[0] == '/'
  }

  /** GET, blanks, a good target, blanks, HTTP/1.1, with any case of letters. */
  ghost predicate RequestShape(line: string, target: string, version: string) {
    exists name, b1, b2 ::
      && line == name + b1 + target + b2 + version
      && SameNoCase(name, "GET") && Blanks(b1) && GoodTarget(target)
      && Blanks(b2) && SameNoCase(version, "HTTP/1.1")
  }

  // ---------- accepted lines ----------

  lemma {:induction false} TargetAccepts(s: Conn, target: nat, url: string, version: string)
    ensures CheckTarget(s, target, url, version).1 == NoRequest <==>
            SameNoCase(version, "HTTP/1.1") && PathOf(url) != "" && PathOf(url)[0] == '/'
  {
    hide SameNoCase;
  }

  /** What an accepted target sets. */
  lemma {:induction false} TargetSets(s: Conn, target: nat, url: string, version: string)
    requires CheckTarget(s, target, url, version).1 == NoRequest
    ensures CheckTarget(s, target, url, version).0 == s.(phase := Headers,
      url := if StartsNoCase(url, "HTTP://") then At(target + 7 + FirstSlash(url[7..])) else s.url)
    ensures StartsNoCase(url, "HTTP://") ==> FirstSlash(url[7..]) < |url| - 7
  {
    hide SameNoCase, FirstSlash;
  }

  /** A line is accepted if it is GET, an accepted target and a version, each behind blanks. */
  lemma {:induction false} RequestAccepts(s: Conn, text: nat, line: string)
    requires text + |line| <= |s.buf|
    ensures RequestWork(s, text, line).1 == NoRequest <==>
      && FirstBlank(line) < |line| && SameNoCase(line[..FirstBlank(line)], "GET")
      && var rest := line[Next(line)..];
         && FirstBlank(rest) < |rest|
         && SameNoCase(rest[Next(rest)..], "HTTP/1.1")
         && PathOf(rest[..FirstBlank(rest)]) != "" && PathOf(rest[..FirstBlank(rest)])[0] == '/'
  {
    hide SameNoCase, FirstBlank, Next, PathOf, CheckTarget;
    var j := FirstBlank(line);
    if j < |line| {
      var rest := line[Next(line)..];
      var k := FirstBlank(rest);
      if k < |rest| {
        var target := text + Next(line);
        var t := s.(buf := s.buf[text + j := NUL], url := At(target));
        TargetAccepts(t.(buf := t.buf[target + k := NUL], version := At(target + Next(rest))),
                      target, rest[..k], rest[Next(rest)..]);
      }
    }
  }

  // ---------- from accepted lines to the shape ----------

  /** Behind the word a line starts with come blanks only, up to the next text. */
  lemma {:induction false} BlanksBehind(line: string)
    requires FirstBlank(line) < |line|
    ensures Blanks(line[FirstBlank(line)..Next(line)])
  {
    hide FirstBlank, BlankSpan;
    var j := FirstBlank(line);
    forall i | 0 <= i < Next(line) - j ensures IsBlank(line[j..Next(line)][i]) {
      assert i > 0 ==> line[j + i] == line[j + 1..][i - 1];
    }
  }

  /** The text behind the blanks does not start with one. */
  lemma {:induction false} WordAtNext(line: string)
    requires FirstBlank(line) < |line|
    ensures var rest := line[Next(line)..]; rest != "" ==> !IsBlank(rest[0])
  {
    hide FirstBlank, BlankSpan, IsBlank;
    var j := FirstBlank(line);
    var tail := line[j + 1..];
    assert line[Next(line)..] == tail[BlankSpan(tail)..];
  }

  lemma ThreeParts(s: string, i: nat, j: nat)
    requires i <= j <= |s|
    ensures s == s[..i] + s[i..j] + s[j..]
  {
  }

  lemma Flatten(a: string, b: string, c: string, d: string, e: string)
    ensures a + b + (c + d + e) == a + b + c + d + e == a + (b + (c + (d + e)))
  {
  }

  lemma {:induction false} ShapeByPositions(line: string, j: nat, b: nat, k: nat, v: nat)
    requires j <= b <= |line| && k <= v <= |line| - b
    requires SameNoCase(line[..j], "GET") && Blanks(line[j..b])
    requires GoodTarget(line[b..][..k]) && Blanks(line[b..][k..v]) && SameNoCase(line[b..][v..], "HTTP/1.1")
    ensures RequestShape(line, line[b..][..k], line[b..][v..])
  {
    hide SameNoCase, Blanks, GoodTarget;
    var m, b1, rest := line[..j], line[j..b], line[b..];
    ThreeParts(rest, k, v);
    ThreeParts(line, j, b);
    Flatten(m, b1, rest[..k], rest[k..v], rest[v..]);
  }

  /** Every accepted line has the shape. */
  lemma {:induction false} AcceptedHasShape(s: Conn, text: nat, line: string)
    requires text + |line| <= |s.buf| && RequestWork(s, text, line).1 == NoRequest
    ensures exists target, version :: RequestShape(line, target, version)
  {
    hide SameNoCase, FirstBlank, Next, PathOf, Blanks, RequestShape, RequestWork;
    RequestAccepts(s, text, line);
    var rest := line[Next(line)..];
    BlanksBehind(line);
    BlanksBehind(rest);
    WordAtNext(line);
    assert Word(rest[..FirstBlank(rest)]);
    ShapeByPositions(line, FirstBlank(line), Next(line), FirstBlank(rest), Next(rest));
  }

  // ---------- from the shape to what is recovered ----------

  lemma {:induction false} NoCaseHasNoBlank(s: string, t: string)
    requires SameNoCase(s, t) && forall i | 0 <= i < |t| :: t[i] > ' '
    ensures forall i | 0 <= i < |s| :: !IsBlank(s[i])
  {
    forall i | 0 <= i < |s| ensures !IsBlank(s[i]) {
      assert Lower(s[i]) == Lower(t[i]);
    }
  }

  /** A word, blanks and a text that starts with something else come apart again. */
  lemma {:induction false} WordBlanksText(word: string, blanks: string, s: string)
    requires forall i | 0 <= i < |word| :: !IsBlank(word[i])
    requires Blanks(blanks) && (s != "" ==> !IsBlank(s[0]))
    ensures var line := word + (blanks + s);
      && FirstBlank(line) == |word| < |line| && line[..|word|] == word
      && line[Next(line)..] == s
  {
    hide FirstBlank, BlankSpan, IsBlank;
    var line := word + (blanks + s);
    WordThenBlank(word, blanks + s);
    assert line[|word| + 1..] == blanks[1..] + s;
    BlanksThenText(blanks[1..], s);
  }

  /** The pieces of a line of the shape are where the parser looks for them. */
  lemma {:induction false} ShapePieces(line: string, target: string, version: string)
    requires RequestShape(line, target, version)
    ensures GoodTarget(target) && SameNoCase(version, "HTTP/1.1")
    ensures FirstBlank(line) < |line| && SameNoCase(line[..FirstBlank(line)], "GET")
    ensures var rest := line[Next(line)..];
      FirstBlank(rest) < |rest| && rest[..FirstBlank(rest)] == target && rest[Next(rest)..] == version
  {
    hide FirstBlank, Next, PathOf;
    var name, b1, b2 :|
      && line == name + b1 + target + b2 + version
      && SameNoCase(name, "GET") && Blanks(b1) && GoodTarget(target)
      && Blanks(b2) && SameNoCase(version, "HTTP/1.1");
    NoCaseHasNoBlank(name, "GET");
    NoCaseHasNoBlank(version, "HTTP/1.1");
    Flatten(name, b1, target, b2, version);
    WordBlanksText(name, b1, target + (b2 + version));
    WordBlanksText(target, b2, version);
  }

  lemma {:induction false} ShapeIsAccepted(s: Conn, text: nat, line: string, target: string, version: string)
    requires text + |line| <= |s.buf| && RequestShape(line, target, version)
    ensures RequestWork(s, text, line).1 == NoRequest
  {
    hide SameNoCase, FirstBlank, Next, Word, PathOf, RequestShape, RequestWork;
    ShapePieces(line, target, version);
    RequestAccepts(s, text, line);
  }

  /** parse_request_line accepts exactly the lines of the shape. */
  lemma {:induction false} RequestLineAcceptsShape(s: Conn, text: nat)
    requires text <= |s.buf|
    ensures ParseRequestLine(s, text).1 == NoRequest <==>
            exists target, version :: RequestShape(CString(s.buf, text), target, version)
  {
    hide CString, RequestWork, ParseRequestLine, RequestShape;
    var line := CString(s.buf, text);
    RequestIs(s, text);
    if RequestWork(s, text, line).1 == NoRequest {
      AcceptedHasShape(s, text, line);
    }
    if target, version :| RequestShape(line, target, version) {
      ShapeIsAccepted(s, text, line, target, version);
    }
  }

  /** The path inside a target that stands in the buffer as a string of its own. */
  lemma {:induction false} PathIs(buf: string, target: nat, url: string)
    requires target <= |buf| && CString(buf, target) == url
    requires StartsNoCase(url, "HTTP://") ==> FirstSlash(url[7..]) < |url| - 7
    ensures CString(buf, if StartsNoCase(url, "HTTP://") then target + 7 + FirstSlash(url[7..]) else target)
            == PathOf(url)
  {
    hide CString, StartsNoCase, FirstSlash;
    if StartsNoCase(url, "HTTP://") {
      CStringSuffix(buf, target, target + 7 + FirstSlash(url[7..]));
    }
  }

  /** The pointer leads to the given text. */
  predicate PointsTo(buf: string, p: Pointer, text: string) {
    p != Null && p.index <= |buf| && CString(buf, p.index) == text
  }

  /** The recovered version and path of an accepted target. */
  lemma {:induction false} TargetRecovers(s: Conn, target: nat)
    requires target <= |s.buf| && s.url == At(target) && ParseTarget(s, target).1 == NoRequest
    ensures var t, rest := ParseTarget(s, target).0, CString(s.buf, target);
      && FirstBlank(rest) < |rest|
      && t == s.(buf := t.buf, url := t.url, version := t.version, phase := Headers)
      && PointsTo(t.buf, t.url, PathOf(rest[..FirstBlank(rest)]))
      && PointsTo(t.buf, t.version, rest[Next(rest)..])
  {
    hide FirstBlank, Next, CString, CheckTarget, ParseTarget, StartsNoCase, FirstSlash, PathOf;
    var rest := CString(s.buf, target);
    var k := FirstBlank(rest);
    TargetIs(s, target);
    TextsAfterCut(s.buf, target);
    var cut := s.(buf := s.buf[target + k := NUL], version := At(target + Next(rest)));
    TargetSets(cut, target, rest[..k], rest[Next(rest)..]);
    PathIs(cut.buf, target, rest[..k]);
  }

  /** An accepted line is one whose target is parsed, behind the blanks that follow the method. */
  lemma {:induction false} RequestReduces(s: Conn, text: nat)
    requires text <= |s.buf| && ParseRequestLine(s, text).1 == NoRequest
    ensures var line := CString(s.buf, text);
      FirstBlank(line) < |line| &&
      var u := s.(buf := s.buf[text + FirstBlank(line) := NUL], url := At(text + Next(line)));
      && ParseRequestLine(s, text) == ParseTarget(u, text + Next(line))
      && CString(u.buf, text + Next(line)) == line[Next(line)..]
  {
    hide SameNoCase, FirstBlank, BlankSpan, CString, ParseTarget;
    TextsAfterCut(s.buf, text);
  }

  /** For a line of the shape, the url points at the path and the version at the version. */
  lemma {:induction false} RequestLineRecovers(s: Conn, text: nat, target: string, version: string)
    requires text <= |s.buf| && RequestShape(CString(s.buf, text), target, version)
    ensures var (t, code) := ParseRequestLine(s, text);
      && code == NoRequest
      && t == s.(buf := t.buf, url := t.url, version := t.version, phase := Headers)
      && PointsTo(t.buf, t.url, PathOf(target))
      && PointsTo(t.buf, t.version, version)
  {
    hide FirstBlank, Next, CString, RequestWork, ParseTarget, PathOf, RequestShape, ParseRequestLine;
    hide SameNoCase, GoodTarget, PointsTo;
    var line := CString(s.buf, text);
    ShapePieces(line, target, version);
    ShapeIsAccepted(s, text, line, target, version);
    RequestIs(s, text);
    RequestReduces(s, text);
    TargetRecovers(s.(buf := s.buf[text + FirstBlank(line) := NUL], url := At(text + Next(line))), text + Next(line));
  }
}
