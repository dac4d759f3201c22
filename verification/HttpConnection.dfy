// The connection object: the buffer is overwritten in place, the indices and
// fields move.  Every method does to the fields what its function in HttpConn
// does to the value.

module HttpConnection {
  import opened HttpText
  import C = HttpConn
  import HttpChunks

  /** What recv comes to: some bytes, or none if the peer has closed; nothing there yet; or another error. */
  datatype Arrival = Bytes(data: string) | WouldBlock | Failed

  predicate HasData(a: Arrival) { a.Bytes? && a.data != "" }

  /** Some call brings no bytes, which ends the reading. */
  predicate Ends(arrivals: seq<Arrival>) {
    arrivals != [] && (HasData(arrivals[0]) ==> Ends(arrivals[1..]))
  }

  /** The bytes that arrive up to there. */
  function Taken(arrivals: seq<Arrival>): string {
    if arrivals == [] || !HasData(arrivals[0]) then "" else arrivals[0].data + Taken(arrivals[1..])
  }

  /** The reading ends because nothing more is there yet. */
  predicate EndsWaiting(arrivals: seq<Arrival>) {
    arrivals != [] && (arrivals[0] == WouldBlock || (HasData(arrivals[0]) && EndsWaiting(arrivals[1..])))
  }

  lemma {:induction false} NextArrival(arrivals: seq<Arrival>, i: nat)
    requires i <= |arrivals| && Ends(arrivals[i..])
    ensures i < |arrivals|
    ensures if HasData(arrivals[i]) then
              && Ends(arrivals[i + 1..])
              && Taken(arrivals[i..]) == arrivals[i].data + Taken(arrivals[i + 1..])
              && EndsWaiting(arrivals[i..]) == EndsWaiting(arrivals[i + 1..])
            else
              Taken(arrivals[i..]) == "" && (EndsWaiting(arrivals[i..]) <==> arrivals[i] == WouldBlock)
  {
    assert arrivals[i..][1..] == arrivals[i + 1..];
  }

  class Connection {
    const readBuf: array<char>
    var readIdx: nat
    var checkedIdx: nat
    var startLine: nat
    var phase: C.Phase
    var url: C.Pointer
    var version: C.Pointer
    var host: C.Pointer
    var contentLength: int
    var linger: bool

    ghost function Value(): C.Conn
      reads this, readBuf
    {
      C.Conn(readBuf[..], readIdx, checkedIdx, startLine, phase, url, version, host, contentLength, linger)
    }

    constructor ()
      ensures Value() == C.Fresh() && fresh(readBuf)
    {
      readBuf := new char[C.READ_BUFFER_SIZE](_ => NUL);
      readIdx, checkedIdx, startLine := 0, 0, 0;
      phase, url, version, host := C.RequestLine, C.Null, C.Null, C.Null;
      contentLength, linger := 0, false;
      new;
      assert readBuf[..] == C.Fresh().buf;
    }

    /** `init`, on a connection that is used again. */
    method Init()
      requires readBuf.Length == C.READ_BUFFER_SIZE
      modifies this, readBuf
      ensures Value() == C.Fresh()
    {
      phase, linger, url, version := C.RequestLine, false, C.Null, C.Null;
      contentLength, host, startLine, checkedIdx, readIdx := 0, C.Null, 0, 0, 0;
      forall i | 0 <= i < readBuf.Length {
        readBuf[i] := NUL;
      }
      assert readBuf[..] == C.Fresh().buf;
    }

    /**
     * `read`: arrivals lists what the calls of recv come to.  It fails on a
     * full buffer, on a closed connection and on an error, after taking what
     * has arrived by then.
     */
    method Read(arrivals: seq<Arrival>) returns (ok: bool)
      requires C.Valid(Value())
      requires readIdx < C.READ_BUFFER_SIZE ==>
                 Ends(arrivals) && readIdx + |Taken(arrivals)| <= C.READ_BUFFER_SIZE
      modifies this`readIdx, readBuf
      ensures C.Valid(Value())
      ensures old(readIdx) == C.READ_BUFFER_SIZE ==> !ok && Value() == old(Value())
      ensures old(readIdx) < C.READ_BUFFER_SIZE ==>
                ok == EndsWaiting(arrivals) && Value() == C.Receive(old(Value()), Taken(arrivals))
    {
      if readIdx >= C.READ_BUFFER_SIZE {
        return false;
      }
      hide Ends, Taken, EndsWaiting, C.Receive;
      var i := 0;
      assert arrivals[0..] == arrivals;
      while true
        invariant i <= |arrivals| && Ends(arrivals[i..]) && EndsWaiting(arrivals[i..]) == EndsWaiting(arrivals)
        invariant C.Valid(Value()) && readIdx + |Taken(arrivals[i..])| <= C.READ_BUFFER_SIZE
        invariant C.Receive(Value(), Taken(arrivals[i..])) == C.Receive(old(Value()), Taken(arrivals))
        decreases |arrivals| - i
      {
        NextArrival(arrivals, i);
        if !HasData(arrivals[i]) {
          HttpChunks.ReceiveNothing(Value());
        }
        if arrivals[i] == WouldBlock {
          break;
        }
        if arrivals[i] == Failed || arrivals[i].data == "" {
          return false;
        }
        HttpChunks.ReceiveTwice(Value(), arrivals[i].data, Taken(arrivals[i + 1..]));
        Append(arrivals[i].data);
        i := i + 1;
      }
      return true;
    }

    /** One recv: the bytes are stored behind those already read. */
    method Append(bytes: string)
      requires C.Valid(Value()) && readIdx + |bytes| <= C.READ_BUFFER_SIZE
      modifies this`readIdx, readBuf
      ensures Value() == C.Receive(old(Value()), bytes) && readIdx == old(readIdx) + |bytes|
    {
      forall i | 0 <= i < |bytes| {
        readBuf[readIdx + i] := bytes[i];
      }
      readIdx := readIdx + |bytes|;
      assert readBuf[..] == C.Receive(old(Value()), bytes).buf;
    }

    method ParseLine() returns (status: C.LineStatus)
      requires C.Valid(Value())
      modifies this`checkedIdx, readBuf
      ensures C.Valid(Value()) && (Value(), status) == C.ParseLine(old(Value()))
    {
      while checkedIdx < readIdx
        invariant C.Valid(Value()) && C.ParseLine(Value()) == C.ParseLine(old(Value()))
        decreases readIdx - checkedIdx
      {
        var temp := readBuf[checkedIdx];
        if temp == CR {
          if checkedIdx + 1 == readIdx {
            return C.LineOpen;
          } else if readBuf[checkedIdx + 1] == LF {
            readBuf[checkedIdx] := NUL;
            checkedIdx := checkedIdx + 1;
            readBuf[checkedIdx] := NUL;
            checkedIdx := checkedIdx + 1;
            return C.LineOk;
          }
          return C.LineBad;
        } else if temp == LF {
          if checkedIdx > 1 && readBuf[checkedIdx - 1] == CR {
            readBuf[checkedIdx - 1] := NUL;
            readBuf[checkedIdx] := NUL;
            checkedIdx := checkedIdx + 1;
            return C.LineOk;
          }
          return C.LineBad;
        }
        checkedIdx := checkedIdx + 1;
      }
      return C.LineOpen;
    }

    method ParseRequestLine(text: nat) returns (code: C.Code)
      requires text <= readBuf.Length
      modifies this`url, this`version, this`phase, readBuf
      ensures (Value(), code) == C.ParseRequestLine(old(Value()), text)
    {
      hide FirstBlank, BlankSpan, TextEnd, CString, SameNoCase, StartsNoCase, FirstSlash, C.ParseTarget;
      var line := CString(readBuf[..], text);
      var j := FirstBlank(line);
      if j == |line| {
        url := C.Null;
        return C.BadRequest;
      }
      readBuf[text + j] := NUL;
      url := C.At(text + j + 1);
      if !SameNoCase(CString(readBuf[..], text), "GET") {
        return C.BadRequest;
      }
      url := C.At(url.index + BlankSpan(CString(readBuf[..], url.index)));
      code := ParseTarget(url.index);
    }

    /** The second half of parse_request_line, from the target on. */
    method ParseTarget(target: nat) returns (code: C.Code)
      requires target <= readBuf.Length
      modifies this`url, this`version, this`phase, readBuf
      ensures (Value(), code) == C.ParseTarget(old(Value()), target)
    {
      hide FirstBlank, BlankSpan, TextEnd, CString, C.CheckTarget;
      var rest := CString(readBuf[..], target);
      var k := FirstBlank(rest);
      if k == |rest| {
        version := C.Null;
        return C.BadRequest;
      }
      readBuf[target + k] := NUL;
      version := C.At(target + k + 1);
      version := C.At(version.index + BlankSpan(CString(readBuf[..], version.index)));
      code := CheckTarget(target, version.index);
    }

    /** The checks at the end of parse_request_line. */
    method CheckTarget(target: nat, last: nat) returns (code: C.Code)
      requires target <= readBuf.Length && last <= readBuf.Length
      modifies this`url, this`phase
      ensures (Value(), code) ==
              C.CheckTarget(old(Value()), target, CString(readBuf[..], target), CString(readBuf[..], last))
    {
      hide TextEnd, CString, SameNoCase, FirstSlash;
      if !SameNoCase(CString(readBuf[..], last), "HTTP/1.1") {
        return C.BadRequest;
      }
      var path := CString(readBuf[..], target);
      if StartsNoCase(path, "HTTP://") {
        var m := FirstSlash(path[7..]);
        url := if m == |path[7..]| then C.Null else C.At(target + 7 + m);
        if url == C.Null {
          return C.BadRequest;
        }
      } else if path == "" || path[0] != '/' {
        return C.BadRequest;
      }
      phase := C.Headers;
      return C.NoRequest;
    }

    method ParseHeaders(text: nat) returns (code: C.Code)
      requires text <= readBuf.Length
      modifies this`phase, this`linger, this`contentLength, this`host
      ensures (Value(), code) == C.ParseHeaders(old(Value()), text)
    {
      hide BlankSpan, CString, SameNoCase, Atol, ToInt;
      var line := CString(readBuf[..], text);
      if line == "" {
        if contentLength != 0 {
          phase := C.Content;
          return C.NoRequest;
        }
        return C.GetRequest;
      } else if StartsNoCase(line, "Connextion:") {
        if SameNoCase(SkipBlanks(line[11..]), "keep-alive") {
          linger := true;
        }
      } else if StartsNoCase(line, "Content-Length:") {
        contentLength := ToInt(Atol(SkipBlanks(line[15..])));
      } else if StartsNoCase(line, "Host:") {
        host := C.At(text + 5 + BlankSpan(line[5..]));
      }
      return C.NoRequest;
    }

    method ParseContent(text: nat) returns (code: C.Code)
      requires C.Valid(Value())
      modifies readBuf
      ensures (Value(), code) == C.ParseContent(old(Value()), text)
    {
      if contentLength + checkedIdx > INT_MAX {
        return C.SumOverflows;
      }
      if readIdx >= contentLength + checkedIdx {
        var end := text + contentLength;
        if 0 <= end < readBuf.Length {
          readBuf[end] := NUL;
          return C.GetRequest;
        }
        return C.OutOfBuffer;
      }
      return C.NoRequest;
    }

    /** The handler of the current phase, on the line that has just been scanned. */
    method HandleLine() returns (code: C.Code)
      requires C.Valid(Value())
      modifies this, readBuf
      ensures C.Valid(Value()) && (Value(), code) == C.HandleLine(old(Value()))
    {
      hide C.ParseRequestLine, C.ParseHeaders, C.ParseContent;
      var text := startLine;
      startLine := checkedIdx;
      match phase {
        case RequestLine => code := ParseRequestLine(text);
        case Headers => code := ParseHeaders(text);
        case Content => code := ParseContent(text);
      }
    }

    /** Runs to the first result, or to the end of what can be parsed, and terminates. */
    method ProcessRead() returns (code: C.Code)
      requires C.Valid(Value())
      modifies this, readBuf
      ensures C.Valid(Value()) && (Value(), code) == C.ProcessRead(old(Value()))
    {
      hide C.HandleLine, C.ParseLine;
      var lineOk := true;
      while true
        invariant C.Valid(Value()) && C.Process(Value(), lineOk) == C.ProcessRead(old(Value()))
        decreases readIdx - checkedIdx, lineOk
      {
        ghost var s := Value();
        var content := phase == C.Content;
        if !(content && lineOk) {
          var status := ParseLine();
          if status != C.LineOk {
            return C.NoRequest;
          }
        }
        code := HandleLine();
        if code != C.NoRequest {
          return code;
        }
        lineOk := !content;
      }
    }
  }
}
