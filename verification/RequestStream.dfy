// What the ordered request connection does to a byte stream, one byte at a time, and the
// laws of that stream: independence of how the bytes are cut into writes, pipelined output,
// and stability of the forwarded bytes under a second pass.
module RequestStream {
  import opened Bytes
  import opened ChunkedTracker
  import opened RequestHeader
  import ChunkedBody

  /** The fields of the connection between two bytes. */
  datatype State = State(header: Bytes, bodyRemaining: nat, chunked: Option<Tracker>)

  const IDLE := State([], 0, None)

  predicate WellFormed(s: State) {
    && Index(s.header, BLANK_LINE) == -1
    && (s.bodyRemaining > 0 ==> s.chunked.None?)
    && (s.bodyRemaining > 0 || s.chunked.Some? ==> s.header == [])
    && (s.chunked.Some? ==> Valid(s.chunked.value))
  }

  predicate AwaitingHeader(s: State) {
    s.bodyRemaining == 0 && s.chunked.None?
  }

  /** The state after a byte run, and the bytes forwarded; or a chunked body that is malformed. */
  datatype Outcome = Forwarded(state: State, out: Bytes) | Refused

  /** What a complete header leaves behind: chunked coding takes precedence over the length. */
  function AfterHeader(r: Rules, header: Bytes): (s: State)
    requires IsHeader(header)
    ensures WellFormed(s)
  {
    var lines := Lines(header)[1..];
    if UsesChunked(r, lines) then IDLE.(chunked := Some(FRESH)) else IDLE.(bodyRemaining := ContentLength(r, lines))
  }

  function Step(r: Rules, s: State, b: Byte): (o: Outcome)
    requires WellFormed(s)
    ensures o.Forwarded? ==> WellFormed(o.state)
  {
    if s.bodyRemaining > 0 then Forwarded(s.(bodyRemaining := s.bodyRemaining - 1), [b])
    else if s.chunked.Some? then
      var t := ChunkedTracker.Step(s.chunked.value, b);
      match t.verdict
      case Running => Forwarded(s.(chunked := Some(t.tracker)), [b])
      case Finished => Forwarded(s.(chunked := None), [b])
      case Malformed => Refused
    else
      var header := s.header + [b];
      IndexExtend(s.header, b, BLANK_LINE);
      if EndsWith(header, BLANK_LINE) then Forwarded(AfterHeader(r, header), Reordered(r, header))
      else Forwarded(s.(header := header), [])
  }

  function Prefix(out: Bytes, o: Outcome): Outcome {
    if o.Forwarded? then Forwarded(o.state, out + o.out) else Refused
  }

  function Run(r: Rules, s: State, p: Bytes): (o: Outcome)
    requires WellFormed(s)
    ensures o.Forwarded? ==> WellFormed(o.state)
    decreases |p|
  {
    if p == [] then Forwarded(s, [])
    else
      var first := Step(r, s, p[0]);
      if first.Forwarded? then Prefix(first.out, Run(r, first.state, p[1..])) else Refused
  }

  /** Running `a` and then `b` is running `a + b`: the output does not depend on where the stream is cut. */
  lemma {:induction false} RunConcat(r: Rules, s: State, a: Bytes, b: Bytes)
    requires WellFormed(s)
    ensures var o := Run(r, s, a);
            Run(r, s, a + b) == if o.Forwarded? then Prefix(o.out, Run(r, o.state, b)) else Refused
    decreases |a|
  {
    hide Step;
    if a == [] {
      assert a + b == b;
    } else {
      assert (a + b)[0] == a[0] && (a + b)[1..] == a[1..] + b;
      var first := Step(r, s, a[0]);
      if first.Forwarded? {
        RunConcat(r, first.state, a[1..], b);
        var o := Run(r, first.state, a[1..]);
        if o.Forwarded? { PrefixPrefix(first.out, o.out, Run(r, o.state, b)); }
      }
    }
  }

  lemma PrefixPrefix(a: Bytes, b: Bytes, o: Outcome)
    ensures Prefix(a, Prefix(b, o)) == Prefix(a + b, o)
  {
    if o.Forwarded? { assert a + (b + o.out) == a + b + o.out; }
  }

  // ----- the three kinds of segment

  lemma {:induction false} RunBody(r: Rules, s: State, p: Bytes)
    requires WellFormed(s) && |p| <= s.bodyRemaining
    ensures Run(r, s, p) == Forwarded(s.(bodyRemaining := s.bodyRemaining - |p|), p)
    decreases |p|
  {
    if p != [] { RunBody(r, s.(bodyRemaining := s.bodyRemaining - 1), p[1..]); }
  }

  /** In a chunked body the run follows the tracker, up to and including the body's last byte. */
  lemma {:induction false} RunChunked(r: Rules, s: State, p: Bytes)
    requires WellFormed(s) && s.chunked.Some?
    requires Scan(s.chunked.value, p).consumed == |p| || Scan(s.chunked.value, p).verdict.Malformed?
    ensures var t := Scan(s.chunked.value, p);
            Run(r, s, p) == match t.verdict
                            case Running => Forwarded(s.(chunked := Some(t.tracker)), p)
                            case Finished => Forwarded(s.(chunked := None), p)
                            case Malformed => Refused
    decreases |p|
  {
    hide ChunkedTracker.Step;
    if p != [] {
      var t := ChunkedTracker.Step(s.chunked.value, p[0]);
      if t.verdict.Running? {
        RunChunked(r, s.(chunked := Some(t.tracker)), p[1..]);
      } else if t.verdict.Finished? {
        assert p == [p[0]] && p[1..] == [];
      }
    }
  }

  /** Header bytes are held back while no blank line has been seen. */
  lemma {:induction false} RunHeaderPart(r: Rules, s: State, p: Bytes)
    requires WellFormed(s) && AwaitingHeader(s) && Index(s.header + p, BLANK_LINE) == -1
    ensures Run(r, s, p) == Forwarded(s.(header := s.header + p), [])
    decreases |p|
  {
    if p == [] {
      assert s.header + p == s.header;
    } else {
      var header := s.header + [p[0]];
      assert header + p[1..] == s.header + p;
      NoneInPrefix(header, p[1..], BLANK_LINE);
      IndexExtend(s.header, p[0], BLANK_LINE);
      RunHeaderPart(r, s.(header := header), p[1..]);
    }
  }

  /** The bytes that complete a header release it reordered. */
  lemma RunHeaderEnd(r: Rules, s: State, p: Bytes)
    requires WellFormed(s) && AwaitingHeader(s) && p != [] && IsHeader(s.header + p)
    ensures Run(r, s, p) == Forwarded(AfterHeader(r, s.header + p), Reordered(r, s.header + p))
  {
    var init, last := p[..|p| - 1], p[|p| - 1];
    assert init + [last] == p;
    RunLastHeaderByte(r, s, init, last);
  }

  lemma RunLastHeaderByte(r: Rules, s: State, init: Bytes, last: Byte)
    requires WellFormed(s) && AwaitingHeader(s) && IsHeader(s.header + (init + [last]))
    ensures var header := s.header + (init + [last]);
            Run(r, s, init + [last]) == Forwarded(AfterHeader(r, header), Reordered(r, header))
  {
    assert s.header + init + [last] == s.header + (init + [last]);
    NotYetHeader(s.header + init, last);
    RunHeaderPart(r, s, init);
    RunConcat(r, s, init, [last]);
    RunOne(r, s.(header := s.header + init), last);
    PrefixEmpty(Step(r, s.(header := s.header + init), last));
  }

  lemma PrefixEmpty(o: Outcome)
    ensures Prefix([], o) == o
  {
    if o.Forwarded? { assert [] + o.out == o.out; }
  }

  /** A header without its last byte has no blank line yet. */
  lemma NotYetHeader(init: Bytes, last: Byte)
    requires IsHeader(init + [last])
    ensures Index(init, BLANK_LINE) == -1 && EndsWith(init + [last], BLANK_LINE)
  {
    hide At, Index;
    AtInside(init, BLANK_LINE);
    forall j | At(init, BLANK_LINE, j) ensures At(init + [last], BLANK_LINE, j) {
      AtAppend(init, [last], BLANK_LINE, j);
    }
  }

  lemma RunOne(r: Rules, s: State, b: Byte)
    requires WellFormed(s)
    ensures Run(r, s, [b]) == Step(r, s, b)
  {
    var o := Step(r, s, b);
    if o.Forwarded? { assert o.out + [] == o.out; }
  }

  // ----- pipelined requests

  /** A request as it is framed on the wire: a header and exactly the body its header announces. */
  ghost predicate IsRequest(r: Rules, header: Bytes, body: Bytes) {
    && IsHeader(header)
    && var lines := Lines(header)[1..];
       if UsesChunked(r, lines) then ChunkedBody.IsBody(body)
       else |body| == ContentLength(r, lines)
  }

  datatype Request = Request(header: Bytes, body: Bytes)

  function Received(requests: seq<Request>): Bytes {
    if requests == [] then [] else requests[0].header + requests[0].body + Received(requests[1..])
  }

  function Sent(r: Rules, requests: seq<Request>): Bytes
    requires forall i :: 0 <= i < |requests| ==> IsHeader(requests[i].header)
  {
    if requests == [] then [] else
      assert IsHeader(requests[0].header);
      Reordered(r, requests[0].header) + requests[0].body + Sent(r, requests[1..])
  }

  lemma RunRequest(r: Rules, q: Request)
    requires IsRequest(r, q.header, q.body)
    ensures Run(r, IDLE, q.header + q.body) == Forwarded(IDLE, Reordered(r, q.header) + q.body)
  {
    assert IDLE.header + q.header == q.header;
    RunHeaderEnd(r, IDLE, q.header);
    RunConcat(r, IDLE, q.header, q.body);
    var s := AfterHeader(r, q.header);
    if s.chunked.Some? {
      ChunkedBody.TrackerRecognizesBodies(q.body);
      RunChunked(r, s, q.body);
    } else {
      RunBody(r, s, q.body);
    }
  }

  // The same in terms of what the header lines say, without the functions that read them.

  predicate HeaderOf(header: Bytes, requestLine: Bytes, fields: seq<Bytes>) {
    NoLineEnds([requestLine] + fields) && header == HeaderBytes([requestLine] + fields) && IsHeader(header)
  }

  lemma FieldsOfHeader(header: Bytes, requestLine: Bytes, fields: seq<Bytes>)
    requires HeaderOf(header, requestLine, fields)
    ensures |header| >= 4 && Lines(header)[1..] == fields
  {
    hide HeaderBytes, Index, At;
    LinesOfHeader([requestLine] + fields);
    assert ([requestLine] + fields)[1..] == fields;
  }

  predicate NoFieldNamed(r: Rules, fields: seq<Bytes>, name: Bytes) {
    forall line :: line in fields ==> !Named(r, line, name)
  }

  /** A header whose first Content-Length line says the length of the body, and no Transfer-Encoding line, is
      followed by exactly that body. */
  lemma FramedByLength(r: Rules, header: Bytes, requestLine: Bytes, fields: seq<Bytes>, i: nat, body: Bytes)
    requires HeaderOf(header, requestLine, fields) && NoFieldNamed(r, fields, Ascii("Transfer-Encoding"))
    requires FirstNamed(r, fields, Ascii("Content-Length"), i) && SaysLength(fields[i], |body|) && |body| <= MAX_INT64
    ensures Run(r, IDLE, header + body) == Forwarded(IDLE, Reordered(r, header) + body)
  {
    hide HeaderOf, Named, SaysLength, SaysChunked, Lines, IsHeader, UsesChunked, ContentLength, Reordered, Run;
    FieldsOfHeader(header, requestLine, fields);
    LengthAnnounced(r, fields);
    ChunkedAnnounced(r, fields);
    assert IsHeader(header) by { HeaderIsHeader(header, requestLine, fields); }
    RunRequest(r, Request(header, body));
  }

  lemma HeaderIsHeader(header: Bytes, requestLine: Bytes, fields: seq<Bytes>)
    requires HeaderOf(header, requestLine, fields)
    ensures IsHeader(header)
  {
  }

  /** Without either line nothing follows. */
  lemma FramedByNothing(r: Rules, header: Bytes, requestLine: Bytes, fields: seq<Bytes>)
    requires HeaderOf(header, requestLine, fields) && NoFieldNamed(r, fields, Ascii("Transfer-Encoding"))
    requires NoFieldNamed(r, fields, Ascii("Content-Length"))
    ensures Run(r, IDLE, header) == Forwarded(IDLE, Reordered(r, header))
  {
    hide HeaderOf, Named, SaysChunked, Lines, IsHeader, UsesChunked, ContentLength, Reordered, Run, IsLengthOf;
    FieldsOfHeader(header, requestLine, fields);
    LengthAnnounced(r, fields);
    ChunkedAnnounced(r, fields);
    assert IsHeader(header) by { HeaderIsHeader(header, requestLine, fields); }
    RunRequest(r, Request(header, []));
    assert header + [] == header && Reordered(r, header) + [] == Reordered(r, header);
  }

  /** A header with a Transfer-Encoding line that says chunked is followed by a chunked body, whatever length
      it announces besides. */
  lemma FramedByChunks(r: Rules, header: Bytes, requestLine: Bytes, fields: seq<Bytes>, line: Bytes, body: Bytes)
    requires HeaderOf(header, requestLine, fields) && ChunkedBody.IsBody(body)
    requires line in fields && Named(r, line, Ascii("Transfer-Encoding")) && SaysChunked(r, line)
    ensures Run(r, IDLE, header + body) == Forwarded(IDLE, Reordered(r, header) + body)
  {
    hide HeaderOf, Named, SaysChunked, Lines, IsHeader, UsesChunked, Reordered, Run, ChunkedBody.IsBody;
    FieldsOfHeader(header, requestLine, fields);
    ChunkedAnnounced(r, fields);
    assert IsHeader(header) by { HeaderIsHeader(header, requestLine, fields); }
    RunRequest(r, Request(header, body));
  }

  /** Back-to-back requests leave as reordered header, identical body, one after the other. */
  lemma {:induction false} Pipelined(r: Rules, requests: seq<Request>)
    requires forall i :: 0 <= i < |requests| ==> IsRequest(r, requests[i].header, requests[i].body)
    ensures forall i :: 0 <= i < |requests| ==> IsHeader(requests[i].header)
    ensures Run(r, IDLE, Received(requests)) == Forwarded(IDLE, Sent(r, requests))
  {
    forall i | 0 <= i < |requests| ensures IsHeader(requests[i].header) {
      assert IsRequest(r, requests[i].header, requests[i].body);
    }
    if requests != [] {
      var q, rest := requests[0], requests[1..];
      RunRequest(r, q);
      Pipelined(r, rest);
      RunConcat(r, IDLE, q.header + q.body, Received(rest));
    }
  }

  /** Reordering keeps a request a request with the same body: the next hop frames it the same way. */
  lemma SameBoundaries(r: Rules, q: Request)
    requires IsRequest(r, q.header, q.body)
    ensures IsRequest(r, Reordered(r, q.header), q.body) &&
            AfterHeader(r, Reordered(r, q.header)) == AfterHeader(r, q.header)
  {
    ReorderedHeader(r, q.header);
  }

  // ----- a second pass

  /** Forwarding the forwarded bytes again forwards the same bytes and stands at the same point of the
      same message; only a header still being collected is not there, because it was not forwarded. */
  lemma {:induction false} SecondPass(r: Rules, s: State, p: Bytes)
    requires WellFormed(s) && Run(r, s, p).Forwarded?
    ensures var o := Run(r, s, p);
            Run(r, s.(header := []), o.out) == Forwarded(o.state.(header := []), o.out)
    decreases |p|
  {
    hide Step;
    if p != [] {
      var first := Step(r, s, p[0]);
      var rest := Run(r, first.state, p[1..]);
      SecondPass(r, first.state, p[1..]);
      SecondPassStep(r, s, p[0]);
      RunConcat(r, s.(header := []), first.out, rest.out);
    }
  }

  lemma SecondPassStep(r: Rules, s: State, b: Byte)
    requires WellFormed(s) && Step(r, s, b).Forwarded?
    ensures var o := Step(r, s, b);
            Run(r, s.(header := []), o.out) == Forwarded(o.state.(header := []), o.out)
  {
    if AwaitingHeader(s) {
      SecondPassHeader(r, s, b);
    } else {
      hide Run, ChunkedTracker.Step;
      assert s.(header := []) == s;
      RunOne(r, s, b);
    }
  }

  lemma SecondPassHeader(r: Rules, s: State, b: Byte)
    requires WellFormed(s) && AwaitingHeader(s)
    ensures var o := Step(r, s, b);
            o.Forwarded? && Run(r, s.(header := []), o.out) == Forwarded(o.state.(header := []), o.out)
  {
    hide Index, EndsWith, Reordered, Lines, IsHeader;
    var header := s.header + [b];
    assert s.(header := []) == IDLE;
    CompletedHeader(s.header, b);
    if EndsWith(header, BLANK_LINE) {
      var out := Reordered(r, header);
      ReorderedHeader(r, header);
      assert IDLE.header + out == out;
      HeaderNotEmpty(out);
      RunHeaderEnd(r, IDLE, out);
    }
  }

  lemma CompletedHeader(buffered: Bytes, b: Byte)
    requires Index(buffered, BLANK_LINE) == -1
    ensures EndsWith(buffered + [b], BLANK_LINE) ==> IsHeader(buffered + [b])
  {
    IndexExtend(buffered, b, BLANK_LINE);
  }

  lemma HeaderNotEmpty(header: Bytes)
    requires IsHeader(header)
    ensures |header| >= 4
  {
  }

  // ----- writes

  /** One Write on a connection that accepts every byte. */
  datatype WriteOutcome = Accepted(state: State, out: Bytes) | HeaderTooLong | BodyMalformed

  function WriteOnce(r: Rules, s: State, p: Bytes): (w: WriteOutcome)
    requires WellFormed(s)
    ensures w.Accepted? ==> WellFormed(w.state)
  {
    match Run(r, s, p)
    case Refused => BodyMalformed
    case Forwarded(state, out) =>
      if p != [] && |state.header| > MAX_BUFFERED then HeaderTooLong else Accepted(state, out)
  }

  /** A stream cut into writes, up to the first refused one. */
  function Session(r: Rules, s: State, parts: seq<Bytes>): (w: WriteOutcome)
    requires WellFormed(s)
    decreases |parts|
  {
    if parts == [] then Accepted(s, [])
    else
      var first := WriteOnce(r, s, parts[0]);
      if !first.Accepted? then first
      else
        var rest := Session(r, first.state, parts[1..]);
        if rest.Accepted? then Accepted(rest.state, first.out + rest.out) else rest
  }

  function Concat(parts: seq<Bytes>): Bytes {
    if parts == [] then [] else parts[0] + Concat(parts[1..])
  }

  /** At every cut the held-back header is within the bound (a write of no bytes is not checked). */
  predicate CutsWithinBound(r: Rules, s: State, parts: seq<Bytes>)
    requires WellFormed(s)
    decreases |parts|
  {
    parts == [] ||
    match Run(r, s, parts[0])
    case Refused => true
    case Forwarded(state, _) =>
      (parts[0] != [] ==> |state.header| <= MAX_BUFFERED) && CutsWithinBound(r, state, parts[1..])
  }

  /** A cut stream is accepted exactly when the whole stream is well formed and every cut respects the
      header bound; what is forwarded and the final state are then those of the whole stream. */
  lemma {:induction false} SplitInvariance(r: Rules, s: State, parts: seq<Bytes>)
    requires WellFormed(s)
    ensures var whole, w := Run(r, s, Concat(parts)), Session(r, s, parts);
            && (w.Accepted? <==> whole.Forwarded? && CutsWithinBound(r, s, parts))
            && (w.Accepted? ==> w == Accepted(whole.state, whole.out))
    decreases |parts|
  {
    if parts != [] {
      var o := Run(r, s, parts[0]);
      RunConcat(r, s, parts[0], Concat(parts[1..]));
      if o.Forwarded? { SplitInvariance(r, o.state, parts[1..]); }
    }
  }

  /** Any two ways of cutting a stream into accepted writes forward the same bytes and end in the same state. */
  lemma AnyTwoCuts(r: Rules, s: State, parts: seq<Bytes>, others: seq<Bytes>)
    requires WellFormed(s) && Concat(parts) == Concat(others)
    requires Session(r, s, parts).Accepted? && Session(r, s, others).Accepted?
    ensures Session(r, s, parts) == Session(r, s, others)
  {
    SplitInvariance(r, s, parts);
    SplitInvariance(r, s, others);
  }

  function Filler(n: nat): (p: Bytes)
    ensures |p| == n && forall b :: b in p ==> b == 97
  {
    seq(n, _ => 97)
  }

  lemma FillerHeader(a: Bytes)
    requires forall b :: b in a ==> b == 97
    ensures Index(a, BLANK_LINE) == -1 && IsHeader(a + BLANK_LINE)
  {
    hide At, Index;
    var header := a + BLANK_LINE;
    AtBlankLine(header, |a|);
    AtTwo(header, CR, LF, |a|);
    AtTwo(header, CR, LF, |a| + 2);
    AtInside(a, BLANK_LINE);
    forall j | 0 <= j < |a| ensures !At(header, BLANK_LINE, j) && !At(a, BLANK_LINE, j) {
      assert a[j] in a && header[j] == a[j];
      AtBlankLine(header, j);
      AtBlankLine(a, j);
      AtTwo(header, CR, LF, j);
      AtTwo(a, CR, LF, j);
    }
    IndexUnique(header, BLANK_LINE, |a|);
  }

  /** The bound is checked per write, so an over-long header passes in one write and fails in two. */
  lemma OverlongHeaderDependsOnCut(r: Rules)
    ensures exists a: Bytes, b: Bytes ::
              Session(r, IDLE, [a + b]).Accepted? && Session(r, IDLE, [a, b]) == HeaderTooLong
  {
    hide Run, Step, IsHeader, AfterHeader, Reordered, Index;
    var a := Filler(MAX_BUFFERED + 1);
    var header := a + BLANK_LINE;
    FillerHeader(a);
    assert IDLE.header + a == a && IDLE.header + header == header;
    RunHeaderPart(r, IDLE, a);
    RunHeaderEnd(r, IDLE, header);
    assert WriteOnce(r, IDLE, a) == HeaderTooLong;
    assert WriteOnce(r, IDLE, header).Accepted? by { AfterHeaderIsEmpty(r, header); }
    var one: seq<Bytes> := [header];
    assert one[1..] == [] && [a, BLANK_LINE][1..] == [BLANK_LINE];
    assert Session(r, IDLE, [a + BLANK_LINE]).Accepted?;
    assert Session(r, IDLE, [a, BLANK_LINE]) == HeaderTooLong;
  }

  lemma AfterHeaderIsEmpty(r: Rules, header: Bytes)
    requires IsHeader(header)
    ensures AfterHeader(r, header).header == []
  {
  }
}
