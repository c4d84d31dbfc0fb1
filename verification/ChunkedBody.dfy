// The language of chunked bodies, and the proof that the tracker stops exactly at its end
// (RFC 9112, section 7.1, with the size-line and trailer bounds of internal/httpwire/ordered_conn.go).
module ChunkedBody {
  import opened Bytes
  import opened ChunkedTracker

  /** A chunk: its size line with the line end, and its data. */
  datatype Chunk = Chunk(sizeLine: Bytes, data: Bytes)

  datatype Body = Body(chunks: seq<Chunk>, lastLine: Bytes, trailers: Bytes)

  /** A line, terminator included, that announces `size`; anything else may follow a semicolon. */
  predicate SizeLine(line: Bytes, size: nat) {
    && 2 <= |line| <= MAX_BUFFERED
    && Index(line, CRLF) == |line| - 2
    && SizeOf(line[..|line| - 2]) == Some(size)
  }

  predicate TrailerSection(trailers: Bytes) {
    && |trailers| <= MAX_BUFFERED
    && TrailersEnd(trailers)
    && forall k :: 0 < k < |trailers| ==> !TrailersEnd(trailers[..k])
  }

  predicate WellFormedChunk(c: Chunk) {
    c.data != [] && SizeLine(c.sizeLine, |c.data|)
  }

  predicate WellFormed(body: Body) {
    && (forall c :: c in body.chunks ==> WellFormedChunk(c))
    && SizeLine(body.lastLine, 0)
    && TrailerSection(body.trailers)
  }

  function EncodeChunk(c: Chunk): Bytes {
    c.sizeLine + c.data + CRLF
  }

  function EncodeFrom(body: Body): Bytes
    decreases |body.chunks|
  {
    if body.chunks == [] then body.lastLine + body.trailers
    else EncodeChunk(body.chunks[0]) + EncodeFrom(body.(chunks := body.chunks[1..]))
  }

  /** The tracker between two chunks. */
  predicate AtSizeLine(t: Tracker) {
    t.phase.ReadingSize? && t.line == [] && t.trailers == []
  }

  // ----- the tracker accepts every well-formed body

  /** No strict prefix of a line ends with its line end. */
  lemma LineNotEnded(line: Bytes, k: nat)
    requires k + 1 < |line| && Index(line, CRLF) == |line| - 2
    ensures !EndsWith(line[..k + 1], CRLF)
  {
    hide At, Index;
    TakeDrop(line, k + 1);
    AtInside(line[..k + 1], CRLF);
    AtAppend(line[..k + 1], line[k + 1..], CRLF, k - 1);
  }

  lemma {:induction false} ScanLine(t: Tracker, line: Bytes, size: nat, k: nat)
    requires t.phase.ReadingSize? && k < |line| && t.line == line[..k] && SizeLine(line, size)
    ensures Scan(t, line[k..]) ==
            Scanned(if size == 0 then t.(line := [], phase := ReadingTrailers)
                    else t.(line := [], dataRemaining := size, phase := ReadingData), |line| - k, Running)
    decreases |line| - k
  {
    hide SizeOf;
    assert t.line + [line[k]] == line[..k + 1];
    assert line[k..][1..] == line[k + 1..];
    if k + 1 < |line| {
      LineNotEnded(line, k);
      ScanLine(t.(line := line[..k + 1]), line, size, k + 1);
    } else {
      assert line[..k + 1] == line;
    }
  }

  lemma {:induction false} ScanTrailers(t: Tracker, trailers: Bytes, k: nat)
    requires t.phase.ReadingTrailers? && k < |trailers| && t.trailers == trailers[..k] && TrailerSection(trailers)
    ensures var r := Scan(t, trailers[k..]); r.consumed == |trailers| - k && r.verdict.Finished?
    decreases |trailers| - k
  {
    hide SizeOf, EndsWith, TrailersEnd;
    assert t.trailers + [trailers[k]] == trailers[..k + 1];
    assert trailers[k..][1..] == trailers[k + 1..];
    if k + 1 < |trailers| {
      ScanTrailers(t.(trailers := trailers[..k + 1]), trailers, k + 1);
    } else {
      assert trailers[..k + 1] == trailers;
    }
  }

  lemma ScanLineEnd(t: Tracker)
    requires t.phase.ReadingDataCrlf? && t.crlfPosition == 0
    ensures Scan(t, CRLF) == Scanned(t.(crlfPosition := 2, phase := ReadingSize), 2, Running)
  {
    var half := t.(crlfPosition := 1);
    assert CRLF[1..] == [LF] && [LF][1..] == [];
    assert Step(t, CR) == Scanned(half, 1, Running);
    assert Scan(half, [LF]) == Scanned(t.(crlfPosition := 2, phase := ReadingSize), 1, Running);
  }

  lemma ScanChunk(t: Tracker, c: Chunk)
    requires AtSizeLine(t) && WellFormedChunk(c)
    ensures var r := Scan(t, EncodeChunk(c)); AtSizeLine(r.tracker) && r.verdict.Running?
  {
    ScanLine(t, c.sizeLine, |c.data|, 0);
    assert c.sizeLine[0..] == c.sizeLine;
    var reading := Scan(t, c.sizeLine).tracker;
    ScanData(reading, c.data);
    ScanLineEnd(Skip(reading, |c.data|));
    ScanConcat(t, c.sizeLine, c.data);
    ScanConcat(t, c.sizeLine + c.data, CRLF);
  }

  lemma {:induction false} ScanBody(t: Tracker, body: Body)
    requires AtSizeLine(t) && WellFormed(body)
    ensures var r := Scan(t, EncodeFrom(body)); r.consumed == |EncodeFrom(body)| && r.verdict.Finished?
    decreases |body.chunks|
  {
    if body.chunks == [] {
      ScanLine(t, body.lastLine, 0, 0);
      assert body.lastLine[0..] == body.lastLine && body.trailers[0..] == body.trailers;
      ScanTrailers(Scan(t, body.lastLine).tracker, body.trailers, 0);
      ScanConcat(t, body.lastLine, body.trailers);
    } else {
      var rest := body.(chunks := body.chunks[1..]);
      ScanChunk(t, body.chunks[0]);
      ScanBody(Scan(t, EncodeChunk(body.chunks[0])).tracker, rest);
      ScanConcat(t, EncodeChunk(body.chunks[0]), EncodeFrom(rest));
    }
  }

  /** Whatever follows a body, the tracker finishes after exactly the body. */
  lemma ChunkedExactness(body: Body, following: Bytes)
    requires WellFormed(body)
    ensures var r := Scan(FRESH, EncodeFrom(body) + following);
            r.consumed == |EncodeFrom(body)| && r.verdict.Finished?
  {
    ScanBody(FRESH, body);
    ScanConcat(FRESH, EncodeFrom(body), following);
  }

  // ----- and nothing else

  lemma ScanEmpty(t: Tracker)
    requires Valid(t)
    ensures Scan(t, []) == Scanned(t, 0, Running)
  {
  }

  lemma AsSizeLine(line: Bytes, size: nat)
    requires 2 <= |line| <= MAX_BUFFERED && Index(line, CRLF) == |line| - 2 && SizeOf(line[..|line| - 2]) == Some(size)
    ensures SizeLine(line, size)
  {
  }

  /** A scan that finishes has first read a whole size line. */
  lemma {:induction false} FinishedLine(t: Tracker, data: Bytes) returns (n: nat, size: nat)
    requires t.phase.ReadingSize? && Index(t.line, CRLF) == -1 && Scan(t, data).verdict.Finished?
    ensures 0 < n <= |data| && SizeLine(t.line + data[..n], size)
    ensures Scan(t, data[..n]) ==
            Scanned(if size == 0 then t.(line := [], phase := ReadingTrailers)
                    else t.(line := [], dataRemaining := size, phase := ReadingData), n, Running)
    decreases |data|
  {
    hide SizeOf, Scan, SizeLine, Index;
    assert data != [] by { ScanEmpty(t); }
    ScanCons(t, data);
    var line := t.line + [data[0]];
    IndexExtend(t.line, data[0], CRLF);
    if EndsWith(line, CRLF) {
      n, size := 1, SizeOf(line[..|line| - 2]).value;
      AsSizeLine(line, size);
      ScanFirst(t, data, 1);
      ScanEmpty(Step(t, data[0]).tracker);
      assert data[1..][..0] == [];
      assert data[..1] == [data[0]];
    } else {
      var m;
      m, size := FinishedLine(t.(line := line), data[1..]);
      n := m + 1;
      ScanFirst(t, data, n);
      MoveFirst(t.line, data, n);
    }
  }

  ghost predicate TrailersOpen(trailers: Bytes) {
    forall k :: 0 < k <= |trailers| ==> !TrailersEnd(trailers[..k])
  }

  lemma TrailersGrow(trailers: Bytes, b: Byte)
    requires TrailersOpen(trailers)
    ensures var grown := trailers + [b];
            if TrailersEnd(grown) then |grown| <= MAX_BUFFERED ==> TrailerSection(grown) else TrailersOpen(grown)
  {
    var grown := trailers + [b];
    assert grown[..|grown|] == grown;
    assert forall k :: 0 < k <= |trailers| ==> grown[..k] == trailers[..k];
  }

  lemma {:induction false} FinishedTrailers(t: Tracker, data: Bytes)
    requires t.phase.ReadingTrailers? && Scan(t, data).verdict.Finished? && TrailersOpen(t.trailers)
    ensures TrailerSection(t.trailers + data[..Scan(t, data).consumed])
    decreases |data|
  {
    hide Scan, TrailersOpen, TrailersEnd, TrailerSection;
    ScanEmpty(t);
    assert data != [];
    ScanCons(t, data);
    TrailersGrow(t.trailers, data[0]);
    var grown := t.trailers + [data[0]];
    var n := Scan(t, data).consumed;
    if Step(t, data[0]).verdict.Finished? {
      assert n == 1 && data[..1] == [data[0]];
    } else {
      FinishedTrailers(t.(trailers := grown), data[1..]);
      MoveFirst(t.trailers, data, n);
    }
  }

  /** A scan inside a chunk that finishes has the rest of the chunk and its line end before it. */
  lemma FinishedData(t: Tracker, data: Bytes)
    requires t.phase.ReadingData? && t.dataRemaining > 0 && Scan(t, data).verdict.Finished?
    ensures var n := t.dataRemaining;
            && n + 2 <= |data| && data[..n + 2] == data[..n] + CRLF
            && Scan(t, data[..n + 2]) ==
               Scanned(t.(dataRemaining := 0, crlfPosition := 2, phase := ReadingSize), n + 2, Running)
  {
    var n := t.dataRemaining;
    if |data| < n {
      if data != [] { ScanData(t, data); }
      assert false;
    }
    TakeDrop(data, n);
    ScanData(t, data[..n]);
    ScanConcat(t, data[..n], data[n..]);
    FinishedLineEnd(Skip(t, n), data[n..]);
    ScanLineEnd(Skip(t, n));
    ScanConcat(t, data[..n], CRLF);
    TakeThenTake(data, n, 2);
  }

  lemma FinishedLineEnd(t: Tracker, data: Bytes)
    requires t.phase.ReadingDataCrlf? && t.crlfPosition == 0 && Scan(t, data).verdict.Finished?
    ensures |data| >= 2 && data[..2] == CRLF
  {
    var half := t.(crlfPosition := 1);
    assert Step(t, data[0]) == Scanned(half, 1, Running);
    assert Scan(half, data[1..]).verdict.Finished?;
    assert Step(half, data[1..][0]).verdict.Running?;
  }

  lemma {:induction false} FinishedIsBody(t: Tracker, data: Bytes) returns (body: Body)
    requires AtSizeLine(t) && Scan(t, data).verdict.Finished?
    ensures WellFormed(body) && data[..Scan(t, data).consumed] == EncodeFrom(body)
    decreases |data|
  {
    hide Scan, EncodeFrom, WellFormed;
    var n, size, after := FirstSizeLine(t, data);
    if size == 0 {
      body := FinishedLastLine(data, n, after);
    } else {
      body := FinishedChunkLine(data, n, size, after);
    }
  }

  lemma FirstSizeLine(t: Tracker, data: Bytes) returns (n: nat, size: nat, after: Tracker)
    requires AtSizeLine(t) && Scan(t, data).verdict.Finished?
    ensures 0 < n <= |data| && SizeLine(data[..n], size) && Valid(after)
    ensures after == if size == 0 then t.(phase := ReadingTrailers) else t.(dataRemaining := size, phase := ReadingData)
    ensures Scan(t, data) == Later(Scan(after, data[n..]), n)
  {
    n, size := FinishedLine(t, data);
    assert t.line + data[..n] == data[..n];
    after := if size == 0 then t.(phase := ReadingTrailers) else t.(dataRemaining := size, phase := ReadingData);
    assert after == after.(line := []);
    ScanConcat(t, data[..n], data[n..]);
    TakeDrop(data, n);
  }

  lemma {:induction false} FinishedChunkLine(data: Bytes, n: nat, size: nat, t: Tracker) returns (body: Body)
    requires 0 < n <= |data| && size > 0 && SizeLine(data[..n], size)
    requires t.phase.ReadingData? && t.dataRemaining == size && t.trailers == [] && t.line == []
    requires Scan(t, data[n..]).verdict.Finished?
    ensures WellFormed(body) && data[..n + Scan(t, data[n..]).consumed] == EncodeFrom(body)
    decreases |data|, 0
  {
    hide Scan, EncodeFrom, WellFormed;
    var tail := data[n..];
    var rest, m := FinishedChunk(t, tail);
    var chunk := Chunk(data[..n], tail[..size]);
    body := PrependChunk(chunk, rest);
    TakeThenTake(data, n, m);
    assert tail[..m] == chunk.data + CRLF + EncodeFrom(rest);
  }

  lemma FinishedLastLine(data: Bytes, n: nat, t: Tracker) returns (body: Body)
    requires n <= |data| && SizeLine(data[..n], 0)
    requires t.phase.ReadingTrailers? && t.trailers == [] && Scan(t, data[n..]).verdict.Finished?
    ensures WellFormed(body) && data[..n + Scan(t, data[n..]).consumed] == EncodeFrom(body)
  {
    var tail := data[n..];
    FinishedTrailers(t, tail);
    var m := Scan(t, tail).consumed;
    assert t.trailers + tail[..m] == tail[..m];
    body := Body([], data[..n], tail[..m]);
    TakeThenTake(data, n, m);
  }

  lemma PrependChunk(c: Chunk, rest: Body) returns (body: Body)
    requires WellFormedChunk(c) && WellFormed(rest)
    ensures WellFormed(body) && EncodeFrom(body) == c.sizeLine + (c.data + CRLF + EncodeFrom(rest))
  {
    hide WellFormedChunk, SizeLine, TrailerSection;
    body := rest.(chunks := [c] + rest.chunks);
    assert body.(chunks := body.chunks[1..]) == rest;
  }

  /** Inside a chunk, a finishing scan reads the chunk's end and then a shorter body. */
  lemma {:induction false} FinishedChunk(t: Tracker, data: Bytes) returns (rest: Body, m: nat)
    requires t.phase.ReadingData? && t.dataRemaining > 0 && t.trailers == [] && t.line == []
    requires Scan(t, data).verdict.Finished?
    ensures m == Scan(t, data).consumed && t.dataRemaining <= m
    ensures WellFormed(rest) && data[..m] == data[..t.dataRemaining] + CRLF + EncodeFrom(rest)
    decreases |data|
  {
    hide Scan, EncodeFrom, WellFormed;
    FinishedData(t, data);
    var n := t.dataRemaining + 2;
    TakeDrop(data, n);
    ScanConcat(t, data[..n], data[n..]);
    var next := Scan(t, data[..n]).tracker;
    rest := FinishedIsBody(next, data[n..]);
    m := n + Scan(next, data[n..]).consumed;
    TakeThenTake(data, n, m - n);
  }

  ghost predicate IsBody(data: Bytes) {
    exists body :: WellFormed(body) && EncodeFrom(body) == data
  }

  /** The tracker finishes at the last byte of `data` exactly when `data` is a chunked body. */
  lemma {:induction false} TrackerRecognizesBodies(data: Bytes)
    ensures IsBody(data) <==> Scan(FRESH, data).verdict.Finished? && Scan(FRESH, data).consumed == |data|
  {
    hide Scan, EncodeFrom;
    if IsBody(data) {
      var body :| WellFormed(body) && EncodeFrom(body) == data;
      ScanBody(FRESH, body);
    }
    if Scan(FRESH, data).verdict.Finished? && Scan(FRESH, data).consumed == |data| {
      var body := FinishedIsBody(FRESH, data);
      assert data[..|data|] == data;
    }
  }

  // ----- printed sizes are size lines

  function HexDigit(d: nat): Byte
    requires d < 16
  {
    if d < 10 then 48 + d else 87 + d
  }

  function Hex(n: nat): (s: Bytes)
    ensures s != []
  {
    if n < 16 then [HexDigit(n)] else Hex(n / 16) + [HexDigit(n % 16)]
  }

  lemma {:induction false} HexMagnitude(n: nat)
    ensures Magnitude(Hex(n), 16) == Some(n)
    ensures forall b :: b in Hex(n) ==> 48 <= b <= 57 || 97 <= b <= 102
  {
    if n < 16 {
      assert [HexDigit(n)][..0] == [];
    } else {
      HexMagnitude(n / 16);
      var s := Hex(n);
      assert s[..|s| - 1] == Hex(n / 16);
    }
  }

  /** The usual encoder: lower-case hexadecimal, then nothing or an extension, then a line end. */
  lemma PrintedSizeLine(n: nat, extension: Bytes)
    requires n <= MAX_INT64
    requires extension == [] || extension[0] == SEMICOLON
    requires Index(extension, CRLF) == -1
    requires |Hex(n)| + |extension| + 2 <= MAX_BUFFERED
    ensures SizeLine(Hex(n) + extension + CRLF, n)
  {
    HexMagnitude(n);
    var text := Hex(n) + extension;
    FirstLineEnd(Hex(n), extension);
    assert (text + CRLF)[..|text|] == text;
    PrintedSize(n, extension);
  }

  lemma FirstLineEnd(hex: Bytes, extension: Bytes)
    requires CR !in hex && Index(extension, CRLF) == -1
    ensures Index(hex + extension + CRLF, CRLF) == |hex| + |extension|
  {
    hide At, Index;
    var text := hex + extension;
    var line := text + CRLF;
    AtTwo(line, CR, LF, |text|);
    forall j | 0 <= j < |text| ensures !At(line, CRLF, j) {
      AtTwo(line, CR, LF, j);
      if j < |hex| {
        assert line[j] == hex[j];
      } else if j + 1 < |text| {
        AtTwo(extension, CR, LF, j - |hex|);
      }
    }
    IndexUnique(line, CRLF, |text|);
  }

  lemma PrintedSize(n: nat, extension: Bytes)
    requires n <= MAX_INT64
    requires extension == [] || extension[0] == SEMICOLON
    ensures SizeOf(Hex(n) + extension) == Some(n)
  {
    hide Hex, Trim, ParseInt, Index, Magnitude;
    HexMagnitude(n);
    ParseHex(n);
    var hex := Hex(n);
    assert hex[0] in hex && hex[|hex| - 1] in hex;
    SizeText(hex, extension);
  }

  /** The size text the tracker isolates is the text before the extension. */
  lemma SizeText(hex: Bytes, extension: Bytes)
    requires hex != [] && !IsSpace(hex[0]) && !IsSpace(hex[|hex| - 1]) && SEMICOLON !in hex
    requires extension == [] || extension[0] == SEMICOLON
    ensures var text := Trim(hex + extension);
            var i := Index(text, [SEMICOLON]);
            (if i >= 0 then Trim(text[..i]) else text) == hex
  {
    TrimPlain(hex);
    if extension == [] {
      assert hex + extension == hex;
      NoSemicolon(hex);
    } else {
      TrimBeforeExtension(hex, extension);
      FirstSemicolon(hex, Trim(hex + extension));
    }
  }

  lemma TrimPlain(hex: Bytes)
    requires hex != [] && !IsSpace(hex[0]) && !IsSpace(hex[|hex| - 1])
    ensures Trim(hex) == hex
  {
  }

  lemma TrimBeforeExtension(hex: Bytes, extension: Bytes)
    requires hex != [] && !IsSpace(hex[0]) && !IsSpace(hex[|hex| - 1])
    requires extension != [] && extension[0] == SEMICOLON
    ensures var text := Trim(hex + extension);
            |hex| < |text| && text[..|hex|] == hex && text[|hex|] == SEMICOLON
  {
    var s := hex + extension;
    assert s[0] == hex[0] && TrimLeft(s) == s;
    TrimRightKeeps(hex, extension);
    assert s[..|hex|] == hex && s[|hex|] == extension[0];
    var text := TrimRight(s);
    assert text[..|hex|] == s[..|hex|];
  }

  lemma NoSemicolon(hex: Bytes)
    requires SEMICOLON !in hex
    ensures Index(hex, [SEMICOLON]) == -1
  {
    hide At, Index;
    forall j ensures !At(hex, [SEMICOLON], j) {
      AtOne(hex, SEMICOLON, j);
    }
  }

  lemma FirstSemicolon(hex: Bytes, text: Bytes)
    requires |hex| < |text| && hex == text[..|hex|] && text[|hex|] == SEMICOLON && SEMICOLON !in hex
    ensures Index(text, [SEMICOLON]) == |hex|
  {
    hide At, Index;
    forall j | 0 <= j < |hex| ensures !At(text, [SEMICOLON], j) {
      AtOne(text, SEMICOLON, j);
      assert text[j] == hex[j];
    }
    AtOne(text, SEMICOLON, |hex|);
    IndexUnique(text, [SEMICOLON], |hex|);
  }

  lemma ParseHex(n: nat)
    requires n <= MAX_INT64
    ensures ParseInt(Hex(n), 16) == Some(n)
  {
    HexMagnitude(n);
    assert Hex(n)[0] in Hex(n);
  }

  /** Trimming cannot pass a byte that is not white space. */
  lemma {:induction false} TrimRightKeeps(hex: Bytes, extension: Bytes)
    requires extension != [] && !IsSpace(extension[0])
    ensures |TrimRight(hex + extension)| > |hex|
    decreases |extension|
  {
    var s := hex + extension;
    if |extension| > 1 && IsSpace(s[|s| - 1]) {
      assert s[..|s| - 1] == hex + extension[..|extension| - 1];
      TrimRightKeeps(hex, extension[..|extension| - 1]);
    }
  }
}
