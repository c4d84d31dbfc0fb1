// What a size line announces, and when the tracker waits or refuses, said without the tracker.
module ChunkedVerdicts {
  import opened Bytes
  import opened ChunkedTracker
  import opened ChunkedBody

  // ----- hexadecimal numbers

  /** The text with the letters A to F in lower case. */
  function Lowered(s: Bytes): (t: Bytes)
    ensures |t| == |s|
  {
    seq(|s|, i requires 0 <= i < |s| => if 65 <= s[i] <= 70 then s[i] + 32 else s[i])
  }

  /** `n` in base sixteen, letters in either case, with any number of leading zeros. */
  predicate WritesHex(digits: Bytes, zeros: nat, n: nat) {
    Lowered(digits) == Zeros(zeros) + Hex(n)
  }

  lemma LoweredConcat(a: Bytes, b: Bytes)
    ensures Lowered(a + b) == Lowered(a) + Lowered(b)
  {
  }

  lemma LoweredLast(s: Bytes)
    requires s != []
    ensures Lowered(s) == Lowered(s[..|s| - 1]) + Lowered([s[|s| - 1]])
  {
    LoweredConcat(s[..|s| - 1], [s[|s| - 1]]);
    assert s[..|s| - 1] + [s[|s| - 1]] == s;
  }

  lemma DigitOf(b: Byte, d: nat)
    requires d < 16
    ensures Lowered([b]) == [HexDigit(d)] <==> DigitValue(b, 16) == d
  {
    assert Lowered([b])[0] == if 65 <= b <= 70 then b + 32 else b;
  }

  /** One more digit behind a number; behind a zero it leaves one more leading zero. */
  lemma HexSnoc(zeros: nat, n: nat, d: nat)
    requires d < 16
    ensures Zeros(zeros) + Hex(n) + [HexDigit(d)] == Zeros(if n == 0 then zeros + 1 else zeros) + Hex(n * 16 + d)
  {
    assert n == 0 ==> Hex(n) == [48] && Zeros(zeros + 1) == Zeros(zeros) + [48];
    assert n > 0 ==> Hex(n * 16 + d) == Hex(n) + [HexDigit(d)];
    hide Zeros, HexDigit;
    assert Hex(d) == [HexDigit(d)];
  }

  lemma MagnitudeLast(s: Bytes)
    requires s != []
    ensures var d, high := DigitValue(s[|s| - 1], 16), Magnitude(s[..|s| - 1], 16);
            Magnitude(s, 16) == if d < 0 || high == None then None else Some(high.value * 16 + d)
  {
  }

  /** Written digits have the value they write. */
  lemma {:induction false} WrittenValue(digits: Bytes, zeros: nat, n: nat)
    requires WritesHex(digits, zeros, n)
    ensures digits != [] && Magnitude(digits, 16) == Some(n)
    decreases |digits|
  {
    hide Magnitude, Lowered, DigitValue, HexDigit;
    var k := |digits| - 1;
    var written := Lowered(digits);
    var last := n % 16;
    LoweredLast(digits);
    DigitOf(digits[k], last);
    MagnitudeLast(digits);
    assert written[..k] == Lowered(digits[..k]) && written[k..] == Lowered([digits[k]]);
    assert written[k] == HexDigit(last) by { assert written[k] == Hex(n)[|Hex(n)| - 1]; }
    assert written[k..] == [HexDigit(last)];
    if n >= 16 {
      assert written[..k] == Zeros(zeros) + Hex(n / 16);
      WrittenValue(digits[..k], zeros, n / 16);
    } else {
      assert written[..k] == Zeros(zeros);
      WrittenZeros(digits[..k], zeros);
    }
  }

  lemma {:induction false} WrittenZeros(digits: Bytes, zeros: nat)
    requires Lowered(digits) == Zeros(zeros)
    ensures Magnitude(digits, 16) == Some(0)
    decreases |digits|
  {
    if digits != [] {
      var k := |digits| - 1;
      LoweredLast(digits);
      DigitOf(digits[k], 0);
      MagnitudeLast(digits);
      hide Magnitude, Lowered, DigitValue;
      assert Zeros(zeros)[..k] == Zeros(zeros - 1);
      assert Lowered(digits)[..k] == Lowered(digits[..k]) && Lowered(digits)[k..] == Lowered([digits[k]]);
      WrittenZeros(digits[..k], zeros - 1);
    }
  }

  /** Digits with a value write it. */
  lemma {:induction false} ValueWritten(digits: Bytes) returns (zeros: nat)
    requires digits != [] && Magnitude(digits, 16).Some?
    ensures WritesHex(digits, zeros, Magnitude(digits, 16).value)
    decreases |digits|
  {
    hide Magnitude, Lowered, DigitValue, HexDigit;
    var k := |digits| - 1;
    var init := digits[..k];
    MagnitudeLast(digits);
    LoweredLast(digits);
    var d := DigitValue(digits[k], 16);
    DigitOf(digits[k], d);
    if k == 0 {
      zeros := OneHexDigit(digits);
    } else {
      zeros := ValueWritten(init);
      var n := Magnitude(init, 16).value;
      HexSnoc(zeros, n, d);
      zeros := if n == 0 then zeros + 1 else zeros;
    }
  }

  lemma OneHexDigit(digits: Bytes) returns (zeros: nat)
    requires |digits| == 1 && Magnitude(digits, 16).Some?
    ensures WritesHex(digits, zeros, Magnitude(digits, 16).value)
  {
    zeros := 0;
    var d := DigitValue(digits[0], 16);
    assert digits[..0] == [] && digits == [digits[0]];
    DigitOf(digits[0], d);
  }

  // ----- what a size line announces

  /** The parts of a size line, without its line end. */
  datatype SizeParts = SizeParts(before: Bytes, sign: Bytes, digits: Bytes, zeros: nat, behind: Bytes, extension: Bytes)

  /** Padding, a sign or none, the size in hexadecimal, padding, and anything behind a semicolon. */
  predicate Announces(line: Bytes, p: SizeParts, size: nat) {
    && line == p.before + (p.sign + p.digits) + p.behind + p.extension
    && Blank(p.before) && Blank(p.behind)
    && (p.sign == [] || p.sign == [43] || (p.sign == [45] && size == 0))
    && WritesHex(p.digits, p.zeros, size)
    && size <= MAX_INT64
    && (p.extension == [] || p.extension[0] == SEMICOLON)
  }

  ghost predicate Announced(line: Bytes, size: nat) {
    exists p :: Announces(line, p, size)
  }

  predicate HexText(s: Bytes) {
    forall b :: b in s ==> 48 <= b <= 57 || 65 <= b <= 70 || 97 <= b <= 102
  }

  lemma {:induction false} HexDigitsOnly(s: Bytes)
    requires Magnitude(s, 16).Some?
    ensures HexText(s)
  {
    if s != [] {
      var init, b := s[..|s| - 1], s[|s| - 1];
      MagnitudeLast(s);
      HexDigitsOnly(init);
      assert DigitValue(b, 16) >= 0;
      hide Magnitude, DigitValue;
      assert s == init + [b];
    }
  }

  /** A signed hexadecimal text has no padding and no semicolon. */
  lemma PlainNumber(sign: Bytes, digits: Bytes)
    requires digits != [] && HexText(digits) && (sign == [] || sign == [43] || sign == [45])
    ensures Unpadded(sign + digits) && SEMICOLON !in sign + digits && sign + digits != []
  {
    var s := sign + digits;
    assert digits[0] in digits && digits[|digits| - 1] in digits;
    assert s[|s| - 1] == digits[|digits| - 1] && s[0] == if sign == [] then digits[0] else sign[0];
  }

  lemma SignedNumber(sign: Bytes, digits: Bytes)
    requires digits != [] && HexText(digits) && (sign == [] || sign == [43] || sign == [45])
    requires Magnitude(digits, 16).Some?
    ensures var m := Magnitude(digits, 16).value;
            ParseInt(sign + digits, 16) ==
            if sign == [45] then (if m <= MAX_INT64 + 1 then Some(0 - m) else None)
            else if m <= MAX_INT64 then Some(m) else None
  {
    hide Magnitude;
    var s := sign + digits;
    assert digits[0] in digits;
    if sign == [] { assert s == digits; } else { assert s[1..] == digits && s[0] == sign[0]; }
  }

  lemma Untrimmed(s: Bytes) returns (rest: Bytes, last: Bytes)
    requires s != [] && !IsSpace(s[0])
    ensures s == rest + last && Blank(last) && Unpadded(rest) && rest != [] && rest[0] == s[0]
  {
    hide TrimRight, Blank, IsSpace;
    rest := TrimRight(s);
    last := s[|rest|..];
    TrimRightStops(s);
    TrimRightKeeps([], s);
    assert [] + s == s;
    TakeDrop(s, |rest|);
  }

  /** The text in front of the first semicolon, or all of it, without its padding. */
  lemma SizeTextOf(before: Bytes, number: Bytes, behind: Bytes, extension: Bytes)
    requires Blank(before) && Blank(behind) && Unpadded(number) && number != [] && SEMICOLON !in number
    requires extension == [] || extension[0] == SEMICOLON
    ensures var text, i := Trim(before + number + behind + extension), |number| + |behind|;
            if extension == [] then text == number && Index(text, [SEMICOLON]) == -1
            else i <= |text| && Index(text, [SEMICOLON]) == i && Trim(text[..i]) == number
  {
    hide Trim, Index;
    var line := before + number + behind + extension;
    if extension == [] {
      assert line == before + number + behind;
      TrimOf(before, number, behind);
      NoSemicolon(number);
    } else {
      var rest, last := Untrimmed(extension);
      var text := number + behind + rest;
      assert line == before + text + last && text[|text| - 1] == rest[|rest| - 1] && text[0] == number[0];
      TrimOf(before, text, last);
      assert SEMICOLON !in behind;
      assert text == (number + behind) + [SEMICOLON] + rest[1..];
      FirstByte(number + behind, SEMICOLON, rest[1..]);
      assert text[..|number| + |behind|] == [] + number + behind;
      TrimOf([], number, behind);
    }
  }

  lemma AnnouncedSize(line: Bytes, p: SizeParts, size: nat)
    requires Announces(line, p, size)
    ensures SizeOf(line) == Some(size)
  {
    hide Magnitude, Lowered, Trim, Index, Hex, Zeros, Blank, HexText, ParseInt, Unpadded;
    WrittenValue(p.digits, p.zeros, size);
    HexDigitsOnly(p.digits);
    PlainNumber(p.sign, p.digits);
    SignedNumber(p.sign, p.digits);
    SizeTextOf(p.before, p.sign + p.digits, p.behind, p.extension);
  }

  /** What parses as a size is a signed hexadecimal text. */
  lemma ParsedSize(text: Bytes) returns (sign: Bytes, digits: Bytes, zeros: nat)
    requires ParseInt(text, 16).Some? && ParseInt(text, 16).value >= 0
    ensures text == sign + digits && WritesHex(digits, zeros, ParseInt(text, 16).value)
    ensures sign == [] || sign == [43] || (sign == [45] && ParseInt(text, 16).value == 0)
    ensures ParseInt(text, 16).value <= MAX_INT64
  {
    hide Magnitude, WritesHex;
    var signed := text[0] == 43 || text[0] == 45;
    sign, digits := if signed then text[..1] else [], if signed then text[1..] else text;
    zeros := ValueWritten(digits);
  }

  lemma SizeIsAnnounced(line: Bytes) returns (p: SizeParts)
    requires SizeOf(line).Some?
    ensures Announces(line, p, SizeOf(line).value)
  {
    hide Magnitude, Trim, Index, Lowered, Hex, Zeros, ParseInt, WritesHex, Unpadded;
    var before, behind := TrimParts(line);
    var text := Trim(line);
    var i := Index(text, [SEMICOLON]);
    if i < 0 {
      var sign, digits, zeros := ParsedSize(text);
      p := SizeParts(before, sign, digits, zeros, behind, []);
      assert line == before + (sign + digits) + behind + [];
    } else {
      var before', behind' := TrimParts(text[..i]);
      var sign, digits, zeros := ParsedSize(Trim(text[..i]));
      AtOne(text, SEMICOLON, i);
      TakeDrop(text, i);
      p := SizeParts(before + before', sign, digits, zeros, behind', text[i..] + behind);
      assert line == before + before' + (sign + digits) + behind' + (text[i..] + behind);
    }
  }

  /** A line announces a size exactly when it is written as one; no other line is a size line. */
  lemma SizeLineMeans(line: Bytes, size: nat)
    ensures SizeOf(line) == Some(size) <==> Announced(line, size)
  {
    hide SizeOf, Announces;
    if SizeOf(line) == Some(size) {
      var p := SizeIsAnnounced(line);
    }
    if Announced(line, size) {
      var p :| Announces(line, p, size);
      AnnouncedSize(line, p, size);
    }
  }

  // ----- where the trailers end

  /** The trailers are a single line end, or run to the first blank line behind a field. */
  lemma TrailersMean(trailers: Bytes)
    ensures TrailerSection(trailers) <==>
            |trailers| <= MAX_BUFFERED &&
            (trailers == CRLF ||
             (4 < |trailers| && trailers[..2] != CRLF && Index(trailers, BLANK_LINE) == |trailers| - 4))
  {
    hide At, Index;
    var n := |trailers|;
    AtInside(trailers, BLANK_LINE);
    forall k | 0 < k <= n
      ensures TrailersEnd(trailers[..k]) <==> (k == 2 && trailers[..2] == CRLF) || At(trailers, BLANK_LINE, k - 4)
    {
      EndsAt(trailers, k);
    }
    assert trailers[..n] == trailers;
    if TrailerSection(trailers) {
      forall j | 0 <= j < n - 4 ensures !At(trailers, BLANK_LINE, j) {
        assert !TrailersEnd(trailers[..j + 4]);
      }
      if trailers != CRLF {
        assert !TrailersEnd(trailers[..2]);
        IndexUnique(trailers, BLANK_LINE, n - 4);
        NotAtStart(trailers);
      }
    }
  }

  lemma EndsAt(trailers: Bytes, k: nat)
    requires 0 < k <= |trailers|
    ensures TrailersEnd(trailers[..k]) <==> (k == 2 && trailers[..2] == CRLF) || At(trailers, BLANK_LINE, k - 4)
  {
    hide At;
    TakeDrop(trailers, k);
    AtInside(trailers, BLANK_LINE);
    AtInside(trailers[..k], BLANK_LINE);
    AtAppend(trailers[..k], trailers[k..], BLANK_LINE, k - 4);
  }

  lemma NotAtStart(trailers: Bytes)
    requires |trailers| >= 2 && trailers[..2] != CRLF
    ensures !At(trailers, BLANK_LINE, 0)
  {
    AtBlankLine(trailers, 0);
    assert trailers[0..2] == trailers[..2];
  }

  // ----- bodies that may still be completed

  /** What has been read of a body behind its last whole chunk. */
  datatype Tail =
    | InLine(line: Bytes)
    | InChunk(line: Bytes, size: nat, data: Bytes, lineEnd: Bytes)
    | InTrailers(line: Bytes, trailers: Bytes)

  ghost predicate ValidTail(tail: Tail) {
    match tail
    case InLine(line) => |line| <= MAX_BUFFERED && Index(line, CRLF) == -1
    case InChunk(line, size, data, lineEnd) =>
      && size > 0 && SizeLine(line, size)
      && |data| <= size && (lineEnd == [] || (|data| == size && lineEnd == [CR]))
    case InTrailers(line, trailers) =>
      SizeLine(line, 0) && |trailers| <= MAX_BUFFERED && TrailersOpen(trailers)
  }

  function TailText(tail: Tail): Bytes {
    match tail
    case InLine(line) => line
    case InChunk(line, _, data, lineEnd) => line + data + lineEnd
    case InTrailers(line, trailers) => line + trailers
  }

  function EncodeChunks(chunks: seq<Chunk>): Bytes {
    if chunks == [] then [] else EncodeChunks(chunks[..|chunks| - 1]) + EncodeChunk(chunks[|chunks| - 1])
  }

  predicate AllChunks(chunks: seq<Chunk>) {
    forall c :: c in chunks ==> WellFormedChunk(c)
  }

  /** Whole chunks and a beginning of what may follow them. */
  ghost predicate IsOpen(data: Bytes) {
    exists chunks, tail :: AllChunks(chunks) && ValidTail(tail) && data == EncodeChunks(chunks) + TailText(tail)
  }

  ghost predicate StartsWithBody(data: Bytes) {
    exists n :: 0 <= n <= |data| && IsBody(data[..n])
  }

  /** The tracker inside such a tail. */
  predicate Inside(t: Tracker, tail: Tail) {
    match tail
    case InLine(line) => t.phase.ReadingSize? && t.line == line && t.trailers == []
    case InChunk(_, size, data, lineEnd) =>
      && t.line == [] && t.trailers == []
      && if |data| < size then t.phase.ReadingData? && t.dataRemaining == size - |data|
         else t.phase.ReadingDataCrlf? && t.crlfPosition == |lineEnd|
    case InTrailers(_, trailers) => t.phase.ReadingTrailers? && t.trailers == trailers
  }

  lemma StepInLine(t: Tracker, line: Bytes, b: Byte) returns (tail: Tail)
    requires ValidTail(InLine(line)) && Inside(t, InLine(line)) && Step(t, b).verdict.Running?
    ensures ValidTail(tail) && Inside(Step(t, b).tracker, tail) && TailText(tail) == line + [b]
  {
    hide Index, SizeOf, SizeLine;
    var grown := line + [b];
    IndexExtend(line, b, CRLF);
    if EndsWith(grown, CRLF) {
      var size := SizeOf(grown[..|grown| - 2]).value;
      AsSizeLine(grown, size);
      tail := if size == 0 then InTrailers(grown, []) else InChunk(grown, size, [], []);
    } else {
      tail := InLine(grown);
    }
  }

  lemma StepInChunk(t: Tracker, tail: Tail, b: Byte) returns (chunks: seq<Chunk>, next: Tail)
    requires tail.InChunk? && ValidTail(tail) && Inside(t, tail) && Valid(t) && Step(t, b).verdict.Running?
    ensures AllChunks(chunks) && |chunks| <= 1 && ValidTail(next) && Inside(Step(t, b).tracker, next)
    ensures (if chunks == [] then [] else EncodeChunk(chunks[0])) + TailText(next) == TailText(tail) + [b]
  {
    hide SizeOf, SizeLine;
    chunks := [];
    if |tail.data| < tail.size {
      next := tail.(data := tail.data + [b]);
    } else if tail.lineEnd == [] {
      next := tail.(lineEnd := [b]);
    } else {
      chunks, next := [Chunk(tail.line, tail.data)], InLine([]);
      assert [CR] + [b] == CRLF;
    }
  }

  lemma StepInTrailers(t: Tracker, tail: Tail, b: Byte) returns (next: Tail)
    requires tail.InTrailers? && ValidTail(tail) && Inside(t, tail) && Step(t, b).verdict.Running?
    ensures ValidTail(next) && Inside(Step(t, b).tracker, next) && TailText(next) == TailText(tail) + [b]
  {
    hide SizeOf, SizeLine, TrailersEnd;
    TrailersGrow(tail.trailers, b);
    next := tail.(trailers := tail.trailers + [b]);
  }

  lemma ScanSnoc(t: Tracker, data: Bytes, b: Byte)
    requires Valid(t) && Scan(t, data + [b]).verdict.Running?
    ensures Scan(t, data).verdict.Running? && Step(Scan(t, data).tracker, b).verdict.Running?
    ensures Scan(t, data + [b]).tracker == Step(Scan(t, data).tracker, b).tracker
  {
    hide Step, Scan;
    ScanConcat(t, data, [b]);
    var after := Scan(t, data).tracker;
    if Scan(t, data).verdict.Running? {
      ScanCons(after, [b]);
      ScanEmpty(Step(after, b).tracker);
      assert [b][1..] == [];
    }
  }

  /** A scan that still runs has read whole chunks and a tail. */
  lemma {:induction false} RunningIsOpen(data: Bytes) returns (chunks: seq<Chunk>, tail: Tail)
    requires Scan(FRESH, data).verdict.Running?
    ensures AllChunks(chunks) && ValidTail(tail) && data == EncodeChunks(chunks) + TailText(tail)
    ensures Inside(Scan(FRESH, data).tracker, tail)
    decreases |data|
  {
    hide Step, Scan, WellFormedChunk, ValidTail, EncodeChunk;
    if data == [] {
      ScanEmpty(FRESH);
      chunks, tail := [], InLine([]);
      EmptyTail();
    } else {
      var init, b := data[..|data| - 1], data[|data| - 1];
      assert data == init + [b];
      ScanSnoc(FRESH, init, b);
      var t := Scan(FRESH, init).tracker;
      chunks, tail := RunningIsOpen(init);
      match tail {
        case InLine(line) => tail := StepInLine(t, line, b);
        case InTrailers(_, _) => tail := StepInTrailers(t, tail, b);
        case InChunk(_, _, _, _) =>
          var done, next := StepInChunk(t, tail, b);
          MoreChunks(chunks, done, TailText(tail), b, TailText(next));
          chunks, tail := chunks + done, next;
      }
    }
  }

  lemma EmptyTail()
    ensures ValidTail(InLine([])) && Inside(FRESH, InLine([])) && EncodeChunks([]) == []
  {
  }

  lemma MoreChunks(chunks: seq<Chunk>, done: seq<Chunk>, text: Bytes, b: Byte, next: Bytes)
    requires |done| <= 1 && AllChunks(chunks) && AllChunks(done)
    requires (if done == [] then [] else EncodeChunk(done[0])) + next == text + [b]
    ensures AllChunks(chunks + done)
    ensures EncodeChunks(chunks) + text + [b] == EncodeChunks(chunks + done) + next
  {
    hide EncodeChunk, WellFormedChunk;
    Associate(EncodeChunks(chunks), text, [b]);
    if done == [] {
      assert chunks + done == chunks && [] + next == next;
    } else {
      assert (chunks + done)[..|chunks|] == chunks && (chunks + done)[|chunks|] == done[0];
      Associate(EncodeChunks(chunks), EncodeChunk(done[0]), next);
    }
  }

  // ----- and the other way round

  lemma {:induction false} ChunksRun(chunks: seq<Chunk>)
    requires AllChunks(chunks)
    ensures var r := Scan(FRESH, EncodeChunks(chunks)); AtSizeLine(r.tracker) && r.verdict.Running?
  {
    hide Scan, EncodeChunk, WellFormedChunk;
    if chunks == [] {
      ScanEmpty(FRESH);
    } else {
      var k := |chunks| - 1;
      ChunksRun(chunks[..k]);
      ScanChunk(Scan(FRESH, EncodeChunks(chunks[..k])).tracker, chunks[k]);
      ScanConcat(FRESH, EncodeChunks(chunks[..k]), EncodeChunk(chunks[k]));
    }
  }

  lemma {:induction false} LineRuns(t: Tracker, line: Bytes, k: nat)
    requires t.phase.ReadingSize? && k <= |line| && t.line == line[..k]
    requires |line| <= MAX_BUFFERED && Index(line, CRLF) == -1
    ensures Scan(t, line[k..]).verdict.Running?
    decreases |line| - k
  {
    hide Index, SizeOf, Scan;
    if k == |line| {
      ScanEmpty(t);
      assert line[k..] == [];
    } else {
      TakeDrop(line, k + 1);
      NoneInPrefix(line[..k + 1], line[k + 1..], CRLF);
      assert line[k..][1..] == line[k + 1..] && t.line + [line[k]] == line[..k + 1];
      ScanCons(t, line[k..]);
      LineRuns(t.(line := line[..k + 1]), line, k + 1);
    }
  }

  lemma {:induction false} TrailersRun(t: Tracker, trailers: Bytes, k: nat)
    requires t.phase.ReadingTrailers? && k <= |trailers| && t.trailers == trailers[..k]
    requires |trailers| <= MAX_BUFFERED && TrailersOpen(trailers)
    ensures Scan(t, trailers[k..]).verdict.Running?
    decreases |trailers| - k
  {
    hide TrailersEnd, Scan;
    if k == |trailers| {
      ScanEmpty(t);
      assert trailers[k..] == [];
    } else {
      assert trailers[k..][1..] == trailers[k + 1..] && t.trailers + [trailers[k]] == trailers[..k + 1];
      ScanCons(t, trailers[k..]);
      TrailersRun(t.(trailers := trailers[..k + 1]), trailers, k + 1);
    }
  }

  lemma ChunkRuns(t: Tracker, size: nat, data: Bytes, lineEnd: Bytes)
    requires t.phase.ReadingData? && t.dataRemaining == size > 0
    requires |data| <= size && (lineEnd == [] || (|data| == size && lineEnd == [CR]))
    ensures Scan(t, data + lineEnd).verdict.Running?
  {
    if data == [] {
      assert data + lineEnd == [];
    } else {
      ScanData(t, data);
      ScanConcat(t, data, lineEnd);
      hide Scan;
      var next := Skip(t, |data|);
      ScanEmpty(next);
      if lineEnd == [CR] {
        ScanCons(next, lineEnd);
        assert lineEnd[1..] == [];
        ScanEmpty(Step(next, CR).tracker);
      }
    }
  }

  lemma TailRuns(t: Tracker, tail: Tail)
    requires AtSizeLine(t) && ValidTail(tail)
    ensures Scan(t, TailText(tail)).verdict.Running?
  {
    hide Scan, SizeLine, TrailersOpen, Index;
    match tail {
      case InLine(line) =>
        assert line[0..] == line && line[..0] == [];
        LineRuns(t, line, 0);
      case InChunk(line, size, data, lineEnd) =>
        assert line[0..] == line && line + data + lineEnd == line + (data + lineEnd);
        LineLength(line, size);
        ScanLine(t, line, size, 0);
        ChunkRuns(Scan(t, line).tracker, size, data, lineEnd);
        ScanConcat(t, line, data + lineEnd);
      case InTrailers(line, trailers) =>
        assert line[0..] == line && trailers[0..] == trailers && trailers[..0] == [];
        LineLength(line, 0);
        ScanLine(t, line, 0, 0);
        TrailersRun(Scan(t, line).tracker, trailers, 0);
        ScanConcat(t, line, trailers);
    }
  }

  lemma LineLength(line: Bytes, size: nat)
    requires SizeLine(line, size)
    ensures |line| >= 2
  {
  }

  /** The tracker waits exactly inside an unfinished body, and refuses exactly what is neither that nor a body. */
  lemma VerdictsMean(data: Bytes)
    ensures var verdict := Scan(FRESH, data).verdict;
            && (verdict.Running? <==> IsOpen(data))
            && (verdict.Finished? <==> StartsWithBody(data))
            && (verdict.Malformed? <==> !IsOpen(data) && !StartsWithBody(data))
  {
    hide Scan, ValidTail, AllChunks, EncodeChunks, TailText, WellFormed, EncodeFrom;
    if Scan(FRESH, data).verdict.Running? {
      var chunks, tail := RunningIsOpen(data);
    }
    if IsOpen(data) {
      var chunks, tail :| AllChunks(chunks) && ValidTail(tail) && data == EncodeChunks(chunks) + TailText(tail);
      ChunksRun(chunks);
      TailRuns(Scan(FRESH, EncodeChunks(chunks)).tracker, tail);
      ScanConcat(FRESH, EncodeChunks(chunks), TailText(tail));
    }
    if Scan(FRESH, data).verdict.Finished? {
      var body := FinishedIsBody(FRESH, data);
      assert IsBody(data[..Scan(FRESH, data).consumed]);
    }
    if StartsWithBody(data) {
      var n :| 0 <= n <= |data| && IsBody(data[..n]);
      var body :| WellFormed(body) && EncodeFrom(body) == data[..n];
      TakeDrop(data, n);
      ChunkedExactness(body, data[n..]);
    }
  }
}
