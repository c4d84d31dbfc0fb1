// The tracker that finds where a chunked request body ends
// (chunkedRequestTracker in internal/httpwire/ordered_conn.go).
module ChunkedTracker {
  import opened Bytes

  const MAX_BUFFERED: nat := 0x10_0000

  datatype Phase = ReadingSize | ReadingData | ReadingDataCrlf | ReadingTrailers

  datatype Tracker = Tracker(phase: Phase, line: Bytes, dataRemaining: nat, crlfPosition: nat, trailers: Bytes)

  const FRESH := Tracker(ReadingSize, [], 0, 0, [])

  predicate Valid(t: Tracker) {
    && (t.phase.ReadingData? ==> t.dataRemaining > 0)
    && (t.phase.ReadingDataCrlf? ==> t.crlfPosition < 2)
  }

  datatype Verdict = Running | Finished | Malformed

  /** Tracker left behind, bytes consumed, and how the scan ended. */
  datatype Scanned = Scanned(tracker: Tracker, consumed: nat, verdict: Verdict)

  /** The chunk size a complete size line announces; None when it is not a size. */
  function SizeOf(line: Bytes): (size: Option<nat>) {
    var text := Trim(line);
    var extension := Index(text, [SEMICOLON]);
    var sizeText := if extension >= 0 then Trim(text[..extension]) else text;
    match ParseInt(sizeText, 16)
    case None => None
    case Some(size) => if size < 0 then None else Some(size)
  }

  predicate TrailersEnd(trailers: Bytes) {
    trailers == CRLF || EndsWith(trailers, BLANK_LINE)
  }

  /** One byte. `consumed` is 0 only when the byte is refused without being taken. */
  function Step(t: Tracker, b: Byte): (r: Scanned)
    requires Valid(t)
    ensures Valid(r.tracker) && r.consumed <= 1
    ensures !r.verdict.Malformed? ==> r.consumed == 1
  {
    match t.phase
    case ReadingSize =>
      var line := t.line + [b];
      var grown := t.(line := line);
      if |line| > MAX_BUFFERED then Scanned(grown, 1, Malformed)
      else if !EndsWith(line, CRLF) then Scanned(grown, 1, Running)
      else (
        match SizeOf(line[..|line| - 2])
        case None => Scanned(grown, 1, Malformed)
        case Some(size) =>
          if size == 0 then Scanned(t.(line := [], phase := ReadingTrailers), 1, Running)
          else Scanned(t.(line := [], dataRemaining := size, phase := ReadingData), 1, Running)
      )
    case ReadingData => Scanned(Skip(t, 1), 1, Running)
    case ReadingDataCrlf =>
      if b != CRLF[t.crlfPosition] then Scanned(t, 0, Malformed)
      else
        var next := t.(crlfPosition := t.crlfPosition + 1);
        Scanned(if next.crlfPosition == 2 then next.(phase := ReadingSize) else next, 1, Running)
    case ReadingTrailers =>
      var grown := t.(trailers := t.trailers + [b]);
      if |grown.trailers| > MAX_BUFFERED then Scanned(grown, 1, Malformed)
      else if TrailersEnd(grown.trailers) then Scanned(grown, 1, Finished)
      else Scanned(grown, 1, Running)
  }

  /** `n` data bytes at once. */
  function Skip(t: Tracker, n: nat): (r: Tracker)
    requires t.phase.ReadingData? && 0 < n <= t.dataRemaining
    ensures Valid(r)
  {
    if n == t.dataRemaining then t.(dataRemaining := 0, crlfPosition := 0, phase := ReadingDataCrlf)
    else t.(dataRemaining := t.dataRemaining - n)
  }

  /** The byte-by-byte meaning of a scan: it stops at the end of the body or at the first fault. */
  function Scan(t: Tracker, data: Bytes): (r: Scanned)
    requires Valid(t)
    ensures Valid(r.tracker) && r.consumed <= |data|
    ensures r.verdict.Running? ==> r.consumed == |data|
    ensures data != [] && !r.verdict.Malformed? ==> r.consumed > 0
    decreases |data|
  {
    if data == [] then Scanned(t, 0, Running)
    else
      var first := Step(t, data[0]);
      if first.verdict.Running? then Later(Scan(first.tracker, data[1..]), 1) else first
  }

  function Later(r: Scanned, n: nat): Scanned {
    r.(consumed := n + r.consumed)
  }

  /** Consuming `a` and then `b` is consuming `a + b`, as long as `a` leaves the body unfinished. */
  lemma {:induction false} ScanConcat(t: Tracker, a: Bytes, b: Bytes)
    requires Valid(t)
    ensures Scan(t, a + b) ==
            if Scan(t, a).verdict.Running? then Later(Scan(Scan(t, a).tracker, b), |a|) else Scan(t, a)
    decreases |a|
  {
    hide Step;
    if a == [] {
      assert a + b == b;
    } else {
      assert (a + b)[0] == a[0] && (a + b)[1..] == a[1..] + b;
      ScanConcat(Step(t, a[0]).tracker, a[1..], b);
    }
  }

  lemma ScanCons(t: Tracker, data: Bytes)
    requires Valid(t) && data != []
    ensures var first := Step(t, data[0]);
            Scan(t, data) == if first.verdict.Running? then Later(Scan(first.tracker, data[1..]), 1) else first
  {
  }

  /** The first byte of a scan. */
  lemma ScanFirst(t: Tracker, data: Bytes, n: nat)
    requires Valid(t) && 0 < n <= |data|
    ensures var first := Step(t, data[0]);
            Scan(t, data[..n]) ==
            if first.verdict.Running? then Later(Scan(first.tracker, data[1..][..n - 1]), 1) else first
  {
    hide Step;
    assert data[..n][0] == data[0] && data[..n][1..] == data[1..][..n - 1];
  }

  lemma {:induction false} ScanData(t: Tracker, data: Bytes)
    requires t.phase.ReadingData? && 0 < |data| <= t.dataRemaining
    ensures Scan(t, data) == Scanned(Skip(t, |data|), |data|, Running)
    decreases |data|
  {
    if |data| > 1 { ScanData(Skip(t, 1), data[1..]); }
  }

  /** A strict prefix of what a scan consumed leaves it running. */
  lemma {:induction false} ScanPositive(t: Tracker, data: Bytes, n: nat)
    requires Valid(t) && n <= Scan(t, data).consumed
    ensures n < Scan(t, data).consumed ==> Scan(t, data[..n]).verdict.Running?
    ensures n == Scan(t, data).consumed && !Scan(t, data).verdict.Malformed? ==> Scan(t, data[..n]) == Scan(t, data)
    decreases n
  {
    hide Step;
    if n > 0 {
      var first := Step(t, data[0]);
      assert data[..n][0] == data[0] && data[..n][1..] == data[1..][..n - 1];
      if first.verdict.Running? { ScanPositive(first.tracker, data[1..], n - 1); }
    } else {
      assert data[..n] == [];
    }
  }

  class ChunkTracker {
    var phase: Phase
    var line: Bytes
    var dataRemaining: nat
    var crlfPosition: nat
    var trailers: Bytes

    function Value(): Tracker
      reads this
    {
      Tracker(phase, line, dataRemaining, crlfPosition, trailers)
    }

    constructor ()
      ensures Value() == FRESH
    {
      phase, line, dataRemaining, crlfPosition, trailers := ReadingSize, [], 0, 0, [];
    }

    method Clone() returns (copy: ChunkTracker)
      ensures fresh(copy) && copy.Value() == Value()
    {
      copy := new ChunkTracker();
      copy.phase, copy.line, copy.dataRemaining := phase, line, dataRemaining;
      copy.crlfPosition, copy.trailers := crlfPosition, trailers;
    }

    /** The size-line case of the state switch. */
    method TakeSizeByte(b: Byte) returns (verdict: Verdict)
      requires phase.ReadingSize?
      modifies this
      ensures Scanned(Value(), 1, verdict) == Step(old(Value()), b)
    {
      hide SizeOf;
      line := line + [b];
      if |line| > MAX_BUFFERED { return Malformed; }
      if !EndsWith(line, CRLF) { return Running; }
      var size := SizeOf(line[..|line| - 2]);
      if size.None? { return Malformed; }
      line := [];
      if size.value == 0 {
        phase := ReadingTrailers;
        return Running;
      }
      dataRemaining := size.value;
      phase := ReadingData;
      return Running;
    }

    /** The case for the line end after the data of a chunk. */
    method TakeTerminatorByte(b: Byte) returns (n: nat, verdict: Verdict)
      requires phase.ReadingDataCrlf? && crlfPosition < 2
      modifies this
      ensures Scanned(Value(), n, verdict) == Step(old(Value()), b)
    {
      if b != CRLF[crlfPosition] { return 0, Malformed; }
      crlfPosition := crlfPosition + 1;
      if crlfPosition == 2 { phase := ReadingSize; }
      return 1, Running;
    }

    /** The trailer case. */
    method TakeTrailerByte(b: Byte) returns (verdict: Verdict)
      requires phase.ReadingTrailers?
      modifies this
      ensures Scanned(Value(), 1, verdict) == Step(old(Value()), b)
    {
      trailers := trailers + [b];
      if |trailers| > MAX_BUFFERED { return Malformed; }
      return if TrailersEnd(trailers) then Finished else Running;
    }

    /** The data case: as much of the chunk as `data` holds. */
    method TakeData(data: Bytes) returns (n: nat)
      requires Valid(Value()) && phase.ReadingData? && data != []
      modifies this
      ensures 0 < n <= |data| && Valid(Value())
      ensures Scan(old(Value()), data) == Later(Scan(Value(), data[n..]), n)
    {
      hide Step;
      n := if |data| < dataRemaining then |data| else dataRemaining;
      ScanData(Value(), data[..n]);
      ScanConcat(Value(), data[..n], data[n..]);
      assert data[..n] + data[n..] == data;
      dataRemaining := dataRemaining - n;
      if dataRemaining == 0 {
        crlfPosition := 0;
        phase := ReadingDataCrlf;
      }
    }

    /** Takes bytes until they run out, the body ends, or the framing is broken. */
    method Consume(data: Bytes) returns (consumed: nat, verdict: Verdict)
      requires Valid(Value())
      modifies this
      ensures Scanned(Value(), consumed, verdict) == Scan(old(Value()), data)
    {
      hide Step, SizeOf, TrailersEnd;
      consumed, verdict := 0, Running;
      while consumed < |data|
        invariant consumed <= |data| && Valid(Value()) && verdict.Running?
        invariant Scan(old(Value()), data) == Later(Scan(Value(), data[consumed..]), consumed)
      {
        assert data[consumed..][1..] == data[consumed + 1..];
        var n := 1;
        match phase {
          case ReadingSize => verdict := TakeSizeByte(data[consumed]);
          case ReadingDataCrlf => n, verdict := TakeTerminatorByte(data[consumed]);
          case ReadingTrailers => verdict := TakeTrailerByte(data[consumed]);
          case ReadingData =>
            n := TakeData(data[consumed..]);
            assert data[consumed..][n..] == data[consumed + n..];
        }
        consumed := consumed + n;
        if !verdict.Running? { return; }
      }
    }
  }
}
