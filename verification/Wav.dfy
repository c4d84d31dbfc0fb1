// The RIFF/WAVE reader and writer for mono 16-bit PCM (examples/realtime-openai-go/wav.go), on byte sequences.
module Wav {
  import opened Bytes

  const MAX_INPUT: nat := 0xF0_0000
  const MAX_FILE: nat := 0x100_0000
  const MAX_OUTPUT: nat := 0x400_0000
  const SAMPLE_RATE: nat := 24000
  const BYTES_PER_SAMPLE: nat := 2

  const RIFF: Bytes := [82, 73, 70, 70]
  const WAVE: Bytes := [87, 65, 86, 69]
  const FMT: Bytes := [102, 109, 116, 32]
  const DATA: Bytes := [100, 97, 116, 97]

  datatype Error =
    | TooLarge | NotWave | BadChunkSize | ShortFormat | TooMuchData | NoFormat | NotPcm | NotMono | WrongRate
    | WrongWidth | Empty | IncompleteSample

  datatype Result = Ok(pcm: Bytes) | Err(error: Error)

  // ----- little-endian numbers

  function Low(n: nat): Byte {
    n % 256
  }

  function Print16(n: nat): Bytes {
    [Low(n), Low(n / 256)]
  }

  function Print32(n: nat): Bytes {
    [Low(n), Low(n / 256), Low(n / 0x1_0000), Low(n / 0x100_0000)]
  }

  function Read16(s: Bytes): nat
    requires |s| == 2
  {
    (s[0] as int) + 256 * (s[1] as int)
  }

  function Read32(s: Bytes): (n: nat)
    requires |s| == 4
    ensures n < 0x1_0000_0000
  {
    (s[0] as int) + 256 * (s[1] as int) + 0x1_0000 * (s[2] as int) + 0x100_0000 * (s[3] as int)
  }

  lemma ReadPrinted16(n: nat)
    requires n < 0x1_0000
    ensures Read16(Print16(n)) == n
  {
  }

  lemma ReadPrinted32(n: nat)
    requires n < 0x1_0000_0000
    ensures Read32(Print32(n)) == n
  {
    var a, b, c := n / 256, n / 0x1_0000, n / 0x100_0000;
    assert a / 256 == b && b / 256 == c && c < 256;
  }

  // ----- what the chunk walk has seen

  datatype Format = Format(audio: nat, channels: nat, rate: nat, bits: nat)

  datatype Walk = Walk(format: Option<Format>, pcm: Bytes)

  datatype Walked = Done(walk: Walk) | Bad(error: Error)

  function FormatOf(body: Bytes): Format
    requires |body| >= 16
  {
    Format(Read16(body[..2]), Read16(body[2..4]), Read32(body[4..8]), Read16(body[14..16]))
  }

  /** One chunk. */
  function Visit(w: Walk, id: Bytes, body: Bytes): Walked {
    if id == FMT then
      if |body| < 16 then Bad(ShortFormat) else Done(w.(format := Some(FormatOf(body))))
    else if id == DATA then
      if |w.pcm| + |body| > MAX_INPUT then Bad(TooMuchData) else Done(w.(pcm := w.pcm + body))
    else Done(w)
  }

  /** Where the next chunk starts, the padding byte included. */
  function NextOffset(size: nat): (n: nat)
    ensures n >= 8 + size
  {
    8 + size + size % 2
  }

  /** The walk over the chunks of what is left of the file; a last chunk may lack its padding. */
  function Chunks(w: Walk, rest: Bytes): Walked
    decreases |rest|
  {
    if |rest| < 8 then Done(w)
    else
      var size := Read32(rest[4..8]);
      if 8 + size > |rest| then Bad(BadChunkSize)
      else
        match Visit(w, rest[..4], rest[8..8 + size])
        case Bad(error) => Bad(error)
        case Done(w') => if NextOffset(size) >= |rest| then Done(w') else Chunks(w', rest[NextOffset(size)..])
  }

  function Judge(w: Walk): Result {
    if w.format == None then Err(NoFormat)
    else
      var f := w.format.value;
      if f.audio != 1 then Err(NotPcm)
      else if f.channels != 1 then Err(NotMono)
      else if f.rate != SAMPLE_RATE then Err(WrongRate)
      else if f.bits != 16 then Err(WrongWidth)
      else if w.pcm == [] then Err(Empty)
      else if |w.pcm| % BYTES_PER_SAMPLE != 0 then Err(IncompleteSample)
      else Ok(w.pcm)
  }

  function Verdict(walked: Walked): Result {
    match walked
    case Bad(error) => Err(error)
    case Done(w) => Judge(w)
  }

  function Decode(file: Bytes): Result {
    if |file| > MAX_FILE then Err(TooLarge)
    else if |file| < 12 || file[..4] != RIFF || file[8..12] != WAVE then Err(NotWave)
    else Verdict(Chunks(Walk(None, []), file[12..]))
  }

  // ----- what the writer prints

  function Chunk(id: Bytes, body: Bytes): Bytes {
    id + Print32(|body|) + body
  }

  const FORMAT_BODY: Bytes :=
    Print16(1) + Print16(1) + Print32(SAMPLE_RATE) + Print32(SAMPLE_RATE * BYTES_PER_SAMPLE) +
      Print16(BYTES_PER_SAMPLE) + Print16(16)

  function Encode(pcm: Bytes): Bytes {
    RIFF + Print32(36 + |pcm|) + WAVE + Chunk(FMT, FORMAT_BODY) + Chunk(DATA, pcm)
  }

  // ----- files as lists of chunks

  datatype Piece = Piece(id: Bytes, body: Bytes)

  predicate Sound(p: Piece) {
    |p.id| == 4 && |p.body| < 0x1_0000_0000
  }

  function Padding(p: Piece): Bytes {
    if |p.body| % 2 == 1 then [0] else []
  }

  function Layout(pieces: seq<Piece>): Bytes {
    if pieces == [] then [] else Chunk(pieces[0].id, pieces[0].body) + Padding(pieces[0]) + Layout(pieces[1..])
  }

  function VisitAll(w: Walk, pieces: seq<Piece>): Walked
    decreases |pieces|
  {
    if pieces == [] then Done(w)
    else
      match Visit(w, pieces[0].id, pieces[0].body)
      case Bad(error) => Bad(error)
      case Done(w') => VisitAll(w', pieces[1..])
  }

  lemma ChunkParts(id: Bytes, body: Bytes, tail: Bytes)
    requires |id| == 4 && |body| < 0x1_0000_0000
    ensures var rest := Chunk(id, body) + tail;
            |rest| == 8 + |body| + |tail| && rest[..4] == id && Read32(rest[4..8]) == |body| &&
            rest[8..8 + |body|] == body && rest[8 + |body|..] == tail
  {
    ReadPrinted32(|body|);
    hide Print32, Read32;
    var size := Print32(|body|);
    assert |size| == 4 by { Print32Length(|body|); }
    var rest := id + size + body + tail;
    assert rest[4..8] == size;
    assert rest[..4] == id;
    assert rest[8..8 + |body|] == body;
    assert rest[8 + |body|..] == tail;
  }

  lemma Print32Length(n: nat)
    ensures |Print32(n)| == 4
  {
  }

  /** One chunk of a laid-out file. */
  lemma ChunksStep(w: Walk, p: Piece, tail: Bytes)
    requires Sound(p)
    ensures var visited := Visit(w, p.id, p.body);
            Chunks(w, Chunk(p.id, p.body) + Padding(p) + tail) == if visited.Bad? then visited
            else Chunks(visited.walk, tail)
  {
    hide Visit, Read32, Chunk;
    var padded := Padding(p) + tail;
    var rest := Chunk(p.id, p.body) + padded;
    assert Chunk(p.id, p.body) + Padding(p) + tail == rest;
    ChunkParts(p.id, p.body, padded);
    if NextOffset(|p.body|) < |rest| {
      assert rest[NextOffset(|p.body|)..] == tail by { DropThenDrop(rest, 8 + |p.body|, |Padding(p)|); }
    } else {
      assert tail == [];
    }
  }

  /** The walk of a laid-out file visits its chunks one after the other. */
  lemma {:induction false} LayoutWalk(w: Walk, pieces: seq<Piece>)
    requires forall i :: 0 <= i < |pieces| ==> Sound(pieces[i])
    ensures Chunks(w, Layout(pieces)) == VisitAll(w, pieces)
    decreases |pieces|
  {
    hide Visit, Chunk;
    if pieces != [] {
      ChunksStep(w, pieces[0], Layout(pieces[1..]));
      hide Chunks;
      var visited := Visit(w, pieces[0].id, pieces[0].body);
      if visited.Done? { LayoutWalk(visited.walk, pieces[1..]); }
    }
  }

  predicate Unknown(p: Piece) {
    p.id != FMT && p.id != DATA
  }

  function File(size: Bytes, pieces: seq<Piece>): Bytes {
    RIFF + size + WAVE + Layout(pieces)
  }

  lemma DecodeFile(size: Bytes, pieces: seq<Piece>)
    requires |size| == 4 && |File(size, pieces)| <= MAX_FILE && forall i :: 0 <= i < |pieces| ==> Sound(pieces[i])
    ensures Decode(File(size, pieces)) == Verdict(VisitAll(Walk(None, []), pieces))
  {
    hide Chunks, VisitAll, Judge, Layout;
    var file := File(size, pieces);
    assert file[..4] == RIFF && file[8..12] == WAVE && file[12..] == Layout(pieces);
    LayoutWalk(Walk(None, []), pieces);
  }

  /** The chunks the reader knows. */
  function Known(pieces: seq<Piece>): seq<Piece> {
    if pieces == [] then [] else (if Unknown(pieces[0]) then [] else [pieces[0]]) + Known(pieces[1..])
  }

  lemma {:induction false} UnknownChangesNothing(w: Walk, pieces: seq<Piece>)
    ensures VisitAll(w, pieces) == VisitAll(w, Known(pieces))
    decreases |pieces|
  {
    if pieces != [] {
      var rest := Known(pieces[1..]);
      if Unknown(pieces[0]) {
        assert [] + rest == rest;
        UnknownChangesNothing(w, pieces[1..]);
      } else {
        assert ([pieces[0]] + rest)[1..] == rest;
        var visited := Visit(w, pieces[0].id, pieces[0].body);
        if visited.Done? { UnknownChangesNothing(visited.walk, pieces[1..]); }
      }
    }
  }

  /** Two files within the size limit with the same known chunks in the same order read the same: unknown
      chunks, of odd size too, may stand anywhere, and the size in the header does not matter. */
  lemma {:induction false} UnknownChunksIgnored(size: Bytes, pieces: seq<Piece>, size': Bytes, pieces': seq<Piece>)
    requires |size| == 4 && |File(size, pieces)| <= MAX_FILE && forall i :: 0 <= i < |pieces| ==> Sound(pieces[i])
    requires |size'| == 4 && |File(size', pieces')| <= MAX_FILE && forall i :: 0 <= i < |pieces'| ==> Sound(pieces'[i])
    requires Known(pieces) == Known(pieces')
    ensures Decode(File(size, pieces)) == Decode(File(size', pieces'))
  {
    hide Decode, File, VisitAll, Judge, Known;
    DecodeFile(size, pieces);
    DecodeFile(size', pieces');
    UnknownChangesNothing(Walk(None, []), pieces);
    UnknownChangesNothing(Walk(None, []), pieces');
  }

  function Written(pcm: Bytes): seq<Piece> {
    [Piece(FMT, FORMAT_BODY), Piece(DATA, pcm)]
  }

  lemma EncodeIsFile(pcm: Bytes)
    requires |pcm| % 2 == 0
    ensures Encode(pcm) == File(Print32(36 + |pcm|), Written(pcm)) && |Encode(pcm)| == 44 + |pcm|
  {
    hide Print32, Print16;
    FormatLength();
    Print32Length(36 + |pcm|);
    Print32Length(16);
    Print32Length(|pcm|);
    var f, d := Piece(FMT, FORMAT_BODY), Piece(DATA, pcm);
    assert Written(pcm)[1..] == [d] && [d][1..] == [];
    assert Layout([d]) == Chunk(DATA, pcm) + [] + [];
    assert Layout(Written(pcm)) == Chunk(FMT, FORMAT_BODY) + [] + Layout([d]);
  }

  lemma FormatLength()
    ensures |FORMAT_BODY| == 16
  {
  }

  lemma FormatRead()
    ensures FormatOf(FORMAT_BODY) == Format(1, 1, SAMPLE_RATE, 16)
  {
    FormatLength();
    ReadPrinted16(1);
    ReadPrinted16(16);
    ReadPrinted32(SAMPLE_RATE);
    hide Print16, Print32, Read16, Read32;
    var b := FORMAT_BODY;
    assert b[..2] == Print16(1) && b[2..4] == Print16(1) && b[4..8] == Print32(SAMPLE_RATE) && b[14..16] == Print16(16);
  }

  lemma {:induction false} WalkBounds(w: Walk, rest: Bytes)
    requires |w.pcm| <= MAX_INPUT
    ensures Chunks(w, rest).Done? ==> |Chunks(w, rest).walk.pcm| <= MAX_INPUT
    decreases |rest|
  {
    if |rest| >= 8 {
      var size := Read32(rest[4..8]);
      if 8 + size <= |rest| {
        var visited := Visit(w, rest[..4], rest[8..8 + size]);
        if visited.Done? && NextOffset(size) < |rest| {
          WalkBounds(visited.walk, rest[NextOffset(size)..]);
        }
      }
    }
  }

  /** Whatever the file, accepted data is not empty, within the limit and made of whole samples. */
  lemma DecodeBounds(file: Bytes)
    ensures Decode(file).Ok? ==> 0 < |Decode(file).pcm| <= MAX_INPUT && |Decode(file).pcm| % BYTES_PER_SAMPLE == 0
  {
    hide Chunks;
    if |file| >= 12 { WalkBounds(Walk(None, []), file[12..]); }
  }

  /** Reading the written form of PCM data returns it exactly when the data is not empty, not above the
      input limit and made of whole samples. */
  lemma RoundTrip(pcm: Bytes)
    ensures Decode(Encode(pcm)) == Ok(pcm) <==> 0 < |pcm| <= MAX_INPUT && |pcm| % BYTES_PER_SAMPLE == 0
  {
    hide Encode, Decode;
    DecodeBounds(Encode(pcm));
    if 0 < |pcm| <= MAX_INPUT && |pcm| % BYTES_PER_SAMPLE == 0 { WrittenReadsBack(pcm); }
  }

  lemma WrittenReadsBack(pcm: Bytes)
    requires 0 < |pcm| <= MAX_INPUT && |pcm| % 2 == 0
    ensures Decode(Encode(pcm)) == Ok(pcm)
  {
    EncodeIsFile(pcm);
    FormatLength();
    FormatRead();
    Print32Length(36 + |pcm|);
    hide Encode, File, FormatOf, Layout, Print32, Print16, FORMAT_BODY;
    DecodeFile(Print32(36 + |pcm|), Written(pcm));
    hide Decode;
    WrittenWalk(pcm);
  }

  lemma WrittenWalk(pcm: Bytes)
    requires |pcm| <= MAX_INPUT
    ensures VisitAll(Walk(None, []), Written(pcm)) == Done(Walk(Some(Format(1, 1, SAMPLE_RATE, 16)), pcm))
  {
    FormatLength();
    FormatRead();
    hide FormatOf, FORMAT_BODY;
    var d := Piece(DATA, pcm);
    assert Written(pcm)[1..] == [d] && [d][1..] == [];
    assert [] + pcm == pcm;
    var w := Walk(Some(Format(1, 1, SAMPLE_RATE, 16)), []);
    assert Visit(w, DATA, pcm) == Done(Walk(w.format, pcm));
    assert VisitAll(Walk(w.format, pcm), []) == Done(Walk(w.format, pcm));
    assert VisitAll(w, [d]) == Done(Walk(w.format, pcm));
    assert Visit(Walk(None, []), FMT, FORMAT_BODY) == Done(w);
  }

  // ----- what is accepted and what is written, in terms of bytes

  /** The bodies of the data chunks, one after the other. */
  function DataOf(pieces: seq<Piece>): Bytes {
    if pieces == [] then [] else (if pieces[0].id == Ascii("data") then pieces[0].body else []) + DataOf(pieces[1..])
  }

  /** The body of the last format chunk. */
  function LastFormat(pieces: seq<Piece>): Option<Bytes> {
    if pieces == [] then None
    else if LastFormat(pieces[1..]).Some? then LastFormat(pieces[1..])
    else if pieces[0].id == Ascii("fmt ") then Some(pieces[0].body)
    else None
  }

  predicate FormatsWhole(pieces: seq<Piece>) {
    pieces == [] || ((pieces[0].id == Ascii("fmt ") ==> |pieces[0].body| >= 16) && FormatsWhole(pieces[1..]))
  }

  /** PCM, one channel, 24000 samples a second, 16 bits. */
  predicate IsPcm(body: Bytes) {
    && |body| >= 16 && body[..2] == [1, 0] && body[2..4] == [1, 0] && body[4..8] == [192, 93, 0, 0]
    && body[14..16] == [16, 0]
  }

  lemma FormatBytes(body: Bytes)
    requires |body| >= 16
    ensures IsPcm(body) <==> FormatOf(body) == Format(1, 1, SAMPLE_RATE, 16)
  {
    assert body[..2] == [body[0], body[1]] && body[2..4] == [body[2], body[3]];
    assert body[4..8] == [body[4], body[5], body[6], body[7]] && body[14..16] == [body[14], body[15]];
  }

  lemma Names()
    ensures FMT == Ascii("fmt ") && DATA == Ascii("data") && RIFF == Ascii("RIFF") && WAVE == Ascii("WAVE")
    ensures FMT != DATA
  {
    assert FMT[0] != DATA[0];
  }

  lemma OneVisit(w: Walk, p: Piece)
    ensures var visited := Visit(w, p.id, p.body);
            && (visited.Done? <==> (p.id == Ascii("fmt ") ==> |p.body| >= 16) &&
                                   (p.id == Ascii("data") ==> |w.pcm| + |p.body| <= MAX_INPUT))
            && (visited.Done? ==> visited.walk.pcm == w.pcm + if p.id == Ascii("data") then p.body else [])
            && (visited.Done? ==>
                  visited.walk.format == if p.id == Ascii("fmt ") then Some(FormatOf(p.body)) else w.format)
  {
    hide FormatOf;
    Names();
    assert w.pcm + [] == w.pcm;
  }

  /** The walk keeps the last format and collects the data, unless a format is short or the data too long. */
  lemma {:induction false} WalkSees(w: Walk, pieces: seq<Piece>)
    requires |w.pcm| <= MAX_INPUT
    ensures FormatsWhole(pieces) && LastFormat(pieces).Some? ==> |LastFormat(pieces).value| >= 16
    ensures var r := VisitAll(w, pieces);
            && (r.Done? <==> FormatsWhole(pieces) && |w.pcm| + |DataOf(pieces)| <= MAX_INPUT)
            && (r.Done? ==> r.walk.pcm == w.pcm + DataOf(pieces))
            && (r.Done? ==> r.walk.format == if LastFormat(pieces).Some? then Some(FormatOf(LastFormat(pieces).value))
                                             else w.format)
    decreases |pieces|
  {
    hide FormatOf, Visit;
    if pieces == [] {
      assert w.pcm + [] == w.pcm;
    } else {
      var p := pieces[0];
      OneVisit(w, p);
      var visited := Visit(w, p.id, p.body);
      if visited.Done? {
        WalkSees(visited.walk, pieces[1..]);
        Associate(w.pcm, if p.id == Ascii("data") then p.body else [], DataOf(pieces[1..]));
      } else {
        WalkSees(w, pieces[1..]);
      }
    }
  }

  /** A file of chunks is read exactly when every format chunk is whole, the last one says 24 kHz mono PCM of 16
      bits, and the data chunks together hold a number of whole samples within the limit; they are the result. */
  lemma AcceptedExactly(size: Bytes, pieces: seq<Piece>, pcm: Bytes)
    requires |size| == 4 && |File(size, pieces)| <= MAX_FILE && forall i :: 0 <= i < |pieces| ==> Sound(pieces[i])
    ensures Decode(File(size, pieces)) == Ok(pcm) <==>
              && FormatsWhole(pieces) && LastFormat(pieces).Some? && IsPcm(LastFormat(pieces).value)
              && pcm == DataOf(pieces) && 0 < |pcm| <= MAX_INPUT && |pcm| % 2 == 0
  {
    hide FormatOf, VisitAll, Decode, File, DataOf, LastFormat, FormatsWhole, IsPcm;
    DecodeFile(size, pieces);
    WalkSees(Walk(None, []), pieces);
    assert [] + DataOf(pieces) == DataOf(pieces);
    if FormatsWhole(pieces) && LastFormat(pieces).Some? { FormatBytes(LastFormat(pieces).value); }
  }

  /** The 44 bytes in front of the data, as they are in the file. */
  lemma WrittenBytes(pcm: Bytes)
    requires |pcm| <= MAX_OUTPUT
    ensures var file := Encode(pcm);
            && |file| == 44 + |pcm| && file[..4] == Ascii("RIFF") && Read32(file[4..8]) == |file| - 8
            && file[8..16] == Ascii("WAVEfmt ") && file[16..24] == [16, 0, 0, 0, 1, 0, 1, 0]
            && file[24..36] == [192, 93, 0, 0, 128, 187, 0, 0, 2, 0, 16, 0] && file[36..40] == Ascii("data")
            && Read32(file[40..44]) == |pcm| && file[44..] == pcm
  {
    Names();
    var total, length := Print32(36 + |pcm|), Print32(|pcm|);
    ReadPrinted32(36 + |pcm|);
    ReadPrinted32(|pcm|);
    FormatLiteral();
    Print32Length(36 + |pcm|);
    Print32Length(|pcm|);
    hide Print32, Print16, Read32;
    var file := RIFF + total + WAVE + (FMT + [16, 0, 0, 0] + FORMAT_BODY) + (DATA + length + pcm);
    assert file == Encode(pcm);
    assert file[4..8] == total && file[40..44] == length && file[44..] == pcm;
    assert file[8..16] == WAVE + FMT;
    assert file[16..24] == [16, 0, 0, 0] + FORMAT_BODY[..4];
    assert file[24..36] == FORMAT_BODY[4..];
    assert WAVE + FMT == Ascii("WAVEfmt ");
  }

  lemma FormatLiteral()
    ensures FORMAT_BODY == [1, 0, 1, 0, 192, 93, 0, 0, 128, 187, 0, 0, 2, 0, 16, 0] && Print32(16) == [16, 0, 0, 0]
  {
  }

  // ----- the reader and the writer

  method ReadPcm(file: Bytes) returns (r: Result)
    ensures r == Decode(file)
  {
    hide Read32, Visit, Judge;
    if |file| > MAX_FILE { return Err(TooLarge); }
    if |file| < 12 || file[..4] != RIFF || file[8..12] != WAVE { return Err(NotWave); }
    var format, pcm := None, [];
    var offset := 12;
    while offset + 8 <= |file|
      invariant 12 <= offset <= |file| + 1
      invariant Chunks(Walk(None, []), file[12..]) ==
                if offset <= |file| then Chunks(Walk(format, pcm), file[offset..]) else Done(Walk(format, pcm))
    {
      ghost var w, rest := Walk(format, pcm), file[offset..];
      var chunkId, chunkSize := file[offset..offset + 4], Read32(file[offset + 4..offset + 8]);
      var chunkStart := offset + 8;
      var chunkEnd := chunkStart + chunkSize;
      ChunkSlices(file, offset, chunkSize);
      if chunkEnd > |file| { return Err(BadChunkSize); }
      var body := file[chunkStart..chunkEnd];
      VisitCases(w, chunkId, body);
      if chunkId == FMT {
        if chunkSize < 16 { return Err(ShortFormat); }
        format := Some(FormatOf(body));
      } else if chunkId == DATA {
        if |pcm| + chunkSize > MAX_INPUT { return Err(TooMuchData); }
        pcm := pcm + body;
      }
      offset := chunkEnd;
      if chunkSize % 2 != 0 { offset := offset + 1; }
      if offset < |file| { DropThenDrop(file, chunkEnd - 8 - chunkSize, NextOffset(chunkSize)); }
      WalkEnds(Walk(format, pcm));
      if offset == |file| { assert file[offset..] == []; }
    }
    if offset <= |file| { ShortTail(Walk(format, pcm), file[offset..]); }
    JudgeCases(Walk(format, pcm));
    if format == None { return Err(NoFormat); }
    var f := format.value;
    if f.audio != 1 { return Err(NotPcm); }
    if f.channels != 1 { return Err(NotMono); }
    if f.rate != SAMPLE_RATE { return Err(WrongRate); }
    if f.bits != 16 { return Err(WrongWidth); }
    if |pcm| == 0 { return Err(Empty); }
    if |pcm| % BYTES_PER_SAMPLE != 0 { return Err(IncompleteSample); }
    return Ok(pcm);
  }

  lemma ChunkSlices(file: Bytes, offset: nat, size: nat)
    requires offset + 8 <= |file|
    ensures var rest := file[offset..];
            && rest[..4] == file[offset..offset + 4] && rest[4..8] == file[offset + 4..offset + 8]
            && (offset + 8 + size <= |file| ==> rest[8..8 + size] == file[offset + 8..offset + 8 + size])
  {
  }

  lemma VisitCases(w: Walk, id: Bytes, body: Bytes)
    ensures Visit(w, id, body) ==
            if id == FMT then (if |body| < 16 then Bad(ShortFormat) else Done(Walk(Some(FormatOf(body)), w.pcm)))
            else if id == DATA
            then (if |w.pcm| + |body| > MAX_INPUT then Bad(TooMuchData) else Done(Walk(w.format, w.pcm + body)))
            else Done(w)
  {
  }

  lemma WalkEnds(w: Walk)
    ensures Chunks(w, []) == Done(w)
  {
  }

  lemma ShortTail(w: Walk, rest: Bytes)
    requires |rest| < 8
    ensures Chunks(w, rest) == Done(w)
  {
  }

  lemma JudgeCases(w: Walk)
    ensures Judge(w) ==
            if w.format == None then Err(NoFormat)
            else if w.format.value.audio != 1 then Err(NotPcm)
            else if w.format.value.channels != 1 then Err(NotMono)
            else if w.format.value.rate != SAMPLE_RATE then Err(WrongRate)
            else if w.format.value.bits != 16 then Err(WrongWidth)
            else if |w.pcm| == 0 then Err(Empty)
            else if |w.pcm| % BYTES_PER_SAMPLE != 0 then Err(IncompleteSample)
            else Ok(w.pcm)
  {
  }

  datatype Output = File(payload: Bytes) | Refused(error: Error)

  method WritePcm(pcm: Bytes) returns (r: Output)
    ensures r == if |pcm| == 0 then Refused(Empty)
                 else if |pcm| > MAX_OUTPUT then Refused(TooMuchData)
                 else if |pcm| % BYTES_PER_SAMPLE != 0 then Refused(IncompleteSample)
                 else Output.File(Encode(pcm))
  {
    if |pcm| == 0 { return Refused(Empty); }
    if |pcm| > MAX_OUTPUT { return Refused(TooMuchData); }
    if |pcm| % BYTES_PER_SAMPLE != 0 { return Refused(IncompleteSample); }
    hide Print32, Print16;
    var payload := RIFF;
    payload := payload + Print32(36 + |pcm|);
    payload := payload + (WAVE + FMT);
    payload := payload + Print32(16);
    payload := payload + Print16(1);
    payload := payload + Print16(1);
    payload := payload + Print32(SAMPLE_RATE);
    payload := payload + Print32(SAMPLE_RATE * BYTES_PER_SAMPLE);
    payload := payload + Print16(BYTES_PER_SAMPLE);
    payload := payload + Print16(16);
    payload := payload + DATA;
    payload := payload + Print32(|pcm|);
    payload := payload + pcm;
    FormatLength();
    assert payload == Encode(pcm);
    return Output.File(payload);
  }
}
