// The RESP frames of the queue protocol (internal/api/redis_queue_protocol.go) and of the certificate
// exchange with Home (internal/home/certificate.go): readers over a byte stream, and printers.
module Resp {
  import opened Bytes

  datatype Error = Eof | Protocol | NoValue | ErrorReply | Panic

  datatype Outcome<+T> = Got(value: T) | Failed(error: Error)

  /** What a reader returns, and what it leaves in the stream. */
  datatype Read<+T> = Read(result: Outcome<T>, rest: Bytes)

  const STAR: Byte := 42
  const DOLLAR: Byte := 36
  const PLUS: Byte := 43
  const MINUS: Byte := 45

  // ----- what the readers accept

  function WithoutSuffix(line: Bytes, b: Byte): Bytes {
    if line != [] && line[|line| - 1] == b then line[..|line| - 1] else line
  }

  function LineIn(data: Bytes): Read<Bytes> {
    var i := Index(data, [LF]);
    if i < 0 then Read(Failed(Eof), []) else Read(Got(WithoutSuffix(data[..i], CR)), data[i + 1..])
  }

  /** io.ReadFull of a payload and the two bytes behind it. */
  function PayloadIn(data: Bytes, length: nat, checked: bool): Read<Bytes> {
    if length + 2 > MAX_INT64 then Read(Failed(Panic), data)
    else if |data| < length + 2 then Read(Failed(Eof), [])
    else if checked && data[length..length + 2] != CRLF then Read(Failed(Protocol), data[length + 2..])
    else Read(Got(data[..length]), data[length + 2..])
  }

  function BulkIn(data: Bytes): Read<Bytes> {
    var line := LineIn(data);
    if line.result.Failed? then line
    else
      match ParseInt(line.result.value, 10)
      case None => Read(Failed(Protocol), line.rest)
      case Some(length) => if length < 0 then Read(Got([]), line.rest) else PayloadIn(line.rest, length, true)
  }

  function StringIn(data: Bytes): Read<Bytes> {
    if data == [] then Read(Failed(Eof), [])
    else if data[0] == DOLLAR then BulkIn(data[1..])
    else if data[0] == PLUS || data[0] == COLON then LineIn(data[1..])
    else Read(Failed(Protocol), data[1..])
  }

  function ItemsIn(data: Bytes, count: nat): Read<seq<Bytes>>
    decreases count
  {
    if count == 0 then Read(Got([]), data)
    else
      var first := StringIn(data);
      if first.result.Failed? then Read(Failed(first.result.error), first.rest)
      else Prepended([first.result.value], ItemsIn(first.rest, count - 1))
  }

  function Prepended(args: seq<Bytes>, later: Read<seq<Bytes>>): Read<seq<Bytes>> {
    match later.result
    case Got(values) => Read(Got(args + values), later.rest)
    case Failed(_) => later
  }

  function ArrayIn(data: Bytes): Read<seq<Bytes>> {
    if data == [] then Read(Failed(Eof), [])
    else if data[0] != STAR then Read(Failed(Protocol), data[1..])
    else
      var line := LineIn(data[1..]);
      if line.result.Failed? then Read(Failed(line.result.error), line.rest)
      else
        match ParseInt(line.result.value, 10)
        case None => Read(Failed(Protocol), line.rest)
        case Some(count) => if count < 0 then Read(Failed(Protocol), line.rest) else ItemsIn(line.rest, count)
  }

  /** The reader of the certificate exchange: it trims the size line and does not look at the two bytes
      behind the payload. */
  function ReplyIn(data: Bytes): Read<Bytes> {
    if data == [] then Read(Failed(Eof), [])
    else if data[0] != DOLLAR && data[0] != MINUS then Read(Failed(Protocol), data[1..])
    else
      var i := Index(data[1..], [LF]);
      if i < 0 then Read(Failed(Eof), [])
      else if data[0] == MINUS then Read(Failed(ErrorReply), data[1..][i + 1..])
      else
        match ParseInt(Trim(data[1..][..i + 1]), 10)
        case None => Read(Failed(Protocol), data[1..][i + 1..])
        case Some(size) =>
          if size < 0 then Read(Failed(NoValue), data[1..][i + 1..])
          else PayloadIn(data[1..][i + 1..], size, false)
  }

  // ----- what the printers write

  function SizeLine(b: Byte, n: nat): Bytes {
    [b] + Decimal(n) + CRLF
  }

  function EncodedBulk(item: Option<Bytes>): Bytes {
    match item
    case None => [DOLLAR, MINUS, 49, CR, LF]
    case Some(payload) => SizeLine(DOLLAR, |payload|) + payload + CRLF
  }

  function EncodedItems(items: seq<Option<Bytes>>): Bytes {
    if items == [] then [] else EncodedItems(items[..|items| - 1]) + EncodedBulk(items[|items| - 1])
  }

  function Encoded(items: seq<Option<Bytes>>): Bytes {
    SizeLine(STAR, |items|) + EncodedItems(items)
  }

  /** A length fits the integer width, with room for the line end. */
  predicate Sized(items: seq<Option<Bytes>>) {
    |items| <= MAX_INT64 && forall i :: 0 <= i < |items| && items[i].Some? ==> |items[i].value| + 2 <= MAX_INT64
  }

  /** A nil item reads back as the empty string. */
  function Values(items: seq<Option<Bytes>>): seq<Bytes> {
    seq(|items|, i requires 0 <= i < |items| => if items[i].Some? then items[i].value else [])
  }

  // ----- printed lines

  /** A printed number and its line end, read as a line. */
  lemma PrintedLine(n: nat, rest: Bytes)
    ensures Index(Decimal(n) + CRLF + rest, [LF]) == |Decimal(n)| + 1
    ensures LineIn(Decimal(n) + CRLF + rest) == Read(Got(Decimal(n)), rest)
  {
    hide Index, Decimal;
    DecimalParses(n);
    var text := Decimal(n) + [CR];
    var data := Decimal(n) + CRLF + rest;
    assert data == text + [LF] + rest;
    FirstByte(text, LF, rest);
    assert data[..|text|] == text && data[|text| + 1..] == rest;
    assert WithoutSuffix(text, CR) == Decimal(n);
  }

  // ----- round trips

  lemma BulkRoundTrip(payload: Bytes, ending: Bytes, rest: Bytes)
    requires |payload| + 2 <= MAX_INT64 && |ending| == 2
    ensures var data := Decimal(|payload|) + CRLF + (payload + ending + rest);
            BulkIn(data) == Read(if ending == CRLF then Got(payload) else Failed(Protocol), rest)
  {
    hide LineIn, Decimal, ParseInt;
    PrintedLine(|payload|, payload + ending + rest);
    DecimalValue(|payload|);
    PayloadRoundTrip(payload, ending, rest, true);
  }

  lemma PayloadRoundTrip(payload: Bytes, ending: Bytes, rest: Bytes, checked: bool)
    requires |payload| + 2 <= MAX_INT64 && |ending| == 2
    ensures PayloadIn(payload + ending + rest, |payload|, checked) ==
            Read(if checked && ending != CRLF then Failed(Protocol) else Got(payload), rest)
  {
    var data := payload + ending + rest;
    assert data[..|payload|] == payload;
    assert data[|payload|..|payload| + 2] == ending;
    assert data[|payload| + 2..] == rest;
  }

  lemma NilRoundTrip(rest: Bytes)
    ensures BulkIn([MINUS, 49, CR, LF] + rest) == Read(Got([]), rest)
  {
    var data := [MINUS, 49, CR, LF] + rest;
    assert data == [MINUS, 49, CR] + [LF] + rest;
    FirstByte([MINUS, 49, CR], LF, rest);
    hide Index;
    assert data[..3] == [MINUS, 49, CR] && data[4..] == rest;
    assert WithoutSuffix([MINUS, 49, CR], CR) == [MINUS, 49];
    MinusOne();
    hide ParseInt;
  }

  lemma MinusOne()
    ensures ParseInt([MINUS, 49], 10) == Some(-1)
  {
    var digits: Bytes := [49];
    var text: Bytes := [MINUS, 49];
    assert text[1..] == digits && digits[..0] == [];
    assert Magnitude(digits, 10) == Some(1);
  }

  lemma ItemRoundTrip(item: Option<Bytes>, rest: Bytes)
    requires item.Some? ==> |item.value| + 2 <= MAX_INT64
    ensures StringIn(EncodedBulk(item) + rest) == Read(Got(if item.Some? then item.value else []), rest)
  {
    hide BulkIn, Decimal;
    if item.Some? {
      BulkRoundTrip(item.value, CRLF, rest);
      BulkParts(item.value, rest);
    } else {
      NilRoundTrip(rest);
      assert EncodedBulk(item) + rest == [DOLLAR] + ([MINUS, 49, CR, LF] + rest);
    }
  }

  lemma BulkParts(payload: Bytes, rest: Bytes)
    ensures EncodedBulk(Some(payload)) + rest == [DOLLAR] + (Decimal(|payload|) + CRLF + (payload + CRLF + rest))
  {
    hide Decimal;
    var d, line, head := [DOLLAR], Decimal(|payload|) + CRLF, SizeLine(DOLLAR, |payload|);
    Associate(head, payload, CRLF);
    Associate(head, payload + CRLF, rest);
    Associate(d, Decimal(|payload|), CRLF);
    Associate(d, line, payload + CRLF + rest);
  }

  lemma {:induction false} ItemsRoundTrip(items: seq<Option<Bytes>>, rest: Bytes)
    requires Sized(items)
    ensures ItemsIn(EncodedItems(items) + rest, |items|) == Read(Got(Values(items)), rest)
  {
    hide StringIn, EncodedBulk;
    if items == [] {
      assert [] + rest == rest;
    } else {
      var first, later := items[0], items[1..];
      ItemRoundTrip(first, EncodedItems(later) + rest);
      ItemsRoundTrip(later, rest);
      EncodedFirst(items);
      Associate(EncodedBulk(first), EncodedItems(later), rest);
      hide EncodedItems;
      assert Values(items) == [if first.Some? then first.value else []] + Values(later);
    }
  }

  lemma {:induction false} EncodedFirst(items: seq<Option<Bytes>>)
    requires items != []
    ensures EncodedItems(items) == EncodedBulk(items[0]) + EncodedItems(items[1..])
  {
    hide EncodedBulk;
    var last := |items| - 1;
    if last == 0 {
      assert EncodedItems(items) == EncodedItems(items[..0]) + EncodedBulk(items[0]);
    } else {
      EncodedFirst(items[..last]);
      var middle := items[1..last];
      assert items[..last][1..] == middle && items[1..][..last - 1] == middle;
      Associate(EncodedBulk(items[0]), EncodedItems(middle), EncodedBulk(items[last]));
    }
  }

  /** Reading a printed array returns its items and leaves the rest of the stream as it was. */
  lemma ArrayRoundTrip(items: seq<Option<Bytes>>, rest: Bytes)
    requires Sized(items)
    ensures ArrayIn(Encoded(items) + rest) == Read(Got(Values(items)), rest)
  {
    hide LineIn, ItemsIn, EncodedItems, Decimal, ParseInt, Values;
    var data := Encoded(items) + rest;
    assert data[1..] == Decimal(|items|) + CRLF + (EncodedItems(items) + rest);
    PrintedLine(|items|, EncodedItems(items) + rest);
    DecimalValue(|items|);
    ItemsRoundTrip(items, rest);
  }

  /** The certificate reader returns a printed payload too, whatever two bytes end it, where the queue reader
      insists on a line end. */
  lemma ReplyRoundTrip(payload: Bytes, ending: Bytes, rest: Bytes)
    requires |payload| + 2 <= MAX_INT64 && |ending| == 2
    ensures var data := SizeLine(DOLLAR, |payload|) + payload + ending + rest;
            && ReplyIn(data) == Read(Got(payload), rest)
            && StringIn(data) == Read(if ending == CRLF then Got(payload) else Failed(Protocol), rest)
  {
    hide Index, BulkIn, Decimal, ParseInt, Trim, PayloadIn;
    var data := SizeLine(DOLLAR, |payload|) + payload + ending + rest;
    var tail := payload + ending + rest;
    var text := Decimal(|payload|);
    assert data[1..] == text + CRLF + tail;
    PrintedLine(|payload|, tail);
    DecimalValue(|payload|);
    TrimmedDecimal(|payload|);
    BulkRoundTrip(payload, ending, rest);
    PayloadRoundTrip(payload, ending, rest, false);
    assert data[1..][..|text| + 2] == text + CRLF;
    assert data[1..][|text| + 2..] == tail;
  }

  lemma TrimmedDecimal(n: nat)
    ensures Trim(Decimal(n) + CRLF) == Decimal(n)
  {
    DecimalParses(n);
    hide Decimal, Trim, Magnitude;
    var s := Decimal(n);
    assert s[0] in s && s[|s| - 1] in s;
    TrimLineEnd(s);
  }

  lemma TrimLineEnd(s: Bytes)
    requires s != [] && !IsSpace(s[0]) && !IsSpace(s[|s| - 1])
    ensures Trim(s + CRLF) == s
  {
    var t, u := s + CRLF, s + [CR];
    assert t[0] == s[0] && TrimLeft(t) == t;
    assert t[..|t| - 1] == u && u[..|u| - 1] == s;
    hide TrimLeft;
    assert TrimRight(s) == s;
    assert TrimRight(u) == TrimRight(s);
  }

  /** Frame after frame. */
  function FramesIn(data: Bytes, count: nat): Read<seq<seq<Bytes>>>
    decreases count
  {
    if count == 0 then Read(Got([]), data)
    else
      var first := ArrayIn(data);
      if first.result.Failed? then Read(Failed(first.result.error), first.rest)
      else
        var later := FramesIn(first.rest, count - 1);
        if later.result.Failed? then later else Read(Got([first.result.value] + later.result.value), later.rest)
  }

  function EncodedFrames(frames: seq<seq<Option<Bytes>>>): Bytes {
    if frames == [] then [] else Encoded(frames[0]) + EncodedFrames(frames[1..])
  }

  /** Reading a concatenation of frames returns each argument list in order and leaves the remaining bytes. */
  lemma {:induction false} FramesRoundTrip(frames: seq<seq<Option<Bytes>>>, rest: Bytes)
    requires forall i :: 0 <= i < |frames| ==> Sized(frames[i])
    ensures FramesIn(EncodedFrames(frames) + rest, |frames|) ==
            Read(Got(seq(|frames|, i requires 0 <= i < |frames| => Values(frames[i]))), rest)
  {
    hide ArrayIn, Encoded, Values, Sized;
    if frames == [] {
      assert [] + rest == rest;
    } else {
      ArrayRoundTrip(frames[0], EncodedFrames(frames[1..]) + rest);
      FramesRoundTrip(frames[1..], rest);
      assert EncodedFrames(frames) + rest == Encoded(frames[0]) + (EncodedFrames(frames[1..]) + rest);
      assert seq(|frames|, i requires 0 <= i < |frames| => Values(frames[i])) ==
             [Values(frames[0])] + seq(|frames[1..]|, i requires 0 <= i < |frames[1..]| => Values(frames[1..][i]));
    }
  }

  // ----- frames as bytes

  lemma LiteralPieces()
    ensures SizeLine(STAR, 2) == Ascii("*2\r\n") && SizeLine(STAR, 12) == Ascii("*12\r\n")
    ensures SizeLine(DOLLAR, 4) == Ascii("$4\r\n") && EncodedBulk(None) == Ascii("$-1\r\n")
  {
    assert Decimal(2) == [50] && Decimal(4) == [52] && Decimal(12) == Decimal(1) + [50] && Decimal(1) == [49];
    hide Decimal;
  }

  lemma LiteralBulk()
    ensures EncodedBulk(Some(Ascii("PING"))) == Ascii("$4\r\nPING\r\n")
  {
    LiteralPieces();
    hide SizeLine;
    assert Ascii("$4\r\n") + Ascii("PING") + CRLF == Ascii("$4\r\nPING\r\n");
  }

  /** A frame as it stands on the wire. */
  lemma LiteralFrame()
    ensures Encoded([Some(Ascii("PING")), None]) == Ascii("*2\r\n$4\r\nPING\r\n$-1\r\n")
  {
    hide EncodedItems, EncodedBulk, SizeLine;
    var items, last: seq<Option<Bytes>> := [Some(Ascii("PING")), None], [None];
    LiteralPieces();
    LiteralBulk();
    EncodedFirst(items);
    EncodedFirst(last);
    assert items[1..] == last && last[1..] == [];
    NoItems();
    var size, bulk, nil := Ascii("*2\r\n"), Ascii("$4\r\nPING\r\n"), Ascii("$-1\r\n");
    assert Encoded(items) == size + (bulk + (nil + []));
    JoinedFrame();
  }

  lemma JoinedFrame()
    ensures Ascii("*2\r\n") + (Ascii("$4\r\nPING\r\n") + (Ascii("$-1\r\n") + [])) ==
            Ascii("*2\r\n$4\r\nPING\r\n$-1\r\n")
  {
  }

  /** A simple string or an integer is the text up to the line end. */
  lemma SimpleReads(text: Bytes, rest: Bytes)
    requires LF !in text
    ensures StringIn(Ascii("+") + (text + CRLF + rest)) == Read(Got(text), rest)
    ensures StringIn(Ascii(":") + (text + CRLF + rest)) == Read(Got(text), rest)
  {
    hide Index, BulkIn;
    var line, data := text + [CR], text + CRLF + rest;
    assert data == line + [LF] + rest;
    FirstByte(line, LF, rest);
    assert data[..|line|] == line && data[|line| + 1..] == rest && WithoutSuffix(line, CR) == text;
    assert LineIn(data) == Read(Got(text), rest);
    hide LineIn;
    assert (Ascii("+") + data)[1..] == data && (Ascii(":") + data)[1..] == data;
  }

  /** An error reply and a missing value are told apart from a payload. */
  lemma ReplyRefusals(text: Bytes, rest: Bytes)
    requires LF !in text
    ensures ReplyIn(Ascii("-") + (text + [LF] + rest)) == Read(Failed(ErrorReply), rest)
    ensures ReplyIn(Ascii("$-1\r\n") + rest) == Read(Failed(NoValue), rest)
  {
    hide Index, ParseInt, Trim, PayloadIn;
    var data := text + [LF] + rest;
    FirstByte(text, LF, rest);
    assert (Ascii("-") + data)[1..] == data && data[|text| + 1..] == rest;
    var nil: Bytes := [MINUS, 49];
    var line := Ascii("$-1\r\n") + rest;
    assert line[1..] == nil + [CR] + [LF] + rest;
    FirstByte(nil + [CR], LF, rest);
    assert line[1..][..4] == [] + nil + CRLF && line[1..][4..] == rest;
    TrimOf([], nil, CRLF);
    MinusOne();
  }

  /** Anything else in front is a protocol error. */
  lemma OtherPrefixes(b: Byte, rest: Bytes)
    ensures b != 42 ==> ArrayIn([b] + rest) == Read(Failed(Protocol), rest)
    ensures b != 36 && b != 43 && b != 58 ==> StringIn([b] + rest) == Read(Failed(Protocol), rest)
    ensures b != 36 && b != 45 ==> ReplyIn([b] + rest) == Read(Failed(Protocol), rest)
  {
    hide LineIn, BulkIn, ItemsIn, Index, ParseInt;
    assert ([b] + rest)[1..] == rest;
  }

  // ----- streams: a verdict does not depend on what follows

  lemma IndexStable(data: Bytes, more: Bytes)
    requires Index(data, [LF]) >= 0
    ensures Index(data + more, [LF]) == Index(data, [LF])
  {
    var i := Index(data, [LF]);
    AtInside(data, [LF]);
    hide At, Index;
    forall j | 0 <= j <= i ensures At(data + more, [LF], j) <==> At(data, [LF], j) {
      AtAppend(data, more, [LF], j);
    }
    IndexUnique(data + more, [LF], i);
  }

  predicate Stable<T(==)>(before: Read<T>, more: Bytes, after: Read<T>) {
    before.result != Failed(Eof) ==> after == Read(before.result, before.rest + more)
  }

  lemma LineStable(data: Bytes, more: Bytes)
    ensures Stable(LineIn(data), more, LineIn(data + more))
  {
    var i := Index(data, [LF]);
    if i >= 0 {
      IndexStable(data, more);
      hide Index;
      assert (data + more)[..i] == data[..i];
      assert (data + more)[i + 1..] == data[i + 1..] + more;
    }
  }

  lemma PayloadStable(data: Bytes, more: Bytes, length: nat, checked: bool)
    ensures Stable(PayloadIn(data, length, checked), more, PayloadIn(data + more, length, checked))
  {
    if |data| >= length + 2 {
      assert (data + more)[..length] == data[..length];
      assert (data + more)[length..length + 2] == data[length..length + 2];
      assert (data + more)[length + 2..] == data[length + 2..] + more;
    }
  }

  lemma BulkStable(data: Bytes, more: Bytes)
    ensures Stable(BulkIn(data), more, BulkIn(data + more))
  {
    hide LineIn, PayloadIn, ParseInt;
    LineStable(data, more);
    var line := LineIn(data);
    if line.result.Got? {
      var length := ParseInt(line.result.value, 10);
      if length.Some? && length.value >= 0 { PayloadStable(line.rest, more, length.value, true); }
    }
  }

  lemma StringStable(data: Bytes, more: Bytes)
    ensures Stable(StringIn(data), more, StringIn(data + more))
  {
    hide BulkIn, LineIn;
    if data != [] {
      assert (data + more)[1..] == data[1..] + more;
      BulkStable(data[1..], more);
      LineStable(data[1..], more);
    }
  }

  lemma {:induction false} ItemsStable(data: Bytes, more: Bytes, count: nat)
    ensures Stable(ItemsIn(data, count), more, ItemsIn(data + more, count))
    decreases count
  {
    hide StringIn;
    if count > 0 {
      StringStable(data, more);
      var first := StringIn(data);
      if first.result.Got? { ItemsStable(first.rest, more, count - 1); }
    }
  }

  /** Once a frame has been accepted or refused, bytes that arrive later change neither the verdict nor what is left
      before them. */
  lemma ArrayStable(data: Bytes, more: Bytes)
    ensures Stable(ArrayIn(data), more, ArrayIn(data + more))
  {
    hide LineIn, ItemsIn, ParseInt;
    if data != [] {
      assert (data + more)[1..] == data[1..] + more;
      LineStable(data[1..], more);
      var line := LineIn(data[1..]);
      if line.result.Got? {
        var count := ParseInt(line.result.value, 10);
        if count.Some? && count.value >= 0 { ItemsStable(line.rest, more, count.value); }
      }
    }
  }

  /** A printed frame that has not fully arrived is never taken for a frame or refused: the reader waits for more. */
  lemma CutFrameWaits(items: seq<Option<Bytes>>, n: nat)
    requires Sized(items) && n < |Encoded(items)|
    ensures ArrayIn(Encoded(items)[..n]).result == Failed(Eof)
  {
    hide ArrayIn, Encoded, Values;
    var frame := Encoded(items);
    ArrayStable(frame[..n], frame[n..]);
    TakeDrop(frame, n);
    ArrayRoundTrip(items, []);
    assert frame + [] == frame;
  }

  // ----- the readers

  class Reader {
    var rest: Bytes

    method ReadByte() returns (b: Option<Byte>)
      modifies this
      ensures if old(rest) == [] then b == None && rest == [] else b == Some(old(rest)[0]) && rest == old(rest)[1..]
    {
      if rest == [] { return None; }
      b := Some(rest[0]);
      rest := rest[1..];
    }

    /** Up to and including the next line feed. */
    method ReadString() returns (line: Option<Bytes>)
      modifies this
      ensures var i := Index(old(rest), [LF]);
              if i < 0 then line == None && rest == []
              else line == Some(old(rest)[..i + 1]) && rest == old(rest)[i + 1..]
    {
      hide At, Index;
      var data := rest;
      var i := 0;
      while i < |data| && data[i] != LF
        invariant 0 <= i <= |data| && forall j :: 0 <= j < i ==> !At(data, [LF], j)
      {
        AtOne(data, LF, i);
        i := i + 1;
      }
      if i == |data| {
        FoundLf(data);
        rest := [];
        return None;
      }
      AtOne(data, LF, i);
      IndexUnique(data, [LF], i);
      rest := data[i + 1..];
      return Some(data[..i + 1]);
    }

    method ReadFull(n: nat) returns (buf: Option<Bytes>)
      modifies this
      ensures if |old(rest)| < n then buf == None && rest == []
              else buf == Some(old(rest)[..n]) && rest == old(rest)[n..]
    {
      if |rest| < n { buf, rest := None, []; } else { buf, rest := Some(rest[..n]), rest[n..]; }
    }

    /** readRESPLine. */
    method ReadLine() returns (line: Outcome<Bytes>)
      modifies this
      ensures Read(line, rest) == LineIn(old(rest))
    {
      hide Index;
      var text := ReadString();
      if text == None { return Failed(Eof); }
      var l := WithoutSuffix(text.value, LF);
      assert old(rest)[Index(old(rest), [LF])] == LF by { FoundLf(old(rest)); }
      assert l == old(rest)[..Index(old(rest), [LF])];
      return Got(WithoutSuffix(l, CR));
    }

    /** readRESPBulkString. */
    method ReadBulkString() returns (value: Outcome<Bytes>)
      modifies this
      ensures Read(value, rest) == BulkIn(old(rest))
    {
      hide LineIn, ParseInt;
      var line := ReadLine();
      if line.Failed? { return line; }
      var length := ParseInt(line.value, 10);
      if length == None { return Failed(Protocol); }
      if length.value < 0 { return Got([]); }
      if length.value + 2 > MAX_INT64 { return Failed(Panic); }
      ghost var tail := rest;
      var buf := ReadFull(length.value + 2);
      if buf == None { return Failed(Eof); }
      assert buf.value[..length.value] == tail[..length.value];
      if buf.value[length.value] != CR || buf.value[length.value + 1] != LF { return Failed(Protocol); }
      assert tail[length.value..length.value + 2] == CRLF;
      return Got(buf.value[..length.value]);
    }

    /** readRESPString. */
    method ReadItem() returns (value: Outcome<Bytes>)
      modifies this
      ensures Read(value, rest) == StringIn(old(rest))
    {
      hide LineIn, BulkIn;
      var prefix := ReadByte();
      if prefix == None { return Failed(Eof); }
      if prefix.value == DOLLAR { value := ReadBulkString(); }
      else if prefix.value == PLUS || prefix.value == COLON { value := ReadLine(); }
      else { value := Failed(Protocol); }
    }

    /** readRESPArray. */
    method ReadArray() returns (args: Outcome<seq<Bytes>>)
      modifies this
      ensures Read(args, rest) == ArrayIn(old(rest))
    {
      hide LineIn, StringIn, ParseInt;
      var prefix := ReadByte();
      if prefix == None { return Failed(Eof); }
      if prefix.value != STAR { return Failed(Protocol); }
      var line := ReadLine();
      if line.Failed? { return Failed(line.error); }
      var count := ParseInt(line.value, 10);
      if count == None || count.value < 0 { return Failed(Protocol); }
      ghost var tail := rest;
      var values := [];
      PrependedNone(ItemsIn(rest, count.value));
      for i := 0 to count.value
        invariant ItemsIn(tail, count.value) == Prepended(values, ItemsIn(rest, count.value - i))
      {
        var value := ReadItem();
        if value.Failed? { return Failed(value.error); }
        PrependedTwice(values, [value.value], ItemsIn(rest, count.value - i - 1));
        values := values + [value.value];
      }
      assert values + [] == values;
      return Got(values);
    }

    /** readRESPBulk. */
    method ReadReply() returns (payload: Outcome<Bytes>)
      modifies this
      ensures Read(payload, rest) == ReplyIn(old(rest))
    {
      hide Index, ParseInt, Trim;
      var prefix := ReadByte();
      if prefix == None { return Failed(Eof); }
      if prefix.value == DOLLAR {
        var line := ReadString();
        if line == None { return Failed(Eof); }
        var size := ParseInt(Trim(line.value), 10);
        if size == None { return Failed(Protocol); }
        if size.value < 0 { return Failed(NoValue); }
        if size.value + 2 > MAX_INT64 { return Failed(Panic); }
        ghost var tail := rest;
        var buf := ReadFull(size.value + 2);
        if buf == None { return Failed(Eof); }
        assert buf.value[..size.value] == tail[..size.value];
        return Got(buf.value[..size.value]);
      } else if prefix.value == MINUS {
        var line := ReadString();
        if line == None { return Failed(Eof); }
        return Failed(ErrorReply);
      }
      return Failed(Protocol);
    }
  }

  lemma FoundLf(data: Bytes)
    ensures Index(data, [LF]) >= 0 ==> Index(data, [LF]) < |data| && data[Index(data, [LF])] == LF
  {
    AtOne(data, LF, Index(data, [LF]));
  }

  lemma PrependedNone(later: Read<seq<Bytes>>)
    ensures Prepended([], later) == later
  {
    if later.result.Got? { assert [] + later.result.value == later.result.value; }
  }

  lemma PrependedTwice(a: seq<Bytes>, b: seq<Bytes>, later: Read<seq<Bytes>>)
    ensures Prepended(a, Prepended(b, later)) == Prepended(a + b, later)
  {
    if later.result.Got? { assert a + (b + later.result.value) == a + b + later.result.value; }
  }

  // ----- the printers

  class Writer {
    var buf: Bytes

    /** writeRedisBulkString. */
    method WriteBulkString(payload: Option<Bytes>)
      modifies this
      ensures buf == old(buf) + EncodedBulk(payload)
    {
      if payload == None {
        buf := buf + [DOLLAR, MINUS, 49, CR, LF];
        return;
      }
      buf := buf + SizeLine(DOLLAR, |payload.value|);
      buf := buf + payload.value;
      buf := buf + CRLF;
      assert buf == old(buf) + EncodedBulk(payload);
    }

    /** writeRedisArrayOfBulkStrings. */
    method WriteArrayOfBulkStrings(items: seq<Option<Bytes>>)
      modifies this
      ensures buf == old(buf) + Encoded(items)
    {
      hide EncodedBulk, EncodedItems;
      assert EncodedItems([]) == [] by { NoItems(); }
      buf := buf + SizeLine(STAR, |items|);
      ghost var head := buf;
      for i := 0 to |items|
        invariant buf == head + EncodedItems(items[..i])
      {
        EncodedNext(head, items, i);
        WriteBulkString(items[i]);
      }
      assert items[..|items|] == items;
    }
  }

  lemma BulkPieces(before: Bytes, arg: Bytes)
    ensures before + [DOLLAR] + Decimal(|arg|) + CRLF + arg + CRLF == before + EncodedBulk(Some(arg))
  {
    hide Decimal;
    var head := SizeLine(DOLLAR, |arg|);
    Regroup(before, [DOLLAR], Decimal(|arg|), CRLF);
    Regroup(before, head, arg, CRLF);
  }

  lemma EncodedNext(head: Bytes, items: seq<Option<Bytes>>, i: nat)
    requires i < |items|
    ensures head + EncodedItems(items[..i + 1]) == head + EncodedItems(items[..i]) + EncodedBulk(items[i])
  {
    hide EncodedBulk;
    assert items[..i + 1][..i] == items[..i];
  }

  lemma Regroup(a: Bytes, b: Bytes, c: Bytes, d: Bytes)
    ensures a + b + c + d == a + (b + c + d)
  {
  }

  /** encodeRESPArray. */
  method EncodeArray(args: seq<Bytes>) returns (buf: Bytes)
    ensures buf == Encoded(seq(|args|, i requires 0 <= i < |args| => Some(args[i])))
  {
    var items := seq(|args|, i requires 0 <= i < |args| => Some(args[i]));
    hide EncodedBulk, EncodedItems, Decimal;
    NoItems();
    buf := [STAR];
    buf := buf + Decimal(|args|);
    buf := buf + CRLF;
    ghost var head := buf;
    for i := 0 to |args|
      invariant buf == head + EncodedItems(items[..i])
    {
      BulkPieces(buf, args[i]);
      EncodedNext(head, items, i);
      buf := buf + [DOLLAR];
      buf := buf + Decimal(|args[i]|);
      buf := buf + CRLF;
      buf := buf + args[i];
      buf := buf + CRLF;
    }
    assert items[..|items|] == items;
  }

  lemma NoItems()
    ensures EncodedItems([]) == []
  {
  }
}
