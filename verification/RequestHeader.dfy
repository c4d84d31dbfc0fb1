// Reordering the header of one request, and the framing it announces
// (orderRequestHeader, headerLineNamed, requestContentLength and requestUsesChunkedEncoding
// in internal/httpwire/ordered_conn.go).
module RequestHeader {
  import opened Bytes

  /** `order` is the configured header order; two names are equal under case folding when `fold` maps
      them to the same representative. */
  datatype Rules = Rules(order: (Bytes, Bytes) -> seq<Bytes>, fold: Bytes -> Bytes)

  const CONTENT_LENGTH := Ascii("Content-Length")
  const TRANSFER_ENCODING := Ascii("Transfer-Encoding")
  const CHUNKED := Ascii("chunked")

  predicate Named(r: Rules, line: Bytes, name: Bytes) {
    var colon := Index(line, [COLON]);
    colon > 0 && r.fold(line[..colon]) == r.fold(name)
  }

  /** Position of the first listed name that matches; the number of names when none does. */
  function Rank(r: Rules, line: Bytes, names: seq<Bytes>): (k: nat)
    ensures k <= |names|
    ensures k < |names| ==> Named(r, line, names[k])
    ensures forall j :: 0 <= j < k ==> !Named(r, line, names[j])
  {
    if names == [] || Named(r, line, names[0]) then 0
    else
      var k := 1 + Rank(r, line, names[1..]);
      assert forall j :: 0 < j < |names| ==> names[j] == names[1..][j - 1];
      k
  }

  function Select<T>(p: T -> bool, s: seq<T>): seq<T> {
    if s == [] then [] else (if p(s[0]) then [s[0]] else []) + Select(p, s[1..])
  }

  function HasName(r: Rules, name: Bytes): Bytes -> bool {
    line => Named(r, line, name)
  }

  function HasRank(r: Rules, names: seq<Bytes>, k: nat): Bytes -> bool {
    line => Rank(r, line, names) == k
  }

  function HasRankFrom(r: Rules, names: seq<Bytes>, k: nat): Bytes -> bool {
    line => Rank(r, line, names) >= k
  }

  /** Lines of rank `k`, then `k + 1`, and so on; within a rank in their original order. */
  function OrderedFrom(r: Rules, lines: seq<Bytes>, names: seq<Bytes>, k: nat): seq<Bytes>
    requires k <= |names|
    decreases |names| - k
  {
    Select(HasRank(r, names, k), lines) + if k == |names| then [] else OrderedFrom(r, lines, names, k + 1)
  }

  function Ordered(r: Rules, lines: seq<Bytes>, names: seq<Bytes>): seq<Bytes> {
    OrderedFrom(r, lines, names, 0)
  }

  // ----- facts about selections

  lemma SelectCons<T>(p: T -> bool, x: T, s: seq<T>)
    ensures Select(p, [x] + s) == (if p(x) then [x] else []) + Select(p, s)
    ensures Select(p, []) == []
  {
    assert ([x] + s)[1..] == s;
  }

  lemma {:induction false} SelectConcat<T>(p: T -> bool, a: seq<T>, b: seq<T>)
    ensures Select(p, a + b) == Select(p, a) + Select(p, b)
  {
    if a == [] {
      assert a + b == b;
    } else {
      hide Select;
      var x, rest := a[0], a[1..];
      assert a == [x] + rest && a + b == [x] + (rest + b);
      SelectConcat(p, rest, b);
      SelectCons(p, x, rest);
      SelectCons(p, x, rest + b);
    }
  }

  lemma {:induction false} SelectAll<T>(p: T -> bool, s: seq<T>)
    ensures forall x :: x in Select(p, s) ==> p(x) && x in s
    ensures (forall x :: x in s ==> p(x)) ==> Select(p, s) == s
    ensures (forall x :: x in s ==> !p(x)) ==> Select(p, s) == []
  {
    if s != [] { SelectAll(p, s[1..]); }
  }

  lemma {:induction false} SelectSelect<T>(p: T -> bool, q: T -> bool, s: seq<T>)
    requires forall x :: p(x) ==> q(x)
    ensures Select(p, Select(q, s)) == Select(p, s)
  {
    if s != [] {
      SelectSelect(p, q, s[1..]);
      SelectConcat(p, if q(s[0]) then [s[0]] else [], Select(q, s[1..]));
    }
  }

  lemma {:induction false} SelectNone<T>(p: T -> bool, q: T -> bool, s: seq<T>)
    requires forall x :: !(p(x) && q(x))
    ensures Select(p, Select(q, s)) == []
  {
    if s != [] {
      SelectNone(p, q, s[1..]);
      SelectConcat(p, if q(s[0]) then [s[0]] else [], Select(q, s[1..]));
    }
  }

  lemma {:induction false} SelectSplits<T>(p: T -> bool, q: T -> bool, u: T -> bool, s: seq<T>)
    requires forall x :: u(x) <==> p(x) || q(x)
    requires forall x :: !(p(x) && q(x))
    ensures multiset(Select(u, s)) == multiset(Select(p, s)) + multiset(Select(q, s))
  {
    if s != [] {
      SelectSplits(p, q, u, s[1..]);
      var x := s[0];
      assert Select(u, s) == (if u(x) then [x] else []) + Select(u, s[1..]);
    }
  }

  // ----- the ordering is a stable permutation

  /** A property that only lines of one rank can have selects the same lines in the same order. */
  lemma {:induction false} OrderedKeeps(r: Rules, lines: seq<Bytes>, names: seq<Bytes>, p: Bytes -> bool, rank: nat,
          k: nat)
    requires k <= |names| && k <= rank <= |names|
    requires forall line :: p(line) ==> Rank(r, line, names) == rank
    ensures Select(p, OrderedFrom(r, lines, names, k)) == Select(p, lines)
    decreases |names| - k
  {
    hide Rank, Select;
    var here := HasRank(r, names, k);
    var later := if k == |names| then [] else OrderedFrom(r, lines, names, k + 1);
    SelectConcat(p, Select(here, lines), later);
    if k == rank {
      SelectSelect(p, here, lines);
      if k < |names| { OrderedRanks(r, lines, names, k + 1); }
      SelectAll(p, later);
    } else {
      SelectNone(p, here, lines);
      OrderedKeeps(r, lines, names, p, rank, k + 1);
    }
  }

  lemma SelectedRank(r: Rules, lines: seq<Bytes>, names: seq<Bytes>, k: nat)
    ensures forall line :: line in Select(HasRank(r, names, k), lines) ==> Rank(r, line, names) == k
  {
    hide Rank, Select;
    SelectAll(HasRank(r, names, k), lines);
  }

  /** Lines placed from `k` on have rank at least `k`. */
  lemma {:induction false} OrderedRanks(r: Rules, lines: seq<Bytes>, names: seq<Bytes>, k: nat)
    requires k <= |names|
    ensures forall line :: line in OrderedFrom(r, lines, names, k) ==> Rank(r, line, names) >= k
    decreases |names| - k
  {
    hide Rank, Select;
    SelectedRank(r, lines, names, k);
    if k < |names| { OrderedRanks(r, lines, names, k + 1); }
  }

  predicate SortedByRank(r: Rules, lines: seq<Bytes>, names: seq<Bytes>) {
    forall i, j :: 0 <= i < j < |lines| ==> Rank(r, lines[i], names) <= Rank(r, lines[j], names)
  }

  lemma SortedConcat(r: Rules, a: seq<Bytes>, b: seq<Bytes>, names: seq<Bytes>, k: nat)
    requires forall line :: line in a ==> Rank(r, line, names) == k
    requires forall line :: line in b ==> Rank(r, line, names) >= k
    requires SortedByRank(r, b, names)
    ensures SortedByRank(r, a + b, names)
  {
    hide Rank;
    var o := a + b;
    forall i, j | 0 <= i < j < |o| ensures Rank(r, o[i], names) <= Rank(r, o[j], names) {
      if i < |a| {
        assert o[i] in a;
        assert o[j] in a || o[j] in b;
      } else {
        assert o[i] == b[i - |a|] && o[j] == b[j - |a|];
      }
    }
  }

  lemma {:induction false} OrderedSorted(r: Rules, lines: seq<Bytes>, names: seq<Bytes>, k: nat)
    requires k <= |names|
    ensures SortedByRank(r, OrderedFrom(r, lines, names, k), names)
    decreases |names| - k
  {
    hide Rank, Select, SortedByRank;
    SelectedRank(r, lines, names, k);
    var here := Select(HasRank(r, names, k), lines);
    if k < |names| {
      OrderedRanks(r, lines, names, k + 1);
      OrderedSorted(r, lines, names, k + 1);
      SortedConcat(r, here, OrderedFrom(r, lines, names, k + 1), names, k);
    } else {
      EmptySorted(r, names);
      SortedConcat(r, here, [], names, k);
    }
  }

  lemma EmptySorted(r: Rules, names: seq<Bytes>)
    ensures SortedByRank(r, [], names)
  {
  }

  lemma {:induction false} OrderedMultiset(r: Rules, lines: seq<Bytes>, names: seq<Bytes>, k: nat)
    requires k <= |names|
    ensures multiset(OrderedFrom(r, lines, names, k)) == multiset(Select(HasRankFrom(r, names, k), lines))
    decreases |names| - k
  {
    var here := HasRank(r, names, k);
    var from := HasRankFrom(r, names, k);
    var above := HasRankFrom(r, names, k + 1);
    SelectSplits(here, above, from, lines);
    if k < |names| {
      OrderedMultiset(r, lines, names, k + 1);
    } else {
      SelectAll(above, lines);
    }
  }

  /** The reordering permutes the lines, lists matched names first in the configured order,
      and never reorders two lines of one name. */
  lemma StableReordering(r: Rules, lines: seq<Bytes>, names: seq<Bytes>, name: Bytes)
    ensures var o := Ordered(r, lines, names);
            && multiset(o) == multiset(lines)
            && SortedByRank(r, o, names)
            && Select(HasName(r, name), o) == Select(HasName(r, name), lines)
            && Select(HasRank(r, names, |names|), o) == Select(HasRank(r, names, |names|), lines)
  {
    OrderedMultiset(r, lines, names, 0);
    SelectAll(HasRankFrom(r, names, 0), lines);
    OrderedSorted(r, lines, names, 0);
    OrderedNamed(r, lines, names, name);
    OrderedKeeps(r, lines, names, HasRank(r, names, |names|), |names|, 0);
  }

  lemma {:induction false} RankOfName(r: Rules, a: Bytes, b: Bytes, names: seq<Bytes>, name: Bytes)
    requires Named(r, a, name) && Named(r, b, name)
    ensures Rank(r, a, names) == Rank(r, b, names)
  {
    if names != [] { RankOfName(r, a, b, names[1..], name); }
  }

  lemma OrderedNamed(r: Rules, lines: seq<Bytes>, names: seq<Bytes>, name: Bytes)
    ensures Select(HasName(r, name), Ordered(r, lines, names)) == Select(HasName(r, name), lines)
  {
    var p := HasName(r, name);
    if exists line :: Named(r, line, name) {
      var sample :| Named(r, sample, name);
      forall line | p(line) ensures Rank(r, line, names) == Rank(r, sample, names) {
        RankOfName(r, line, sample, names, name);
      }
      OrderedKeeps(r, lines, names, p, Rank(r, sample, names), 0);
    } else {
      SelectAll(p, lines);
      SelectAll(p, Ordered(r, lines, names));
    }
  }

  // ----- header bytes

  /** Every line followed by a line end. */
  function Terminated(lines: seq<Bytes>): Bytes {
    if lines == [] then [] else lines[0] + CRLF + Terminated(lines[1..])
  }

  function HeaderBytes(lines: seq<Bytes>): Bytes {
    Terminated(lines) + CRLF
  }

  /** A complete header: its first blank line is its end. */
  predicate IsHeader(header: Bytes) {
    |header| >= 4 && Index(header, BLANK_LINE) == |header| - 4
  }

  function Lines(header: Bytes): seq<Bytes>
    requires |header| >= 4
  {
    Split(header[..|header| - 4], CRLF)
  }

  /** The names configured for a request line; none when it does not have three parts. */
  function DesiredNames(r: Rules, requestLine: Bytes): seq<Bytes> {
    var first := Index(requestLine, [SPACE]);
    if first < 0 then []
    else
      var rest := requestLine[first + 1..];
      var second := Index(rest, [SPACE]);
      if second < 0 then [] else r.order(requestLine[..first], rest[..second])
  }

  function ReorderedLines(r: Rules, lines: seq<Bytes>): seq<Bytes>
    requires lines != []
  {
    [lines[0]] + Ordered(r, lines[1..], DesiredNames(r, lines[0]))
  }

  function Reordered(r: Rules, header: Bytes): Bytes
    requires |header| >= 4
  {
    HeaderBytes(ReorderedLines(r, Lines(header)))
  }

  function LengthValue(line: Bytes): nat {
    match ParseInt(Trim(line[Index(line, [COLON]) + 1..]), 10)
    case None => 0
    case Some(n) => if n > 0 then n else 0
  }

  /** The first Content-Length line decides. */
  function ContentLength(r: Rules, lines: seq<Bytes>): nat {
    if lines == [] then 0
    else if Named(r, lines[0], CONTENT_LENGTH) then LengthValue(lines[0])
    else ContentLength(r, lines[1..])
  }

  // What a Content-Length line says, without the parser: a name, a colon, and a number written out amid white
  // space.

  predicate LengthLine(line: Bytes, name: Bytes, before: Bytes, text: Bytes, behind: Bytes) {
    COLON !in name && Blank(before) && Blank(behind) && line == name + [COLON] + (before + text + behind)
  }

  ghost predicate SaysLength(line: Bytes, n: nat) {
    exists name: Bytes, before: Bytes, text: Bytes, behind: Bytes ::
      LengthLine(line, name, before, text, behind) && IsNumeral(text, n)
  }

  /** The number the line says, if it has 64 bits; nothing else announces a length. */
  ghost predicate IsLengthOf(line: Bytes, length: nat) {
    && (length > 0 ==> length <= MAX_INT64 && SaysLength(line, length))
    && (forall n: nat :: SaysLength(line, n) ==> length == if n <= MAX_INT64 then n else 0)
  }

  predicate FirstNamed(r: Rules, lines: seq<Bytes>, name: Bytes, i: nat) {
    i < |lines| && Named(r, lines[i], name) && forall j :: 0 <= j < i ==> !Named(r, lines[j], name)
  }

  /** The first Content-Length line decides. */
  ghost predicate Announced(r: Rules, lines: seq<Bytes>, length: nat) {
    && (forall i: nat :: FirstNamed(r, lines, CONTENT_LENGTH, i) ==> IsLengthOf(lines[i], length))
    && ((forall line :: line in lines ==> !Named(r, line, CONTENT_LENGTH)) ==> length == 0)
  }

  lemma PlainLengthLine()
    ensures SaysLength(Ascii("Content-Length: 10"), 10)
  {
    var line := Ascii("Content-Length: 10");
    var name: Bytes, blank: Bytes, text: Bytes := Ascii("Content-Length"), [SPACE], [49, 48];
    assert Decimal(10) == Decimal(1) + [48] && Decimal(1) == [49];
    assert [] + Zeros(0) + Decimal(10) == text;
    assert Writes(text, [], 0, 10);
    assert line == name + [COLON] + (blank + text + []);
    assert LengthLine(line, name, blank, text, []);
  }

  lemma AfterColon(line: Bytes, name: Bytes, rest: Bytes)
    requires COLON !in name && line == name + [COLON] + rest
    ensures Index(line, [COLON]) == |name| && line[Index(line, [COLON]) + 1..] == rest
  {
    FirstByte(name, COLON, rest);
  }

  lemma BeforeColon(line: Bytes)
    requires Index(line, [COLON]) >= 0
    ensures var colon := Index(line, [COLON]);
            colon < |line| && COLON !in line[..colon] && line == line[..colon] + [COLON] + line[colon + 1..]
  {
    var colon := Index(line, [COLON]);
    AtOne(line, COLON, colon);
    forall j | 0 <= j < colon ensures line[..colon][j] != COLON {
      AtOne(line, COLON, j);
    }
    hide At, Index;
    assert line == line[..colon] + [line[colon]] + line[colon + 1..];
  }

  lemma SaidLength(line: Bytes, n: nat)
    requires SaysLength(line, n)
    ensures LengthValue(line) == if n <= MAX_INT64 then n else 0
  {
    hide Index, Trim, ParseInt;
    var name: Bytes, before: Bytes, text: Bytes, behind: Bytes :|
      LengthLine(line, name, before, text, behind) && IsNumeral(text, n);
    var sign: Bytes, zeros: nat :| Writes(text, sign, zeros, n);
    AfterColon(line, name, before + text + behind);
    hide Writes, IsNumeral;
    NumeralParses(text, sign, zeros, n);
    TrimOf(before, text, behind);
  }

  lemma ValueIsSaid(line: Bytes)
    requires Index(line, [COLON]) >= 0 && LengthValue(line) > 0
    ensures LengthValue(line) <= MAX_INT64 && SaysLength(line, LengthValue(line))
  {
    hide Index, Trim, ParseInt, IsNumeral;
    BeforeColon(line);
    var colon := Index(line, [COLON]);
    var before, behind := TrimParts(line[colon + 1..]);
    ParsedIsNumeral(Trim(line[colon + 1..]));
    assert LengthLine(line, line[..colon], before, Trim(line[colon + 1..]), behind);
  }

  lemma LengthIsSaid(line: Bytes)
    requires Index(line, [COLON]) >= 0
    ensures IsLengthOf(line, LengthValue(line))
  {
    hide LengthValue, SaysLength, Index;
    if LengthValue(line) > 0 { ValueIsSaid(line); }
    forall n: nat | SaysLength(line, n) ensures LengthValue(line) == if n <= MAX_INT64 then n else 0 {
      SaidLength(line, n);
    }
  }

  lemma FirstOfTail(r: Rules, lines: seq<Bytes>, name: Bytes, i: nat)
    requires lines != [] && !Named(r, lines[0], name) && FirstNamed(r, lines, name, i)
    ensures i > 0 && FirstNamed(r, lines[1..], name, i - 1) && lines[1..][i - 1] == lines[i]
  {
    hide Named;
    forall j | 0 <= j < i - 1 ensures !Named(r, lines[1..][j], name) {
      assert lines[1..][j] == lines[j + 1];
    }
  }

  /** The length of a header is the one its first Content-Length line says. */
  lemma {:induction false} LengthAnnounced(r: Rules, lines: seq<Bytes>)
    ensures Announced(r, lines, ContentLength(r, lines))
  {
    hide IsLengthOf, LengthValue;
    if lines != [] {
      var length := ContentLength(r, lines);
      if Named(r, lines[0], CONTENT_LENGTH) {
        LengthIsSaid(lines[0]);
        hide Named;
        assert lines[0] in lines && length == LengthValue(lines[0]);
        forall i: nat | FirstNamed(r, lines, CONTENT_LENGTH, i) ensures i == 0 {
        }
      } else {
        LengthAnnounced(r, lines[1..]);
        hide Named, ContentLength;
        forall i: nat | FirstNamed(r, lines, CONTENT_LENGTH, i) ensures IsLengthOf(lines[i], length) {
          FirstOfTail(r, lines, CONTENT_LENGTH, i);
        }
        assert forall line :: line in lines[1..] ==> line in lines;
      }
    }
  }

  function Codings(line: Bytes): seq<Bytes> {
    Split(line[Index(line, [COLON]) + 1..], [COMMA])
  }

  predicate IsChunkedCoding(r: Rules, coding: Bytes) {
    r.fold(Trim(coding)) == r.fold(CHUNKED)
  }

  predicate ListsChunked(r: Rules, codings: seq<Bytes>) {
    codings != [] && (IsChunkedCoding(r, codings[0]) || ListsChunked(r, codings[1..]))
  }

  predicate AnnouncesChunked(r: Rules, line: Bytes) {
    Named(r, line, TRANSFER_ENCODING) && ListsChunked(r, Codings(line))
  }

  /** Some Transfer-Encoding line lists the chunked coding. */
  predicate UsesChunked(r: Rules, lines: seq<Bytes>) {
    lines != [] && (AnnouncesChunked(r, lines[0]) || UsesChunked(r, lines[1..]))
  }

  lemma {:induction false} UsesChunkedMembers(r: Rules, lines: seq<Bytes>)
    ensures UsesChunked(r, lines) <==> exists line :: line in lines && AnnouncesChunked(r, line)
  {
    if lines != [] {
      UsesChunkedMembers(r, lines[1..]);
      assert forall line :: line in lines <==> line == lines[0] || line in lines[1..];
    }
  }

  // What a Transfer-Encoding line says, without the search: a name, a colon, and pieces between commas, one of
  // which is the chunked coding amid white space.

  predicate CodingLine(line: Bytes, name: Bytes, pieces: seq<Bytes>) {
    COLON !in name && pieces != [] && (forall p :: p in pieces ==> COMMA !in p) &&
    line == name + [COLON] + Join(pieces, [COMMA])
  }

  predicate IsCoding(r: Rules, piece: Bytes, before: Bytes, coding: Bytes, behind: Bytes) {
    Blank(before) && Blank(behind) && Unpadded(coding) && piece == before + coding + behind &&
    r.fold(coding) == r.fold(Ascii("chunked"))
  }

  ghost predicate SaysChunked(r: Rules, line: Bytes) {
    exists name: Bytes, pieces: seq<Bytes>, i: nat, before: Bytes, coding: Bytes, behind: Bytes ::
      CodingLine(line, name, pieces) && i < |pieces| && IsCoding(r, pieces[i], before, coding, behind)
  }

  ghost predicate AnnouncedChunked(r: Rules, lines: seq<Bytes>) {
    exists line :: line in lines && Named(r, line, TRANSFER_ENCODING) && SaysChunked(r, line)
  }

  lemma {:induction false} ListsChunkedMembers(r: Rules, codings: seq<Bytes>)
    ensures ListsChunked(r, codings) <==> exists i: nat :: i < |codings| && IsChunkedCoding(r, codings[i])
  {
    hide IsChunkedCoding;
    if codings != [] {
      ListsChunkedMembers(r, codings[1..]);
      if i: nat :| i < |codings[1..]| && IsChunkedCoding(r, codings[1..][i]) {
        assert codings[i + 1] == codings[1..][i];
      }
      if i: nat :| i < |codings| && IsChunkedCoding(r, codings[i]) {
        if i > 0 { assert codings[1..][i - 1] == codings[i]; }
      }
    }
  }

  lemma NoneInside(piece: Bytes, b: Byte)
    ensures Index(piece, [b]) == -1 <==> b !in piece
  {
    if b in piece {
      var j :| 0 <= j < |piece| && piece[j] == b;
      AtOne(piece, b, j);
    }
    forall j | At(piece, [b], j) ensures b in piece {
      AtOne(piece, b, j);
    }
    hide At, Index;
  }

  lemma {:induction false} SplitPieces(pieces: seq<Bytes>, b: Byte)
    requires pieces != [] && forall p :: p in pieces ==> b !in p
    ensures Split(Join(pieces, [b]), [b]) == pieces
  {
    var first, rest := pieces[0], pieces[1..];
    assert first in pieces;
    NoneInside(first, b);
    if rest != [] {
      var tail := Join(rest, [b]);
      SplitPieces(rest, b);
      FirstByte(first, b, tail);
      hide Index, At;
      var s := first + [b] + tail;
      assert s[..|first|] == first && s[|first| + 1..] == tail;
    }
  }

  lemma SaidChunked(r: Rules, line: Bytes)
    requires SaysChunked(r, line)
    ensures ListsChunked(r, Codings(line))
  {
    hide Index, Trim, Split, Join, ListsChunked;
    var name: Bytes, pieces: seq<Bytes>, i: nat, before: Bytes, coding: Bytes, behind: Bytes :|
      CodingLine(line, name, pieces) && i < |pieces| && IsCoding(r, pieces[i], before, coding, behind);
    AfterColon(line, name, Join(pieces, [COMMA]));
    SplitPieces(pieces, COMMA);
    TrimOf(before, coding, behind);
    ListsChunkedMembers(r, pieces);
  }

  lemma ChunkedIsSaid(r: Rules, line: Bytes)
    requires Index(line, [COLON]) >= 0 && ListsChunked(r, Codings(line))
    ensures SaysChunked(r, line)
  {
    hide Index, Trim, Split, Join, ListsChunked;
    var colon, pieces := Index(line, [COLON]), Codings(line);
    BeforeColon(line);
    JoinSplit(line[colon + 1..], [COMMA]);
    forall p | p in pieces ensures COMMA !in p { NoneInside(p, COMMA); }
    ListsChunkedMembers(r, pieces);
    var i: nat :| i < |pieces| && IsChunkedCoding(r, pieces[i]);
    var before, behind := TrimParts(pieces[i]);
    assert CodingLine(line, line[..colon], pieces);
    assert IsCoding(r, pieces[i], before, Trim(pieces[i]), behind);
  }

  /** Chunked coding is used exactly when some Transfer-Encoding line says so. */
  lemma ChunkedAnnounced(r: Rules, lines: seq<Bytes>)
    ensures UsesChunked(r, lines) <==> AnnouncedChunked(r, lines)
  {
    hide UsesChunked, SaysChunked, ListsChunked, Codings, Index;
    UsesChunkedMembers(r, lines);
    forall line | line in lines && Named(r, line, TRANSFER_ENCODING)
      ensures ListsChunked(r, Codings(line)) <==> SaysChunked(r, line)
    {
      if SaysChunked(r, line) { SaidChunked(r, line); }
      if ListsChunked(r, Codings(line)) { ChunkedIsSaid(r, line); }
    }
  }

  /** What it means for a line to have a name, without the search. */
  lemma NamedLine(r: Rules, line: Bytes, own: Bytes, rest: Bytes, name: Bytes)
    ensures COLON !in own && line == own + [COLON] + rest ==>
              (Named(r, line, name) <==> own != [] && r.fold(own) == r.fold(name))
    ensures COLON !in line ==> !Named(r, line, name)
  {
    hide Index;
    if COLON !in own && line == own + [COLON] + rest {
      AfterColon(line, own, rest);
      assert line[..|own|] == own;
    }
    NoneInside(line, COLON);
  }

  /** The configured order is asked for the method and the target: what stands before the first blank of the
      request line, and between the first two. */
  lemma DesiredByRequestLine(r: Rules, verb: Bytes, target: Bytes, version: Bytes)
    requires SPACE !in verb && SPACE !in target
    ensures DesiredNames(r, verb + [SPACE] + (target + [SPACE] + version)) == r.order(verb, target)
    ensures DesiredNames(r, verb + [SPACE] + target) == [] && DesiredNames(r, verb) == []
  {
    hide Index;
    var line, rest := verb + [SPACE] + (target + [SPACE] + version), target + [SPACE] + version;
    FirstByte(verb, SPACE, rest);
    FirstByte(target, SPACE, version);
    assert line[..|verb|] == verb && line[|verb| + 1..] == rest && rest[..|target|] == target;
    FirstByte(verb, SPACE, target);
    NoneInside(target, SPACE);
    NoneInside(verb, SPACE);
    var short := verb + [SPACE] + target;
    assert short[|verb| + 1..] == target;
  }

  // ----- lines and bytes determine each other

  lemma {:induction false} TerminatedJoin(lines: seq<Bytes>)
    requires lines != []
    ensures Terminated(lines) == Join(lines, CRLF) + CRLF
  {
    if |lines| > 1 { TerminatedJoin(lines[1..]); }
  }

  lemma HeaderLines(header: Bytes)
    requires EndsWith(header, BLANK_LINE)
    ensures HeaderBytes(Lines(header)) == header
  {
    var body := header[..|header| - 4];
    JoinSplit(body, CRLF);
    TerminatedJoin(Lines(header));
    TakeDrop(header, |header| - 4);
    assert header[|header| - 4..] == header[|header| - 4..|header|] == CRLF + CRLF;
  }

  /** A line that has no line end inside is followed by the first one. */
  lemma FirstLineEnd(line: Bytes, rest: Bytes)
    requires Index(line, CRLF) == -1
    ensures Index(line + CRLF + rest, CRLF) == |line|
  {
    hide At, Index;
    var s := line + CRLF + rest;
    AtTwo(s, CR, LF, |line|);
    forall j | 0 <= j < |line| ensures !At(s, CRLF, j) {
      AtTwo(s, CR, LF, j);
      AtTwo(line, CR, LF, j);
    }
    IndexUnique(s, CRLF, |line|);
  }

  lemma {:induction false} SplitJoin(lines: seq<Bytes>)
    requires lines != [] && forall l :: l in lines ==> Index(l, CRLF) == -1
    ensures Split(Join(lines, CRLF), CRLF) == lines
  {
    if |lines| > 1 {
      var tail := Join(lines[1..], CRLF);
      FirstLineEnd(lines[0], tail);
      SplitJoin(lines[1..]);
      var s := lines[0] + CRLF + tail;
      assert s[..|lines[0]|] == lines[0] && s[|lines[0]| + 2..] == tail;
    }
  }

  lemma LinesOfHeader(lines: seq<Bytes>)
    requires lines != [] && forall l :: l in lines ==> Index(l, CRLF) == -1
    ensures |HeaderBytes(lines)| >= 4 && Lines(HeaderBytes(lines)) == lines
    ensures EndsWith(HeaderBytes(lines), BLANK_LINE)
  {
    TerminatedJoin(lines);
    SplitJoin(lines);
    var h := HeaderBytes(lines);
    assert h == Join(lines, CRLF) + BLANK_LINE;
    assert h[..|h| - 4] == Join(lines, CRLF);
  }

  /** A blank line in `line CRLF tail` is at the end of `line`, or inside `tail`. */
  lemma BlankLinePlace(line: Bytes, tail: Bytes, j: nat)
    requires Index(line, CRLF) == -1 && At(line + CRLF + tail, BLANK_LINE, j)
    ensures j == |line| ==> |tail| >= 2 && tail[0] == CR && tail[1] == LF
    ensures j == |line| || (j >= |line| + 2 && At(tail, BLANK_LINE, j - |line| - 2))
  {
    hide At, Index;
    var h := line + CRLF + tail;
    AtBlankLine(h, j);
    FirstLineEnd(line, tail);
    AtTwo(h, CR, LF, j);
    AtTwo(h, CR, LF, j + 2);
    assert h[|line| + 1] == LF;
    if j > |line| { AtAppend(line + CRLF, tail, BLANK_LINE, j); }
  }

  /** With no empty header line, the blank line at the end is the first one. */
  lemma {:induction false} BlankLineAtEnd(lines: seq<Bytes>)
    requires lines != [] && forall l :: l in lines ==> Index(l, CRLF) == -1
    requires forall k :: 1 <= k < |lines| ==> lines[k] != []
    ensures IsHeader(HeaderBytes(lines))
  {
    var line, rest := lines[0], lines[1..];
    var h, tail := HeaderBytes(lines), HeaderBytes(rest);
    assert h == line + CRLF + tail;
    LinesOfHeader(lines);
    hide At, Index, IsHeader;
    forall j | 0 <= j < |h| - 4 ensures !At(h, BLANK_LINE, j) {
      if At(h, BLANK_LINE, j) {
        BlankLinePlace(line, tail, j);
        if rest != [] {
          NoLineEndFirst(rest);
          BlankLineAtEnd(rest);
          HeaderBlank(tail, j - |line| - 2);
        }
      }
    }
    HeaderFromBlank(h);
  }

  lemma HeaderBlank(header: Bytes, j: int)
    requires IsHeader(header)
    ensures 0 <= j < |header| - 4 ==> !At(header, BLANK_LINE, j)
  {
  }

  lemma HeaderFromBlank(header: Bytes)
    requires EndsWith(header, BLANK_LINE) && forall j :: 0 <= j < |header| - 4 ==> !At(header, BLANK_LINE, j)
    ensures IsHeader(header)
  {
    AtInside(header, BLANK_LINE);
    IndexUnique(header, BLANK_LINE, |header| - 4);
  }

  lemma NoLineEndFirst(lines: seq<Bytes>)
    requires lines != [] && lines[0] != [] && Index(lines[0], CRLF) == -1
    ensures var h := HeaderBytes(lines); |h| >= 2 && !(h[0] == CR && h[1] == LF)
  {
    AtTwo(lines[0], CR, LF, 0);
  }

  lemma {:induction false} TerminatedConcat(a: seq<Bytes>, b: seq<Bytes>)
    ensures Terminated(a + b) == Terminated(a) + Terminated(b)
  {
    if a == [] {
      assert a + b == b;
    } else {
      hide Terminated;
      TerminatedConcat(a[1..], b);
      TerminatedCons(a[0], a[1..]);
      TerminatedCons(a[0], a[1..] + b);
      FirstAndRest(a, b);
      Associate(a[0] + CRLF, Terminated(a[1..]), Terminated(b));
    }
  }

  lemma TerminatedCons(x: Bytes, lines: seq<Bytes>)
    ensures Terminated([x] + lines) == x + CRLF + Terminated(lines)
  {
    assert ([x] + lines)[1..] == lines;
  }

  lemma TerminatedEnds(lines: seq<Bytes>)
    requires lines != []
    ensures EndsWith(Terminated(lines), CRLF)
  {
    TerminatedJoin(lines);
  }

  /** An empty header line makes a blank line before the end. */
  lemma EmptyLineMakesBlank(lines: seq<Bytes>, k: nat)
    requires 1 <= k < |lines| && lines[k] == []
    ensures exists j :: 0 <= j < |HeaderBytes(lines)| - 4 && At(HeaderBytes(lines), BLANK_LINE, j)
  {
    hide At;
    var before, after := Terminated(lines[..k]), Terminated(lines[k + 1..]);
    TerminatedConcat(lines[..k], lines[k..]);
    TerminatedEnds(lines[..k]);
    TakeDrop(lines, k);
    assert lines[k..][1..] == lines[k + 1..];
    var h := HeaderBytes(lines);
    assert h == before + (CRLF + (after + CRLF));
    var j := |before| - 2;
    AtInside(before, CRLF);
    AtAppend(before, CRLF + (after + CRLF), CRLF, j);
    AtTwo(h, CR, LF, j + 2);
    AtBlankLine(h, j);
  }

  /** And conversely: a header whose first blank line is its end has no empty header line. */
  lemma NoEmptyLine(lines: seq<Bytes>, k: nat)
    requires 1 <= k < |lines| && IsHeader(HeaderBytes(lines))
    ensures lines[k] != []
  {
    hide At, Terminated;
    if lines[k] == [] { EmptyLineMakesBlank(lines, k); }
  }

  // ----- what reordering keeps

  lemma {:induction false} LengthSplits(p: Bytes -> bool, q: Bytes -> bool, u: Bytes -> bool, s: seq<Bytes>)
    requires forall x :: u(x) <==> p(x) || q(x)
    requires forall x :: !(p(x) && q(x))
    ensures |Terminated(Select(u, s))| == |Terminated(Select(p, s))| + |Terminated(Select(q, s))|
  {
    if s != [] {
      var x, rest := s[0], s[1..];
      LengthSplits(p, q, u, rest);
      TerminatedCons(x, Select(p, rest));
      TerminatedCons(x, Select(q, rest));
      TerminatedCons(x, Select(u, rest));
      assert [] + Select(p, rest) == Select(p, rest) && [] + Select(q, rest) == Select(q, rest) &&
          [] + Select(u, rest) == Select(u, rest);
    }
  }

  lemma {:induction false} OrderedLength(r: Rules, lines: seq<Bytes>, names: seq<Bytes>, k: nat)
    requires k <= |names|
    ensures |Terminated(OrderedFrom(r, lines, names, k))| == |Terminated(Select(HasRankFrom(r, names, k), lines))|
    decreases |names| - k
  {
    var here, above := HasRank(r, names, k), HasRankFrom(r, names, k + 1);
    LengthSplits(here, above, HasRankFrom(r, names, k), lines);
    var later := if k == |names| then [] else OrderedFrom(r, lines, names, k + 1);
    assert OrderedFrom(r, lines, names, k) == Select(here, lines) + later;
    if k == |names| { SelectAll(above, lines); }
    hide Rank, Select, Terminated;
    TerminatedConcat(Select(here, lines), later);
    if k < |names| { OrderedLength(r, lines, names, k + 1); }
  }

  lemma {:induction false} OrderedTwice(r: Rules, lines: seq<Bytes>, names: seq<Bytes>, k: nat)
    requires k <= |names|
    ensures OrderedFrom(r, Ordered(r, lines, names), names, k) == OrderedFrom(r, lines, names, k)
    decreases |names| - k
  {
    hide Rank, Select;
    OrderedKeeps(r, lines, names, HasRank(r, names, k), k, 0);
    if k < |names| { OrderedTwice(r, lines, names, k + 1); }
  }

  lemma {:induction false} ContentLengthOfSelected(r: Rules, lines: seq<Bytes>)
    ensures var named := Select(HasName(r, CONTENT_LENGTH), lines);
            ContentLength(r, lines) == if named == [] then 0 else LengthValue(named[0])
  {
    hide Named, LengthValue;
    if lines != [] { ContentLengthOfSelected(r, lines[1..]); }
  }

  /** Reordering a header line list leaves the announced framing and the total length as they were. */
  lemma ReorderingKeepsFraming(r: Rules, lines: seq<Bytes>, names: seq<Bytes>)
    ensures var o := Ordered(r, lines, names);
            && ContentLength(r, o) == ContentLength(r, lines)
            && UsesChunked(r, o) == UsesChunked(r, lines)
            && |Terminated(o)| == |Terminated(lines)|
            && multiset(o) == multiset(lines)
            && (names == [] ==> o == lines)
  {
    var o := Ordered(r, lines, names);
    StableReordering(r, lines, names, CONTENT_LENGTH);
    ContentLengthOfSelected(r, lines);
    ContentLengthOfSelected(r, o);
    SameMembers(o, lines);
    UsesChunkedMembers(r, o);
    UsesChunkedMembers(r, lines);
    OrderedLength(r, lines, names, 0);
    SelectAll(HasRankFrom(r, names, 0), lines);
    SelectAll(HasRank(r, names, 0), lines);
  }

  lemma SameMembers(a: seq<Bytes>, b: seq<Bytes>)
    requires multiset(a) == multiset(b)
    ensures forall x :: x in a <==> x in b
  {
    assert forall x :: x in a <==> x in multiset(a);
    assert forall x :: x in b <==> x in multiset(b);
  }

  predicate NoLineEnds(lines: seq<Bytes>) {
    forall l :: l in lines ==> Index(l, CRLF) == -1
  }

  lemma ReorderedLinesFormHeader(r: Rules, lines: seq<Bytes>)
    requires lines != [] && NoLineEnds(lines) && IsHeader(HeaderBytes(lines))
    ensures var o := ReorderedLines(r, lines);
            && NoLineEnds(o) && IsHeader(HeaderBytes(o)) && multiset(o) == multiset(lines)
  {
    hide Ordered, Index, Terminated, DesiredNames;
    var tail := lines[1..];
    var ordered := Ordered(r, tail, DesiredNames(r, lines[0]));
    ReorderingKeepsFraming(r, tail, DesiredNames(r, lines[0]));
    SameMembers(ordered, tail);
    assert lines == [lines[0]] + tail;
    forall line | line in ordered ensures line != [] && Index(line, CRLF) == -1 {
      var m :| 0 <= m < |tail| && tail[m] == line;
      NoEmptyLine(lines, m + 1);
      assert lines[m + 1] == line;
    }
    FormHeader(lines[0], ordered);
  }

  lemma FormHeader(first: Bytes, rest: seq<Bytes>)
    requires Index(first, CRLF) == -1
    requires forall line :: line in rest ==> line != [] && Index(line, CRLF) == -1
    ensures NoLineEnds([first] + rest) && IsHeader(HeaderBytes([first] + rest))
  {
    var lines := [first] + rest;
    assert forall k :: 1 <= k < |lines| ==> lines[k] == rest[k - 1] && rest[k - 1] in rest;
    BlankLineAtEnd(lines);
  }

  /** The reordered header is a header of the same length with the same framing; its lines are the
      reordered lines, and reordering it again changes nothing. */
  lemma ReorderedHeader(r: Rules, header: Bytes)
    requires IsHeader(header)
    ensures var out := Reordered(r, header);
            && |out| == |header| && IsHeader(out)
            && Lines(out) == ReorderedLines(r, Lines(header))
            && multiset(Lines(out)) == multiset(Lines(header))
            && ContentLength(r, Lines(out)[1..]) == ContentLength(r, Lines(header)[1..])
            && UsesChunked(r, Lines(out)[1..]) == UsesChunked(r, Lines(header)[1..])
            && Reordered(r, out) == out
            && (DesiredNames(r, Lines(header)[0]) == [] ==> out == header)
  {
    var lines := Lines(header);
    var tail, names := lines[1..], DesiredNames(r, lines[0]);
    var newLines := ReorderedLines(r, lines);
    HeaderLines(header);
    ReorderedLinesFormHeader(r, lines);
    LinesOfHeader(newLines);
    assert newLines[1..] == Ordered(r, tail, names);
    ReorderingKeepsFraming(r, tail, names);
    assert lines == [lines[0]] + tail;
    TerminatedCons(lines[0], tail);
    TerminatedCons(lines[0], newLines[1..]);
    OrderedTwice(r, tail, names, 0);
    assert ReorderedLines(r, newLines) == newLines;
  }

  // ----- the loops

  method RequestContentLength(r: Rules, lines: seq<Bytes>) returns (length: nat)
    ensures Announced(r, lines, length) && length == ContentLength(r, lines)
  {
    LengthAnnounced(r, lines);
    hide Announced;
    for i := 0 to |lines|
      invariant ContentLength(r, lines) == ContentLength(r, lines[i..])
    {
      assert lines[i..][1..] == lines[i + 1..];
      if !Named(r, lines[i], CONTENT_LENGTH) { continue; }
      return LengthValue(lines[i]);
    }
    return 0;
  }

  method LineListsChunked(r: Rules, codings: seq<Bytes>) returns (chunked: bool)
    ensures chunked == ListsChunked(r, codings)
  {
    for i := 0 to |codings|
      invariant ListsChunked(r, codings) == ListsChunked(r, codings[i..])
    {
      assert codings[i..][1..] == codings[i + 1..];
      if IsChunkedCoding(r, codings[i]) { return true; }
    }
    return false;
  }

  method RequestUsesChunked(r: Rules, lines: seq<Bytes>) returns (chunked: bool)
    ensures chunked <==> AnnouncedChunked(r, lines)
    ensures chunked == UsesChunked(r, lines)
  {
    ChunkedAnnounced(r, lines);
    hide AnnouncedChunked;
    for i := 0 to |lines|
      invariant UsesChunked(r, lines) == UsesChunked(r, lines[i..])
    {
      assert lines[i..][1..] == lines[i + 1..];
      if !Named(r, lines[i], TRANSFER_ENCODING) { continue; }
      var found := LineListsChunked(r, Codings(lines[i]));
      if found { return true; }
    }
    return false;
  }

  lemma SelectNext<T>(p: T -> bool, s: seq<T>, i: nat)
    requires i < |s|
    ensures Select(p, s[..i + 1]) == Select(p, s[..i]) + if p(s[i]) then [s[i]] else []
  {
    assert s[..i + 1] == s[..i] + [s[i]];
    SelectConcat(p, s[..i], [s[i]]);
  }

  /** `used` marks the lines of rank below `k`, and of rank `k` among the first `n`. */
  ghost predicate Marks(r: Rules, lines: seq<Bytes>, names: seq<Bytes>, k: nat, n: nat, used: seq<bool>) {
    && |used| == |lines|
    && forall j :: 0 <= j < |lines| ==> used[j] == (Rank(r, lines[j], names) < if j < n then k + 1 else k)
  }

  /** One pass over the header lines for one configured name. */
  method PlaceNamed(r: Rules, lines: seq<Bytes>, names: seq<Bytes>, k: nat, used: array<bool>)
    returns (placed: seq<Bytes>)
    requires k < |names| && Marks(r, lines, names, k, 0, used[..])
    modifies used
    ensures placed == Select(HasRank(r, names, k), lines)
    ensures Marks(r, lines, names, k + 1, 0, used[..])
  {
    placed := [];
    for i := 0 to |lines|
      invariant placed == Select(HasRank(r, names, k), lines[..i])
      invariant Marks(r, lines, names, k, i, used[..])
    {
      SelectNext(HasRank(r, names, k), lines, i);
      ghost var before := used[..];
      var take := !used[i] && Named(r, lines[i], names[k]);
      if take {
        placed := placed + [lines[i]];
        used[i] := true;
      }
      assert used[..] == if take then before[i := true] else before;
      NextMark(r, lines, names, k, i, before);
    }
    assert lines[..|lines|] == lines;
  }

  lemma NextMark(r: Rules, lines: seq<Bytes>, names: seq<Bytes>, k: nat, n: nat, used: seq<bool>)
    requires n < |lines| && k < |names| && Marks(r, lines, names, k, n, used)
    ensures var take := !used[n] && Named(r, lines[n], names[k]);
            && Marks(r, lines, names, k, n + 1, if take then used[n := true] else used)
            && take == (Rank(r, lines[n], names) == k)
  {
    var rank := Rank(r, lines[n], names);
    assert used[n] == (rank < k);
  }

  method PlaceUnused(r: Rules, lines: seq<Bytes>, names: seq<Bytes>, used: array<bool>) returns (placed: seq<Bytes>)
    requires Marks(r, lines, names, |names|, 0, used[..])
    ensures placed == Select(HasRank(r, names, |names|), lines)
  {
    placed := [];
    for i := 0 to |lines|
      invariant placed == Select(HasRank(r, names, |names|), lines[..i])
    {
      SelectNext(HasRank(r, names, |names|), lines, i);
      assert used[..][i] == (Rank(r, lines[i], names) < |names|);
      if !used[i] { placed := placed + [lines[i]]; }
    }
    assert lines[..|lines|] == lines;
  }

  method WriteHeader(lines: seq<Bytes>) returns (output: Bytes)
    ensures output == HeaderBytes(lines)
  {
    output := [];
    for i := 0 to |lines|
      invariant output == Terminated(lines[..i])
    {
      assert lines[..i + 1] == lines[..i] + [lines[i]];
      TerminatedConcat(lines[..i], [lines[i]]);
      output := output + lines[i] + CRLF;
    }
    assert lines[..|lines|] == lines;
    output := output + CRLF;
  }

  lemma NextRank(r: Rules, lines: seq<Bytes>, names: seq<Bytes>, k: nat, before: seq<Bytes>)
    requires k < |names|
    ensures before + OrderedFrom(r, lines, names, k) ==
            before + Select(HasRank(r, names, k), lines) + OrderedFrom(r, lines, names, k + 1)
  {
  }

  method PlaceLines(r: Rules, lines: seq<Bytes>, desired: seq<Bytes>) returns (ordered: seq<Bytes>)
    ensures ordered == Ordered(r, lines, desired)
  {
    var used := new bool[|lines|](_ => false);
    ordered := [];
    for k := 0 to |desired|
      invariant ordered + OrderedFrom(r, lines, desired, k) == Ordered(r, lines, desired)
      invariant Marks(r, lines, desired, k, 0, used[..])
    {
      var placed := PlaceNamed(r, lines, desired, k, used);
      NextRank(r, lines, desired, k, ordered);
      ordered := ordered + placed;
    }
    var unused := PlaceUnused(r, lines, desired, used);
    ordered := ordered + unused;
  }

  /** The header to forward and the framing it announces. */
  method OrderRequestHeader(r: Rules, header: Bytes) returns (output: Bytes, contentLength: nat, chunked: bool)
    requires IsHeader(header)
    ensures output == Reordered(r, header)
    ensures contentLength == ContentLength(r, Lines(header)[1..]) && Announced(r, Lines(header)[1..], contentLength)
    ensures chunked == UsesChunked(r, Lines(header)[1..])
  {
    var lines := Lines(header);
    contentLength := RequestContentLength(r, lines[1..]);
    chunked := RequestUsesChunked(r, lines[1..]);
    var desired := DesiredNames(r, lines[0]);
    if |desired| == 0 {
      output := header;
      assert output == Reordered(r, header) by { ReorderedHeader(r, header); }
      return;
    }
    var orderedLines := PlaceLines(r, lines[1..], desired);
    output := WriteHeader([lines[0]] + orderedLines);
  }
}
