// Byte strings: search, splitting, joining and number parsing as the wire code uses them.
module Bytes {
  type Byte = x: int | 0 <= x < 256

  type Bytes = seq<Byte>

  datatype Option<+T> = None | Some(value: T)

  const CR: Byte := 13
  const LF: Byte := 10
  const SPACE: Byte := 32
  const COMMA: Byte := 44
  const COLON: Byte := 58
  const SEMICOLON: Byte := 59
  const CRLF: Bytes := [CR, LF]
  const BLANK_LINE: Bytes := [CR, LF, CR, LF]

  /** The bytes of an ASCII literal. */
  function Ascii(s: string): (b: Bytes)
    ensures |b| == |s|
  {
    seq(|s|, i requires 0 <= i < |s| => s[i] as int % 256)
  }

  // Slicing facts, stated once so that proofs about long expressions need not rediscover them.

  lemma MoveFirst<T>(s: seq<T>, data: seq<T>, n: nat)
    requires 0 < n <= |data|
    ensures s + data[..n] == s + [data[0]] + data[1..][..n - 1]
  {
  }

  lemma TakeThenTake<T>(data: seq<T>, n: nat, m: nat)
    requires n + m <= |data|
    ensures data[..n + m] == data[..n] + data[n..][..m]
  {
  }

  lemma DropThenDrop<T>(data: seq<T>, n: nat, m: nat)
    requires n + m <= |data|
    ensures data[n..][m..] == data[n + m..]
  {
  }

  lemma TakeDrop<T>(data: seq<T>, n: nat)
    requires n <= |data|
    ensures data[..n] + data[n..] == data
  {
  }

  lemma Associate<T>(a: seq<T>, b: seq<T>, c: seq<T>)
    ensures a + b + c == a + (b + c)
  {
  }

  lemma FirstAndRest<T>(a: seq<T>, b: seq<T>)
    requires a != []
    ensures a == [a[0]] + a[1..] && a + b == [a[0]] + (a[1..] + b)
  {
  }

  /** `sub` occurs in `s` at offset `i`. */
  predicate At(s: Bytes, sub: Bytes, i: int) {
    0 <= i <= |s| - |sub| && s[i..i + |sub|] == sub
  }

  predicate EndsWith(s: Bytes, suffix: Bytes) {
    At(s, suffix, |s| - |suffix|)
  }

  // Occurrences, in terms of single bytes and of the parts of a concatenation.

  lemma AtOne(s: Bytes, x: Byte, j: int)
    ensures At(s, [x], j) <==> 0 <= j < |s| && s[j] == x
  {
    if 0 <= j < |s| { assert s[j..j + 1] == [s[j]]; }
  }

  lemma AtTwo(s: Bytes, x: Byte, y: Byte, j: int)
    ensures At(s, [x, y], j) <==> 0 <= j < |s| - 1 && s[j] == x && s[j + 1] == y
  {
    if 0 <= j < |s| - 1 { assert s[j..j + 2] == [s[j], s[j + 1]]; }
  }

  lemma AtBlankLine(s: Bytes, j: int)
    ensures At(s, BLANK_LINE, j) <==> At(s, CRLF, j) && At(s, CRLF, j + 2)
  {
    if 0 <= j <= |s| - 4 {
      AtTwo(s, CR, LF, j);
      AtTwo(s, CR, LF, j + 2);
      assert s[j..j + 4] == [s[j], s[j + 1], s[j + 2], s[j + 3]];
    }
  }

  lemma AtAppend(a: Bytes, b: Bytes, sub: Bytes, j: int)
    ensures 0 <= j <= |a| - |sub| ==> (At(a + b, sub, j) <==> At(a, sub, j))
    ensures j >= |a| ==> (At(a + b, sub, j) <==> At(b, sub, j - |a|))
  {
    if 0 <= j <= |a| - |sub| {
      assert (a + b)[j..j + |sub|] == a[j..j + |sub|];
    } else if |a| <= j <= |a| + |b| - |sub| {
      assert (a + b)[j..j + |sub|] == b[j - |a|..j - |a| + |sub|];
    }
  }

  /** Offset of the first occurrence at or after `from`, or -1. */
  function IndexFrom(s: Bytes, sub: Bytes, from: nat): (r: int)
    ensures r == -1 || (r >= from && At(s, sub, r))
    ensures forall j :: from <= j && (r == -1 || j < r) ==> !At(s, sub, j)
    decreases |s| - from
  {
    if At(s, sub, from) then from
    else if from >= |s| then -1
    else IndexFrom(s, sub, from + 1)
  }

  function Index(s: Bytes, sub: Bytes): (r: int)
    ensures r == -1 || At(s, sub, r)
    ensures forall j :: 0 <= j && (r == -1 || j < r) ==> !At(s, sub, j)
  {
    IndexFrom(s, sub, 0)
  }

  /** The first occurrence is determined by its two defining properties. */
  lemma IndexUnique(s: Bytes, sub: Bytes, i: nat)
    requires At(s, sub, i)
    requires forall j :: 0 <= j < i ==> !At(s, sub, j)
    ensures Index(s, sub) == i
  {
    assert At(s, sub, i);
  }

  /** One more byte completes a first occurrence, or there is still none. */
  lemma IndexExtend(s: Bytes, b: Byte, sub: Bytes)
    requires sub != [] && Index(s, sub) == -1
    ensures Index(s + [b], sub) == if EndsWith(s + [b], sub) then |s| + 1 - |sub| else -1
  {
    hide At, Index;
    var t := s + [b];
    var last := |t| - |sub|;
    forall j | 0 <= j < last ensures !At(t, sub, j) {
      AtAppend(s, [b], sub, j);
    }
    AtInside(t, sub);
    if At(t, sub, last) { IndexUnique(t, sub, last); }
  }

  lemma AtInside(s: Bytes, sub: Bytes)
    ensures forall j :: At(s, sub, j) ==> 0 <= j <= |s| - |sub|
  {
  }

  lemma NoneInPrefix(a: Bytes, b: Bytes, sub: Bytes)
    requires Index(a + b, sub) == -1
    ensures Index(a, sub) == -1
  {
    hide At, Index;
    AtInside(a, sub);
    forall j | At(a, sub, j) ensures At(a + b, sub, j) {
      AtAppend(a, b, sub, j);
    }
  }

  /** Cuts `s` at every occurrence of `sep`, left to right. */
  function Split(s: Bytes, sep: Bytes): (pieces: seq<Bytes>)
    requires |sep| > 0
    ensures |pieces| > 0
    ensures forall k :: 0 <= k < |pieces| ==> Index(pieces[k], sep) == -1
    decreases |s|
  {
    var i := Index(s, sep);
    if i == -1 then [s]
    else
      PrefixFree(s, sep, i);
      [s[..i]] + Split(s[i + |sep|..], sep)
  }

  lemma PrefixFree(s: Bytes, sep: Bytes, i: nat)
    requires |sep| > 0 && Index(s, sep) == i
    ensures Index(s[..i], sep) == -1
  {
    hide At, Index;
    AtInside(s, sep);
    AtInside(s[..i], sep);
    TakeDrop(s, i);
    forall j | At(s[..i], sep, j) ensures At(s, sep, j) {
      AtAppend(s[..i], s[i..], sep, j);
    }
  }

  function Join(pieces: seq<Bytes>, sep: Bytes): Bytes {
    if |pieces| == 0 then []
    else if |pieces| == 1 then pieces[0]
    else pieces[0] + sep + Join(pieces[1..], sep)
  }

  lemma {:induction false} JoinSplit(s: Bytes, sep: Bytes)
    requires |sep| > 0
    ensures Join(Split(s, sep), sep) == s
    decreases |s|
  {
    var i := Index(s, sep);
    if i != -1 {
      var rest := s[i + |sep|..];
      JoinSplit(rest, sep);
      JoinCons(s[..i], Split(rest, sep), sep);
      TakeThenTake(s, i, |sep|);
      assert s[i..][..|sep|] == s[i..i + |sep|];
      TakeDrop(s, i + |sep|);
    }
  }

  lemma JoinCons(head: Bytes, tail: seq<Bytes>, sep: Bytes)
    requires |tail| > 0
    ensures Join([head] + tail, sep) == head + sep + Join(tail, sep)
  {
    assert ([head] + tail)[1..] == tail;
  }

  /** ASCII white space. */
  predicate IsSpace(b: Byte) {
    9 <= b <= 13 || b == 32
  }

  function TrimLeft(s: Bytes): (t: Bytes)
    ensures |t| <= |s| && t == s[|s| - |t|..]
  {
    if s != [] && IsSpace(s[0]) then TrimLeft(s[1..]) else s
  }

  function TrimRight(s: Bytes): (t: Bytes)
    ensures |t| <= |s| && t == s[..|t|]
  {
    if s != [] && IsSpace(s[|s| - 1]) then TrimRight(s[..|s| - 1]) else s
  }

  function Trim(s: Bytes): Bytes {
    TrimRight(TrimLeft(s))
  }

  /** Nothing but white space. */
  predicate Blank(s: Bytes) {
    forall b :: b in s ==> IsSpace(b)
  }

  /** Neither the first nor the last byte is white space. */
  predicate Unpadded(s: Bytes) {
    s != [] ==> !IsSpace(s[0]) && !IsSpace(s[|s| - 1])
  }

  lemma {:induction false} TrimLeftStops(s: Bytes)
    ensures TrimLeft(s) != [] ==> !IsSpace(TrimLeft(s)[0])
    ensures Blank(s[..|s| - |TrimLeft(s)|])
  {
    if s != [] && IsSpace(s[0]) {
      TrimLeftStops(s[1..]);
      var n := |s| - |TrimLeft(s)|;
      assert s[..n] == [s[0]] + s[1..][..n - 1];
    }
  }

  lemma {:induction false} TrimRightStops(s: Bytes)
    ensures TrimRight(s) != [] ==> !IsSpace(TrimRight(s)[|TrimRight(s)| - 1])
    ensures Blank(s[|TrimRight(s)|..])
  {
    if s != [] && IsSpace(s[|s| - 1]) {
      TrimRightStops(s[..|s| - 1]);
      var n := |TrimRight(s)|;
      assert s[n..] == s[..|s| - 1][n..] + [s[|s| - 1]];
    }
  }

  /** White space, the trimmed text, white space. */
  lemma TrimParts(s: Bytes) returns (before: Bytes, behind: Bytes)
    ensures s == before + Trim(s) + behind && Blank(before) && Blank(behind) && Unpadded(Trim(s))
  {
    hide TrimLeft, TrimRight, Blank;
    var l := TrimLeft(s);
    var t := TrimRight(l);
    TrimLeftStops(s);
    TrimRightStops(l);
    before, behind := s[..|s| - |l|], l[|t|..];
    TakeDrop(s, |s| - |l|);
    TakeDrop(l, |t|);
    if t != [] { assert t[0] == l[0]; }
    assert before + t + behind == before + (t + behind);
  }

  /** Trimming is determined by that. */
  lemma TrimOf(before: Bytes, text: Bytes, behind: Bytes)
    requires Blank(before) && Blank(behind) && Unpadded(text)
    ensures Trim(before + text + behind) == text
  {
    var s := before + text + behind;
    if text == [] {
      assert Blank(s);
      TrimLeftOf(s, []);
      assert s + [] == s;
    } else {
      assert s == before + (text + behind);
      TrimLeftOf(before, text + behind);
      TrimRightOf(text, behind);
    }
  }

  lemma {:induction false} TrimLeftOf(before: Bytes, text: Bytes)
    requires Blank(before) && (text != [] ==> !IsSpace(text[0]))
    ensures TrimLeft(before + text) == text
  {
    if before == [] {
      assert before + text == text;
    } else {
      assert (before + text)[1..] == before[1..] + text && before[0] in before;
      TrimLeftOf(before[1..], text);
    }
  }

  lemma {:induction false} TrimRightOf(text: Bytes, behind: Bytes)
    requires Blank(behind) && (text != [] ==> !IsSpace(text[|text| - 1]))
    ensures TrimRight(text + behind) == text
    decreases |behind|
  {
    if behind == [] {
      assert text + behind == text;
    } else {
      var last := |behind| - 1;
      assert (text + behind)[..|text + behind| - 1] == text + behind[..last] && behind[last] in behind;
      TrimRightOf(text, behind[..last]);
    }
  }

  lemma TrimTwice(s: Bytes)
    ensures Trim(Trim(s)) == Trim(s)
  {
    var _, _ := TrimParts(s);
    hide Trim;
    TrimOf([], Trim(s), []);
    assert [] + Trim(s) + [] == Trim(s);
  }

  /** The first of a byte that the text before it lacks. */
  lemma FirstByte(text: Bytes, b: Byte, rest: Bytes)
    requires b !in text
    ensures Index(text + [b] + rest, [b]) == |text|
  {
    hide At, Index;
    var data := text + [b] + rest;
    forall j | 0 <= j < |text| ensures !At(data, [b], j) {
      AtOne(data, b, j);
      assert data[j] == text[j];
    }
    AtOne(data, b, |text|);
    IndexUnique(data, [b], |text|);
  }

  // ----- numbers

  const MAX_INT64: nat := 0x7fff_ffff_ffff_ffff

  /** The value of a digit in the given base; -1 when it is not one. */
  function DigitValue(b: Byte, base: nat): (d: int)
    ensures -1 <= d < base
  {
    var d := if 48 <= b <= 57 then b - 48
             else if 97 <= b <= 122 then b - 87
             else if 65 <= b <= 90 then b - 55
             else base as int;
    if d < base then d else -1
  }

  function Magnitude(s: Bytes, base: nat): Option<nat> {
    if s == [] then Some(0)
    else
      var d := DigitValue(s[|s| - 1], base);
      var high := Magnitude(s[..|s| - 1], base);
      if d < 0 || high == None then None else Some(high.value * base + d)
  }

  /** strconv.ParseInt(s, base, 64); None stands for its error. */
  function ParseInt(s: Bytes, base: nat): Option<int>
  {
    var signed := s != [] && (s[0] == 43 || s[0] == 45);
    var digits := if signed then s[1..] else s;
    if digits == [] then None
    else
      match Magnitude(digits, base)
      case None => None
      case Some(m) =>
        if signed && s[0] == 45 then (if m <= MAX_INT64 + 1 then Some(0 - m) else None)
        else if m <= MAX_INT64 then Some(m) else None
  }

  /** A number in base ten, without leading zeros. */
  function Decimal(n: nat): (s: Bytes)
    ensures s != []
  {
    if n < 10 then [48 + n] else Decimal(n / 10) + [48 + n % 10]
  }

  function Zeros(k: nat): (s: Bytes)
    ensures |s| == k
  {
    if k == 0 then [] else Zeros(k - 1) + [48]
  }

  predicate IsDigits(s: Bytes) {
    forall b :: b in s ==> 48 <= b <= 57
  }

  /** `n` written out: a plus sign or none, any number of zeros, and the digits of the number. */
  predicate Writes(s: Bytes, sign: Bytes, zeros: nat, n: nat) {
    (sign == [] || sign == [43]) && s == sign + Zeros(zeros) + Decimal(n)
  }

  ghost predicate IsNumeral(s: Bytes, n: nat) {
    exists sign: Bytes, zeros: nat :: Writes(s, sign, zeros, n)
  }

  lemma MagnitudeSnoc(s: Bytes, b: Byte)
    ensures var d, high := DigitValue(b, 10), Magnitude(s, 10);
            Magnitude(s + [b], 10) == if d < 0 || high == None then None else Some(high.value * 10 + d)
  {
    assert (s + [b])[..|s|] == s;
  }

  lemma DigitsConcat(a: Bytes, b: Bytes)
    ensures IsDigits(a + b) <==> IsDigits(a) && IsDigits(b)
  {
    forall x | x in a ensures x in a + b {}
    forall x | x in b ensures x in a + b {}
  }

  lemma {:induction false} DecimalParses(n: nat)
    ensures Magnitude(Decimal(n), 10) == Some(n) && IsDigits(Decimal(n))
  {
    var last: Byte := 48 + n % 10;
    if n < 10 {
      MagnitudeSnoc([], last);
      assert [] + [last] == [last];
    } else {
      DecimalParses(n / 10);
      MagnitudeSnoc(Decimal(n / 10), last);
      DigitsConcat(Decimal(n / 10), [last]);
      hide Magnitude, IsDigits;
      assert IsDigits([last]) by { OneDigit(last); }
    }
  }

  lemma OneDigit(b: Byte)
    ensures IsDigits([b]) <==> 48 <= b <= 57
    ensures DigitValue(b, 10) == if 48 <= b <= 57 then b - 48 else -1
  {
    assert b in [b];
  }

  lemma {:induction false} ZerosParse(k: nat)
    ensures Magnitude(Zeros(k), 10) == Some(0) && IsDigits(Zeros(k))
  {
    if k > 0 {
      ZerosParse(k - 1);
      MagnitudeSnoc(Zeros(k - 1), 48);
      DigitsConcat(Zeros(k - 1), [48]);
      hide Magnitude;
    }
  }

  lemma {:induction false} LeadingZeros(k: nat, s: Bytes)
    ensures Magnitude(Zeros(k) + s, 10) == Magnitude(s, 10)
    decreases |s|
  {
    if s == [] {
      assert Zeros(k) + s == Zeros(k);
      ZerosParse(k);
    } else {
      var init, b := s[..|s| - 1], s[|s| - 1];
      LeadingZeros(k, init);
      MagnitudeSnoc(Zeros(k) + init, b);
      MagnitudeSnoc(init, b);
      hide Magnitude;
      assert s == init + [b] && Zeros(k) + s == Zeros(k) + init + [b];
    }
  }

  lemma DecimalValue(n: nat)
    requires n <= MAX_INT64
    ensures ParseInt(Decimal(n), 10) == Some(n)
  {
    hide ParseInt;
    assert [] + Zeros(0) + Decimal(n) == Decimal(n);
    NumeralParses(Decimal(n), [], 0, n);
  }

  /** A written number parses as that number as long as it has 64 bits. */
  lemma NumeralParses(s: Bytes, sign: Bytes, zeros: nat, n: nat)
    requires Writes(s, sign, zeros, n)
    ensures ParseInt(s, 10) == if n <= MAX_INT64 then Some(n) else None
    ensures Unpadded(s) && s != []
  {
    hide Magnitude, Decimal, Zeros, ParseInt, IsDigits;
    var digits := Zeros(zeros) + Decimal(n);
    LeadingZeros(zeros, Decimal(n));
    DecimalParses(n);
    ZerosParse(zeros);
    DigitsConcat(Zeros(zeros), Decimal(n));
    assert s == sign + digits;
    SignedDigits(sign, digits);
  }

  lemma SignedDigits(sign: Bytes, digits: Bytes)
    requires (sign == [] || sign == [43]) && digits != [] && IsDigits(digits)
    ensures Unpadded(sign + digits) && sign + digits != []
    ensures var m := Magnitude(digits, 10);
            ParseInt(sign + digits, 10) == if m.Some? && m.value <= MAX_INT64 then Some(m.value) else None
  {
    hide Magnitude;
    var s := sign + digits;
    assert digits[0] in digits && digits[|digits| - 1] in digits && s[|s| - 1] == digits[|digits| - 1];
    if sign == [] { assert s == digits; } else { assert s[1..] == digits && s[0] == 43; }
  }

  lemma {:induction false} DigitsAreNumeral(s: Bytes) returns (zeros: nat, n: nat)
    requires s != [] && IsDigits(s)
    ensures s == Zeros(zeros) + Decimal(n) && Magnitude(s, 10) == Some(n)
  {
    hide Zeros, Decimal, Magnitude, IsDigits;
    var init, b := s[..|s| - 1], s[|s| - 1];
    assert s == init + [b];
    DigitsConcat(init, [b]);
    OneDigit(b);
    MagnitudeSnoc(init, b);
    if init == [] {
      OneDigitNumeral(b);
      zeros, n := 0, b - 48;
      assert s == [b];
    } else {
      zeros, n := DigitsAreNumeral(init);
      zeros, n := NumeralSnoc(zeros, n, b);
    }
  }

  lemma OneDigitNumeral(b: Byte)
    requires 48 <= b <= 57
    ensures [b] == Zeros(0) + Decimal(b - 48) && Magnitude([b], 10) == Some(b - 48)
  {
    assert [b][..0] == [];
  }

  lemma NumeralSnoc(zeros: nat, n: nat, b: Byte) returns (zeros': nat, n': nat)
    requires 48 <= b <= 57
    ensures Zeros(zeros) + Decimal(n) + [b] == Zeros(zeros') + Decimal(n') && n' == n * 10 + (b - 48)
  {
    n' := n * 10 + (b - 48);
    if n == 0 {
      zeros' := zeros + 1;
      assert Decimal(0) == [48] && Zeros(zeros + 1) == Zeros(zeros) + [48];
      hide Zeros;
      assert Decimal(n') == [b];
    } else {
      zeros' := zeros;
      NextDigit(n, b);
      hide Zeros, Decimal;
      assert Zeros(zeros) + Decimal(n) + [b] == Zeros(zeros) + (Decimal(n) + [b]);
    }
  }

  lemma NextDigit(n: nat, b: Byte)
    requires n > 0 && 48 <= b <= 57
    ensures Decimal(n * 10 + (b - 48)) == Decimal(n) + [b]
  {
  }

  lemma {:induction false} MagnitudeOfDigits(s: Bytes)
    ensures Magnitude(s, 10).Some? <==> IsDigits(s)
  {
    if s != [] {
      var init, b := s[..|s| - 1], s[|s| - 1];
      MagnitudeOfDigits(init);
      assert s == init + [b];
      MagnitudeSnoc(init, b);
      DigitsConcat(init, [b]);
      OneDigit(b);
      hide Magnitude, IsDigits;
    }
  }

  /** What parses as a positive number is that number, written out, within 64 bits. */
  lemma ParsedIsNumeral(s: Bytes)
    requires ParseInt(s, 10).Some? && ParseInt(s, 10).value > 0
    ensures ParseInt(s, 10).value <= MAX_INT64 && IsNumeral(s, ParseInt(s, 10).value)
  {
    var sign, digits := ParsedParts(s);
    MagnitudeOfDigits(digits);
    var zeros, n := DigitsAreNumeral(digits);
    hide Magnitude, Decimal, Zeros, ParseInt;
    assert s == sign + Zeros(zeros) + Decimal(n) by { assert sign + (Zeros(zeros) + Decimal(n)) == s; }
    assert Writes(s, sign, zeros, n);
  }

  lemma ParsedParts(s: Bytes) returns (sign: Bytes, digits: Bytes)
    requires ParseInt(s, 10).Some? && ParseInt(s, 10).value > 0
    ensures s == sign + digits && (sign == [] || sign == [43]) && digits != []
    ensures Magnitude(digits, 10) == Some(ParseInt(s, 10).value) && ParseInt(s, 10).value <= MAX_INT64
  {
    hide Magnitude;
    var signed := s[0] == 43 || s[0] == 45;
    sign, digits := if signed then s[..1] else [], if signed then s[1..] else s;
  }
}
