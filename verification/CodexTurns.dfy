// The chains of the Codex reasoning replay cache (internal/cache/codex_reasoning_replay_cache.go): turns
// opened by markers, appended through compare-and-swap and trimmed at turn boundaries.
module CodexTurns {
  import opened Bytes

  const MAX_TURNS: nat := 256
  const MAX_BYTES: nat := 0x100_0000

  /** A stored item with its parsed view: whether it is a turn marker, and its trimmed identifier. */
  datatype Item = Item(raw: Bytes, marker: bool, id: string)

  type Items = seq<Item>

  function SizeOf(items: Items): nat {
    if items == [] then 0 else SizeOf(items[..|items| - 1]) + |items[|items| - 1].raw|
  }

  /** Where the turns start: at 0 and at every later marker. */
  function Starts(items: Items): (starts: seq<nat>)
    ensures |starts| >= 1 && starts[0] == 0
    ensures forall i :: 0 < i < |starts| ==> 0 < starts[i] < |items| && items[starts[i]].marker
  {
    if |items| <= 1 then [0]
    else
      var rest := Starts(items[..|items| - 1]);
      if items[|items| - 1].marker then rest + [|items| - 1] else rest
  }

  predicate Within(items: Items) {
    |Starts(items)| <= MAX_TURNS && SizeOf(items) <= MAX_BYTES
  }

  /** The suffix from `n` begins at a turn boundary. */
  predicate Aligned(items: Items, n: nat) {
    n == 0 || (n < |items| && items[n].marker)
  }

  function Trimmed(items: Items): Items {
    if Within(items) then items
    else if |Starts(items)| <= 1 then []
    else Trimmed(items[Starts(items)[1]..])
  }

  predicate IsLongest(items: Items, n: nat) {
    && n <= |items| && Aligned(items, n) && Within(items[n..])
    && forall m: nat :: m < n && Aligned(items, m) ==> !Within(items[m..])
  }

  predicate NoneFits(items: Items) {
    forall m: nat :: m < |items| && Aligned(items, m) ==> !Within(items[m..])
  }

  lemma {:induction false} FirstStart(items: Items)
    ensures |Starts(items)| > 1 ==> forall m :: 0 < m < Starts(items)[1] ==> !items[m].marker
    ensures |Starts(items)| == 1 ==> forall m :: 0 < m < |items| ==> !items[m].marker
  {
    if |items| > 1 {
      FirstStart(items[..|items| - 1]);
    }
  }

  /** What is counted: the beginning and every later marker, once each and in order, and the bytes of all items. */
  lemma {:induction false} CountedTurns(items: Items)
    ensures forall i :: 0 <= i < |items| && (i == 0 || items[i].marker) ==> i in Starts(items)
    ensures forall j, k :: 0 <= j < k < |Starts(items)| ==> Starts(items)[j] < Starts(items)[k]
  {
    if |items| > 1 {
      var last := |items| - 1;
      CountedTurns(items[..last]);
      var rest := Starts(items[..last]);
      forall i | 0 <= i < |items| && (i == 0 || items[i].marker) ensures i in Starts(items) {
        if i < last {
          assert items[..last][i] == items[i] && i in rest;
        } else {
          assert Starts(items)[|rest|] == last;
        }
      }
    }
  }

  lemma {:induction false} CountedBytes(a: Items, b: Items)
    ensures SizeOf(a + b) == SizeOf(a) + SizeOf(b)
    ensures |a| == 1 ==> SizeOf(a) == |a[0].raw|
    decreases |b|
  {
    if |a| == 1 { assert a[..0] == []; }
    if b == [] {
      assert a + b == a;
    } else {
      var last := |b| - 1;
      assert (a + b)[..|a + b| - 1] == a + b[..last];
      CountedBytes(a, b[..last]);
    }
  }

  /** Trimming returns the longest suffix that begins at a turn boundary and is within the limits, and
      nothing when no such suffix is. */
  lemma {:induction false} TrimmedIsLongest(items: Items)
    ensures (exists n: nat :: IsLongest(items, n) && Trimmed(items) == items[n..]) ||
            (Trimmed(items) == [] && items != [] && NoneFits(items))
    decreases |items|
  {
    hide SizeOf, Starts, Within;
    if Within(items) {
      assert items[0..] == items;
      assert IsLongest(items, 0);
    } else if |Starts(items)| <= 1 {
      OneTurn(items);
    } else {
      var n := Starts(items)[1];
      TrimmedIsLongest(items[n..]);
      FirstStart(items);
      if k: nat :| IsLongest(items[n..], k) && Trimmed(items[n..]) == items[n..][k..] {
        LaterLongest(items, n, k);
      } else {
        LaterNoneFits(items, n);
      }
    }
  }

  lemma OneTurn(items: Items)
    requires |Starts(items)| == 1 && !Within(items)
    ensures items != [] && NoneFits(items)
  {
    FirstStart(items);
    assert items[0..] == items;
    assert Within([]);
  }

  lemma SuffixAligned(items: Items, n: nat, m: nat)
    requires n <= m < |items| && items[n].marker
    ensures Aligned(items, m) <==> Aligned(items[n..], m - n)
    ensures items[n..][m - n..] == items[m..]
  {
    DropThenDrop(items, n, m - n);
    assert items[n..][m - n] == items[m];
  }

  lemma LaterNoneFits(items: Items, n: nat)
    requires 0 < n < |items| && items[n].marker && !Within(items) && NoneFits(items[n..])
    requires forall m :: 0 < m < n ==> !items[m].marker
    ensures NoneFits(items)
  {
    hide SizeOf, Starts, Within;
    forall m: nat | m < |items| && Aligned(items, m) ensures !Within(items[m..]) {
      if m >= n { SuffixAligned(items, n, m); } else { assert items[0..] == items; }
    }
  }

  lemma LaterLongest(items: Items, n: nat, k: nat)
    requires 0 < n < |items| && items[n].marker && !Within(items) && IsLongest(items[n..], k)
    requires forall m :: 0 < m < n ==> !items[m].marker
    ensures IsLongest(items, n + k) && items[n..][k..] == items[n + k..]
  {
    hide SizeOf, Starts, Within;
    AlignedEnd(items[n..], k);
    SuffixAligned(items, n, n + k);
    forall m: nat | m < n + k && Aligned(items, m) ensures !Within(items[m..]) {
      if m >= n { SuffixAligned(items, n, m); } else { assert items[0..] == items; }
    }
  }

  lemma AlignedEnd(items: Items, k: nat)
    requires Aligned(items, k) && items != []
    ensures k < |items|
  {
  }

  lemma TrimmedFits(items: Items)
    ensures Within(Trimmed(items))
  {
    hide SizeOf, Starts;
    TrimmedIsLongest(items);
    NothingFits();
    hide Within;
  }

  lemma NothingFits()
    ensures Within([])
  {
  }

  // ----- appending a turn

  /** A chain that does not begin with a marker is discarded. */
  function Effective(existing: Items): Items {
    if existing != [] && !existing[0].marker then [] else existing
  }

  function TurnId(turn: Items): string {
    if turn != [] && turn[0].marker then turn[0].id else ""
  }

  predicate HasTurn(items: Items, id: string) {
    exists i :: 0 <= i < |items| && items[i].marker && items[i].id == id
  }

  function AppendTurn(existing: Items, turn: Items): Items {
    var known := Effective(existing);
    if TurnId(turn) != "" && HasTurn(known, TurnId(turn)) then Trimmed(known) else Trimmed(known + turn)
  }

  /** A fitting turn opened by a marker with an identifier is the end of the new chain, behind the most whole
      earlier turns the limits allow, unless its identifier is already there. */
  lemma FittingTurnSurvives(existing: Items, turn: Items)
    requires TurnId(turn) != "" && Within(turn) && !HasTurn(Effective(existing), TurnId(turn))
    ensures var known := Effective(existing);
            exists n: nat ::
              n <= |known| && IsLongest(known + turn, n) && AppendTurn(existing, turn) == known[n..] + turn
  {
    hide SizeOf, Starts, Within, Trimmed;
    var known := Effective(existing);
    var all := known + turn;
    TrimmedIsLongest(all);
    assert Aligned(all, |known|);
    DropAll(known, turn);
    var n: nat :| IsLongest(all, n) && Trimmed(all) == all[n..];
    DropSome(known, turn, n);
  }

  lemma DropAll(a: Items, b: Items)
    ensures (a + b)[|a|..] == b
  {
  }

  lemma DropSome(a: Items, b: Items, n: nat)
    requires n <= |a|
    ensures (a + b)[n..] == a[n..] + b
  {
  }

  predicate Opened(items: Items) {
    items != [] ==> items[0].marker
  }

  lemma TrimmedIsOpened(items: Items)
    requires Opened(items)
    ensures Opened(Trimmed(items)) && Within(Trimmed(items)) && Trimmed(Trimmed(items)) == Trimmed(items)
  {
    TrimmedFits(items);
    hide SizeOf, Starts, Within;
    TrimmedIsLongest(items);
  }

  lemma AppendedIsOpened(existing: Items, turn: Items)
    requires Opened(turn)
    ensures var r := AppendTurn(existing, turn); Opened(r) && Effective(r) == r && Within(r) && Trimmed(r) == r
  {
    hide SizeOf, Starts, Within, Trimmed, HasTurn;
    var known := Effective(existing);
    TrimmedIsOpened(known);
    TrimmedIsOpened(known + turn);
  }

  lemma TurnIsThere(rest: Items, turn: Items)
    requires TurnId(turn) != ""
    ensures HasTurn(rest + turn, TurnId(turn))
  {
    assert (rest + turn)[|rest|] == turn[0];
  }

  /** Appending a fitting turn twice is appending it once, exactly when trimming the chain does not drop a
      turn of the same identifier. */
  lemma AppendTwice(existing: Items, turn: Items)
    requires TurnId(turn) != "" && Within(turn)
    ensures var known, id := Effective(existing), TurnId(turn);
            AppendTurn(AppendTurn(existing, turn), turn) == AppendTurn(existing, turn) <==>
            (HasTurn(known, id) ==> HasTurn(Trimmed(known), id))
  {
    var known, id, once := Effective(existing), TurnId(turn), AppendTurn(existing, turn);
    AppendedIsOpened(existing, turn);
    hide SizeOf, Starts, HasTurn, Effective, Within, Trimmed;
    if HasTurn(known, id) {
      assert once == Trimmed(known);
      if !HasTurn(once, id) {
        assert Effective(once) == once;
        FittingTurnSurvives(once, turn);
        var n: nat :| n <= |once| && AppendTurn(once, turn) == once[n..] + turn;
        TurnIsThere(once[n..], turn);
      }
    } else {
      FittingTurnSurvives(existing, turn);
      var n: nat :| n <= |known| && once == known[n..] + turn;
      TurnIsThere(known[n..], turn);
    }
  }

  /** On a chain within the limits, in particular on every chain an append has left, once is enough. */
  lemma AppendTwiceWithin(existing: Items, turn: Items)
    requires TurnId(turn) != "" && Within(turn) && Within(existing)
    ensures AppendTurn(AppendTurn(existing, turn), turn) == AppendTurn(existing, turn)
  {
    AppendTwice(existing, turn);
    assert Trimmed([]) == [] by { NothingFits(); }
    hide HasTurn;
  }

  /** A turn of its marker alone. */
  function Bare(id: string): Item {
    Item([], true, id)
  }

  function Repeated(item: Item, n: nat): Items {
    if n == 0 then [] else Repeated(item, n - 1) + [item]
  }

  lemma {:induction false} BareStarts(chain: Items)
    requires chain != [] && forall i :: 0 <= i < |chain| ==> chain[i].marker
    ensures |Starts(chain)| == |chain| && (|chain| > 1 ==> Starts(chain)[1] == 1)
  {
    if |chain| > 1 { BareStarts(chain[..|chain| - 1]); }
  }

  lemma {:induction false} RepeatedItems(item: Item, n: nat)
    ensures |Repeated(item, n)| == n && forall i :: 0 <= i < n ==> Repeated(item, n)[i] == item
  {
    if n > 0 { RepeatedItems(item, n - 1); }
  }

  /** Trimming a chain of 257 bare turns drops the first. */
  lemma FirstTurnLeaves(first: string, other: string, rest: Items)
    requires first != other && |rest| == MAX_TURNS && forall i :: 0 <= i < |rest| ==> rest[i] == Bare(other)
    ensures var chain := [Bare(first)] + rest; !Within(chain) && !HasTurn(Trimmed(chain), first)
  {
    var chain := [Bare(first)] + rest;
    BareStarts(chain);
    assert chain[1..] == rest;
    hide SizeOf, Starts;
    assert Trimmed(chain) == Trimmed(rest);
    TrimmedIsLongest(rest);
    hide Trimmed, Within;
  }

  /** Twice and once differ on a chain of 257 turns whose first has the identifier: the first append finds the
      identifier and trims that very turn away, the second adds it again. Writes trim, so no write leaves such
      a chain. */
  lemma OverlongChainAppendsAgain()
    ensures var chain, turn := [Bare("a")] + Repeated(Bare("b"), MAX_TURNS), [Bare("a")];
            && TurnId(turn) != "" && Within(turn) && !Within(chain)
            && AppendTurn(AppendTurn(chain, turn), turn) != AppendTurn(chain, turn)
  {
    hide Repeated, Trimmed;
    var rest, turn := Repeated(Bare("b"), MAX_TURNS), [Bare("a")];
    var chain := turn + rest;
    assert turn[..0] == [] && Within(turn);
    hide SizeOf, Starts, Within;
    RepeatedItems(Bare("b"), MAX_TURNS);
    FirstTurnLeaves("a", "b", rest);
    assert chain[0] == Bare("a") && HasTurn(chain, "a");
    AppendTwice(chain, turn);
  }

  // ----- the methods

  method Trim(items: Items) returns (r: Items)
    ensures r == Trimmed(items)
  {
    hide SizeOf, Starts;
    var rest := items;
    while true
      invariant Trimmed(rest) == Trimmed(items)
      decreases |rest|
    {
      var turnStarts, totalBytes := Measure(rest);
      if |turnStarts| <= MAX_TURNS && totalBytes <= MAX_BYTES { return rest; }
      if |turnStarts| <= 1 { return []; }
      rest := rest[turnStarts[1]..];
    }
  }

  /** One pass over the items. */
  method Measure(items: Items) returns (turnStarts: seq<nat>, totalBytes: nat)
    ensures turnStarts == Starts(items) && totalBytes == SizeOf(items)
  {
    turnStarts, totalBytes := [0], 0;
    for index := 0 to |items|
      invariant turnStarts == Starts(items[..index]) && totalBytes == SizeOf(items[..index])
    {
      var upTo := items[..index + 1];
      assert upTo[..index] == items[..index];
      totalBytes := totalBytes + |items[index].raw|;
      if index > 0 && items[index].marker { turnStarts := turnStarts + [index]; }
    }
    assert items[..|items|] == items;
  }

  /** appendCodexReasoningReplayTurn. */
  method Append(chain: Items, turn: Items) returns (r: Items)
    ensures r == AppendTurn(chain, turn)
  {
    hide Trimmed;
    var existing := chain;
    if |existing| > 0 && !existing[0].marker { existing := []; }
    var turnId := "";
    if |turn| > 0 && turn[0].marker { turnId := turn[0].id; }
    if turnId != "" {
      for i := 0 to |existing|
        invariant forall j :: 0 <= j < i ==> !(existing[j].marker && existing[j].id == turnId)
      {
        if existing[i].marker && existing[i].id == turnId {
          r := Trim(existing);
          return;
        }
      }
    }
    r := Trim(existing + turn);
  }

  /** Keeps the items that normalisation accepts, in order. */
  function Accepted(normal: Bytes -> Option<Item>, items: seq<Bytes>): Items {
    if items == [] then []
    else
      var last := |items| - 1;
      Accepted(normal, items[..last]) + if normal(items[last]).Some? then [normal(items[last]).value] else []
  }

  /** `out` is made of the items that normalisation accepts: `picked` lists exactly those, in order. */
  ghost predicate Picks(normal: Bytes -> Option<Item>, items: seq<Bytes>, picked: seq<nat>, out: Items) {
    && |out| == |picked|
    && (forall k :: 0 <= k < |picked| ==>
          picked[k] < |items| && normal(items[picked[k]]) == Some(out[k]))
    && (forall j, k :: 0 <= j < k < |picked| ==> picked[j] < picked[k])
    && (forall i :: 0 <= i < |items| && normal(items[i]).Some? ==> i in picked)
  }

  /** `out` is the longest suffix that begins at a turn boundary and fits, or nothing when none fits. */
  ghost predicate LongestPart(all: Items, out: Items) {
    (exists n: nat :: IsLongest(all, n) && out == all[n..]) || (out == [] && all != [] && NoneFits(all))
  }

  ghost predicate NormalForm(normal: Bytes -> Option<Item>, items: seq<Bytes>, out: Items) {
    exists picked: seq<nat>, all: Items :: Picks(normal, items, picked, all) && LongestPart(all, out)
  }

  lemma {:induction false} AcceptedPicks(normal: Bytes -> Option<Item>, items: seq<Bytes>) returns (picked: seq<nat>)
    ensures Picks(normal, items, picked, Accepted(normal, items))
  {
    picked := [];
    if items != [] {
      var init, last := items[..|items| - 1], items[|items| - 1];
      picked := AcceptedPicks(normal, init);
      assert items == init + [last];
      var out := Accepted(normal, init);
      if normal(last).Some? {
        PickOne(normal, init, last, picked, out);
        picked := picked + [|init|];
      } else {
        SkipOne(normal, init, last, picked, out);
        assert out + [] == out;
      }
    }
  }

  lemma PickOne(normal: Bytes -> Option<Item>, items: seq<Bytes>, next: Bytes, picked: seq<nat>, out: Items)
    requires Picks(normal, items, picked, out) && normal(next).Some?
    ensures Picks(normal, items + [next], picked + [|items|], out + [normal(next).value])
  {
    var now := picked + [|items|];
    assert now[|picked|] == |items|;
    forall i | 0 <= i <= |items| && normal((items + [next])[i]).Some? ensures i in now {
      if i < |items| { assert (items + [next])[i] == items[i] && i in picked; }
    }
  }

  lemma SkipOne(normal: Bytes -> Option<Item>, items: seq<Bytes>, next: Bytes, picked: seq<nat>, out: Items)
    requires Picks(normal, items, picked, out) && normal(next).None?
    ensures Picks(normal, items + [next], picked, out)
  {
    forall i | 0 <= i <= |items| && normal((items + [next])[i]).Some? ensures i in picked {
      assert (items + [next])[i] == items[i];
    }
  }

  lemma TrimmedNormalForm(normal: Bytes -> Option<Item>, items: seq<Bytes>)
    ensures NormalForm(normal, items, Trimmed(Accepted(normal, items)))
  {
    hide Trimmed, Accepted, IsLongest, NoneFits, Picks;
    var picked := AcceptedPicks(normal, items);
    TrimmedIsLongest(Accepted(normal, items));
    assert LongestPart(Accepted(normal, items), Trimmed(Accepted(normal, items)));
  }

  /** An append, said from the items alone. A chain that does not begin with a marker is dropped; a turn whose
      marker names an identifier that a marker of the chain names too is not added; what is left is trimmed. */
  lemma TurnAppended(chain: Items, turn: Items)
    ensures var known := if chain != [] && chain[0].marker then chain else [];
            var present := turn != [] && turn[0].marker && turn[0].id != "" &&
                           exists i :: 0 <= i < |known| && known[i].marker && known[i].id == turn[0].id;
            LongestPart(if present then known else known + turn, AppendTurn(chain, turn))
  {
    hide Trimmed, IsLongest, NoneFits;
    var known := Effective(chain);
    TrimmedIsLongest(known);
    TrimmedIsLongest(known + turn);
  }

  /** When every item is accepted and they fit, normalisation is item by item. */
  lemma {:induction false} AllAccepted(normal: Bytes -> Option<Item>, items: seq<Bytes>)
    requires forall i :: 0 <= i < |items| ==> normal(items[i]).Some?
    ensures |Accepted(normal, items)| == |items|
    ensures forall i :: 0 <= i < |items| ==> Accepted(normal, items)[i] == normal(items[i]).value
    ensures Within(Accepted(normal, items)) ==> Trimmed(Accepted(normal, items)) == Accepted(normal, items)
  {
    hide Within;
    if items != [] { AllAccepted(normal, items[..|items| - 1]); }
  }

  method Normalize(normal: Bytes -> Option<Item>, items: seq<Bytes>) returns (normalized: Items, ok: bool)
    ensures NormalForm(normal, items, normalized) && ok == (normalized != []) && Within(normalized)
    ensures normalized == Trimmed(Accepted(normal, items))
  {
    hide Trimmed, Within, NormalForm;
    TrimmedNormalForm(normal, items);
    normalized := [];
    for i := 0 to |items|
      invariant normalized == Accepted(normal, items[..i])
    {
      assert items[..i + 1][..i] == items[..i];
      var item := normal(items[i]);
      if item.Some? { normalized := normalized + [item.value]; }
    }
    assert items[..|items|] == items;
    TrimmedFits(normalized);
    normalized := Trim(normalized);
    ok := |normalized| > 0;
  }
}
