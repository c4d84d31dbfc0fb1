// Appending turns to the Codex replay cache (internal/cache/codex_reasoning_replay_cache.go): the in-process
// map, and many clients on the atomic compare-and-swap of the Home store.
module CodexAppends {
  import opened Bytes
  import opened CodexTurns
  import Eviction

  const TTL: int := 3_600_000_000_000
  const MAX_ENTRIES: nat := 10240
  const EVICT_BATCH: nat := 128
  const MAX_ATTEMPTS: nat := 32

  // ----- what a sequence of effects leaves in the store

  /** A swap that took place, or anything else that happens to the value: an overwrite, a deletion, expiry. */
  datatype Effect = Appends(id: nat, turn: Items) | Becomes(value: Option<Items>)

  function Stored(value: Option<Items>): Items {
    if value.Some? then value.value else []
  }

  function Applied(value: Option<Items>, e: Effect): Option<Items> {
    match e
    case Appends(_, turn) => Some(AppendTurn(Stored(value), turn))
    case Becomes(next) => next
  }

  function Replay(value: Option<Items>, log: seq<Effect>): Option<Items> {
    if log == [] then value else Applied(Replay(value, log[..|log| - 1]), log[|log| - 1])
  }

  function Turns(log: seq<Effect>): Items {
    if log == [] then []
    else Turns(log[..|log| - 1]) + if log[|log| - 1].Appends? then log[|log| - 1].turn else []
  }

  /** Every turn of the log opens with a marker whose identifier is not in the chain before it. */
  predicate FreshTurns(start: Items, log: seq<Effect>) {
    forall i :: 0 <= i < |log| ==>
      log[i].Appends? && TurnId(log[i].turn) != "" && !HasTurn(start + Turns(log[..i]), TurnId(log[i].turn))
  }

  lemma {:induction false} StartsOfPrefix(a: Items, b: Items)
    ensures |Starts(a)| <= |Starts(a + b)| && SizeOf(a) <= SizeOf(a + b)
    decreases |b|
  {
    if b == [] {
      assert a + b == a;
    } else {
      var last := |b| - 1;
      assert (a + b)[..|a + b| - 1] == a + b[..last];
      StartsOfPrefix(a, b[..last]);
    }
  }

  /** Nothing is lost: turns with new identifiers that all fit together are all kept, in the order of their
      swaps, behind what was there. */
  lemma {:induction false} FittingTurnsAllSurvive(value: Option<Items>, log: seq<Effect>)
    requires Opened(Stored(value)) && FreshTurns(Stored(value), log) && Within(Stored(value) + Turns(log))
    ensures Stored(Replay(value, log)) == Stored(value) + Turns(log) && Opened(Stored(value) + Turns(log))
    decreases |log|
  {
    hide SizeOf, Starts, FreshTurns, HasTurn;
    var start := Stored(value);
    if log == [] {
      assert start + [] == start;
    } else {
      var last := |log| - 1;
      FreshBefore(start, log);
      var turn := log[last].turn;
      var known := start + Turns(log[..last]);
      assert start + Turns(log) == known + turn;
      StartsOfPrefix(known, turn);
      FittingTurnsAllSurvive(value, log[..last]);
      assert Effective(known) == known;
    }
  }

  lemma FreshBefore(start: Items, log: seq<Effect>)
    requires log != [] && FreshTurns(start, log)
    ensures var last := |log| - 1;
            && FreshTurns(start, log[..last]) && log[last].Appends? && TurnId(log[last].turn) != ""
            && !HasTurn(start + Turns(log[..last]), TurnId(log[last].turn))
  {
    hide HasTurn, TurnId, Turns;
    forall i | 0 <= i < |log| - 1 ensures log[..|log| - 1][..i] == log[..i] {
    }
  }

  // ----- many clients on the Home store

  datatype Phase = Ready | HasRead(seen: Option<Items>) | Finished(ok: bool)

  datatype Call = Call(turn: Items, attempts: nat, phase: Phase)

  datatype Home = Home(value: Option<Items>, calls: seq<Call>, log: seq<Effect>)

  /** Calls start, read, swap and give up; a swap may be applied and yet answered by an error; anything may
      happen to the value in between. */
  datatype Action =
    | Start(turn: Items) | Read(id: nat) | Swap(id: nat, answered: bool) | GiveUp(id: nat)
    | Disturb(value: Option<Items>)

  predicate CanAct(h: Home, a: Action) {
    match a
    case Start(_) => true
    case Read(id) => id < |h.calls| && h.calls[id].phase.Ready? && h.calls[id].attempts < MAX_ATTEMPTS
    case Swap(id, _) => id < |h.calls| && h.calls[id].phase.HasRead?
    case GiveUp(id) => id < |h.calls| && !h.calls[id].phase.Finished?
    case Disturb(_) => true
  }

  function WithPhase(h: Home, id: nat, phase: Phase): seq<Call>
    requires id < |h.calls|
  {
    h.calls[id := h.calls[id].(phase := phase)]
  }

  function Act(h: Home, a: Action): Home
    requires CanAct(h, a)
  {
    match a
    case Start(turn) => h.(calls := h.calls + [Call(turn, 0, Ready)])
    case Read(id) =>
      var c := h.calls[id];
      h.(calls := h.calls[id := c.(phase := HasRead(h.value), attempts := c.attempts + 1)])
    case Swap(id, answered) =>
      var c := h.calls[id];
      if h.value == c.phase.seen then
        Home(Some(AppendTurn(Stored(c.phase.seen), c.turn)), WithPhase(h, id, Finished(answered)),
          h.log + [Appends(id, c.turn)])
      else
        h.(calls := WithPhase(h, id, if answered && c.attempts < MAX_ATTEMPTS then Ready else Finished(false)))
    case GiveUp(id) => h.(calls := WithPhase(h, id, Finished(false)))
    case Disturb(value) => h.(value := value, log := h.log + [Becomes(value)])
  }

  predicate Acts(h: Home, actions: seq<Action>)
    decreases |actions|
  {
    actions == [] || (CanAct(h, actions[0]) && Acts(Act(h, actions[0]), actions[1..]))
  }

  function Later(h: Home, actions: seq<Action>): Home
    requires Acts(h, actions)
    decreases |actions|
  {
    if actions == [] then h else Later(Act(h, actions[0]), actions[1..])
  }

  predicate InLog(log: seq<Effect>, id: nat) {
    exists i :: 0 <= i < |log| && log[i].Appends? && log[i].id == id
  }

  predicate OncePerCall(log: seq<Effect>) {
    forall i, j :: 0 <= i < j < |log| && log[i].Appends? && log[j].Appends? ==> log[i].id != log[j].id
  }

  predicate LogMatches(calls: seq<Call>, log: seq<Effect>) {
    forall i :: 0 <= i < |log| && log[i].Appends? ==>
      log[i].id < |calls| && log[i].turn == calls[log[i].id].turn && calls[log[i].id].phase.Finished?
  }

  predicate Inv(start: Option<Items>, h: Home) {
    && h.value == Replay(start, h.log)
    && OncePerCall(h.log) && LogMatches(h.calls, h.log)
    && (forall id :: 0 <= id < |h.calls| && h.calls[id].phase == Finished(true) ==> InLog(h.log, id))
    && (forall id :: 0 <= id < |h.calls| ==> h.calls[id].attempts <= MAX_ATTEMPTS)
  }

  lemma ReplaySnoc(value: Option<Items>, log: seq<Effect>, e: Effect)
    ensures Replay(value, log + [e]) == Applied(Replay(value, log), e)
  {
    assert (log + [e])[..|log|] == log;
  }

  lemma InLogGrows(log: seq<Effect>, e: Effect, id: nat)
    ensures InLog(log + [e], id) <==> InLog(log, id) || (e.Appends? && e.id == id)
  {
    if InLog(log, id) {
      var i :| 0 <= i < |log| && log[i].Appends? && log[i].id == id;
      assert (log + [e])[i] == log[i];
    }
    assert (log + [e])[|log|] == e;
  }

  lemma SwapKeeps(start: Option<Items>, h: Home, id: nat, answered: bool)
    requires Inv(start, h) && CanAct(h, Swap(id, answered)) && h.value == h.calls[id].phase.seen
    ensures Inv(start, Act(h, Swap(id, answered)))
  {
    hide Replay, AppendTurn;
    var h', e := Act(h, Swap(id, answered)), Appends(id, h.calls[id].turn);
    ReplaySnoc(start, h.log, e);
    assert !InLog(h.log, id);
    forall other | 0 <= other < |h'.calls| && h'.calls[other].phase == Finished(true) ensures InLog(h'.log, other) {
      InLogGrows(h.log, e, other);
    }
  }

  lemma ActKeeps(start: Option<Items>, h: Home, a: Action)
    requires Inv(start, h) && CanAct(h, a)
    ensures Inv(start, Act(h, a))
  {
    hide Replay, AppendTurn;
    if a.Swap? && h.value == h.calls[a.id].phase.seen {
      SwapKeeps(start, h, a.id, a.answered);
    } else if a.Disturb? {
      ReplaySnoc(start, h.log, Becomes(a.value));
      forall id | 0 <= id < |h.calls| && h.calls[id].phase == Finished(true)
        ensures InLog(h.log + [Becomes(a.value)], id)
      {
        InLogGrows(h.log, Becomes(a.value), id);
      }
    }
  }

  lemma {:induction false} RunKeeps(start: Option<Items>, h: Home, actions: seq<Action>)
    requires Inv(start, h) && Acts(h, actions)
    ensures Inv(start, Later(h, actions))
    decreases |actions|
  {
    hide Inv, CanAct, Act;
    if actions != [] {
      ActKeeps(start, h, actions[0]);
      RunKeeps(start, Act(h, actions[0]), actions[1..]);
    }
  }

  /** Any interleaving of any number of appending clients is sequential: the value is what the effects leave
      when applied one after the other in the order of their swaps, no call is applied twice, and every call
      that reported success was applied. */
  lemma ConcurrentAppendsAreSequential(start: Option<Items>, actions: seq<Action>)
    requires Acts(Home(start, [], []), actions)
    ensures var h := Later(Home(start, [], []), actions);
            && h.value == Replay(start, h.log)
            && OncePerCall(h.log) && LogMatches(h.calls, h.log)
            && forall id :: 0 <= id < |h.calls| && h.calls[id].phase == Finished(true) ==> InLog(h.log, id)
  {
    RunKeeps(start, Home(start, [], []), actions);
  }

  // ----- the loop of one client

  /** What other clients leave before an operation of this one, and how that operation is answered. */
  datatype Answer = Answer(before: Option<Items>, fails: bool, cancelled: bool)

  // What the operations of one call meet as long as none of them writes. Operation 2 * i is the read of
  // attempt i, operation 2 * i + 1 its compare-and-swap.

  function SeenAt(value: Option<Items>, answers: seq<Answer>, op: nat): Option<Items> {
    if op < |answers| then answers[op].before else if answers == [] then value else answers[|answers| - 1].before
  }

  predicate FailsAt(answers: seq<Answer>, op: nat) {
    op < |answers| && answers[op].fails
  }

  predicate CancelledAt(answers: seq<Answer>, op: nat) {
    op < |answers| && answers[op].cancelled
  }

  /** Attempt `i` gets both its answers. */
  predicate Answered(answers: seq<Answer>, i: nat) {
    !CancelledAt(answers, 2 * i) && !FailsAt(answers, 2 * i) && !FailsAt(answers, 2 * i + 1)
  }

  /** The value has not changed between the read and the swap of attempt `i`. */
  predicate Unchanged(value: Option<Items>, answers: seq<Answer>, i: nat) {
    SeenAt(value, answers, 2 * i) == SeenAt(value, answers, 2 * i + 1)
  }

  class Store {
    var value: Option<Items>
    var answers: seq<Answer>

    method Interleave() returns (fails: bool)
      modifies this
      ensures value == SeenAt(old(value), old(answers), 0) && fails == FailsAt(old(answers), 0)
      ensures answers == if old(answers) == [] then [] else old(answers)[1..]
    {
      fails := false;
      if answers != [] {
        value, fails, answers := answers[0].before, answers[0].fails, answers[1..];
      }
    }

    method Cancelled() returns (cancelled: bool)
      ensures cancelled == CancelledAt(answers, 0)
    {
      cancelled := answers != [] && answers[0].cancelled;
    }

    method Get() returns (current: Option<Items>, failed: bool)
      modifies this
      ensures current == value == SeenAt(old(value), old(answers), 0) && failed == FailsAt(old(answers), 0)
      ensures answers == if old(answers) == [] then [] else old(answers)[1..]
    {
      failed := Interleave();
      current := value;
    }

    method CompareAndSwap(expected: Option<Items>, next: Items)
      returns (swapped: bool, failed: bool, ghost before: Option<Items>)
      modifies this
      ensures before == SeenAt(old(value), old(answers), 0) && failed == FailsAt(old(answers), 0)
      ensures answers == if old(answers) == [] then [] else old(answers)[1..]
      ensures swapped <==> !failed && before == expected
      ensures value == if before == expected then Some(next) else before
    {
      failed := Interleave();
      before := value;
      var matches := value == expected;
      if matches { value := Some(next); }
      swapped := matches && !failed;
    }
  }

  /** What is left after `n` operations is what the next ones meet. */
  predicate Remaining(value: Option<Items>, answers: seq<Answer>, n: nat, now: Option<Items>, left: seq<Answer>) {
    && left == (if n <= |answers| then answers[n..] else [])
    && now == if n > 0 then SeenAt(value, answers, n - 1) else value
  }

  lemma NextOperation(value: Option<Items>, answers: seq<Answer>, n: nat, now: Option<Items>, left: seq<Answer>)
    requires Remaining(value, answers, n, now, left)
    ensures SeenAt(now, left, 0) == SeenAt(value, answers, n) && FailsAt(left, 0) == FailsAt(answers, n)
    ensures CancelledAt(left, 0) == CancelledAt(answers, n)
    ensures Remaining(value, answers, n + 1, SeenAt(value, answers, n), if left == [] then [] else left[1..])
  {
    if n < |answers| { assert left[0] == answers[n]; }
  }

  /** AppendCodexReasoningReplayItemsBestEffort in Home mode: whatever other clients do, a success appended
      the turn to the very value it replaced. */
  method AppendHome(store: Store, turn: Items) returns (appended: bool, ghost before: Option<Items>, attempts: nat)
    modifies store
    ensures attempts <= MAX_ATTEMPTS
    // an attempt follows another exactly when that one found the value changed
    ensures forall i :: 0 <= i < attempts - 1 ==>
              Answered(old(store.answers), i) && !Unchanged(old(store.value), old(store.answers), i)
    ensures appended <==>
              attempts > 0 && Answered(old(store.answers), attempts - 1) &&
              Unchanged(old(store.value), old(store.answers), attempts - 1)
    ensures appended ==> before == SeenAt(old(store.value), old(store.answers), 2 * attempts - 1)
    ensures appended ==> store.value == Some(AppendTurn(Stored(before), turn))
    // it gives up on an error, on cancellation before an attempt, or when every attempt found the value changed
    ensures !appended ==>
              || (attempts > 0 && !Answered(old(store.answers), attempts - 1))
              || attempts == MAX_ATTEMPTS || CancelledAt(old(store.answers), 2 * attempts)
    // left alone, the first attempt succeeds
    ensures old(store.answers) == [] ==>
              appended && attempts == 1 && store.value == Some(AppendTurn(Stored(old(store.value)), turn))
  {
    hide AppendTurn, Remaining, SeenAt, FailsAt, CancelledAt, Answered, Unchanged;
    before := None;
    attempts := 0;
    ghost var value, answers := store.value, store.answers;
    NothingDone(value, answers);
    LeftAlone(value, answers);
    while attempts < MAX_ATTEMPTS
      invariant attempts <= MAX_ATTEMPTS && Remaining(value, answers, 2 * attempts, store.value, store.answers)
      invariant forall i :: 0 <= i < attempts ==> Answered(answers, i) && !Unchanged(value, answers, i)
      invariant answers == [] ==> attempts == 0
    {
      NextOperation(value, answers, 2 * attempts, store.value, store.answers);
      AttemptParts(value, answers, attempts);
      var cancelled := store.Cancelled();
      if cancelled { return false, before, attempts; }
      attempts := attempts + 1;
      var current, unread := store.Get();
      if unread { return false, before, attempts; }
      NextOperation(value, answers, 2 * attempts - 1, store.value, store.answers);
      var combined := Append(Stored(current), turn);
      var swapped, failed;
      swapped, failed, before := store.CompareAndSwap(current, combined);
      if failed { return false, before, attempts; }
      if swapped { return true, before, attempts; }
    }
    return false, before, attempts;
  }

  lemma AttemptParts(value: Option<Items>, answers: seq<Answer>, i: nat)
    ensures Answered(answers, i) <==>
              !CancelledAt(answers, 2 * i) && !FailsAt(answers, 2 * i) && !FailsAt(answers, 2 * i + 1)
    ensures Unchanged(value, answers, i) <==> SeenAt(value, answers, 2 * i) == SeenAt(value, answers, 2 * i + 1)
  {
  }

  lemma LeftAlone(value: Option<Items>, answers: seq<Answer>)
    ensures answers == [] ==>
              Answered(answers, 0) && Unchanged(value, answers, 0) && SeenAt(value, answers, 1) == value &&
              !CancelledAt(answers, 0)
  {
  }

  lemma NothingDone(value: Option<Items>, answers: seq<Answer>)
    ensures Remaining(value, answers, 0, value, answers)
  {
  }

  // ----- the in-process cache

  type Key = string

  datatype Entry = Entry(items: Items, timestamp: int)

  function Stamp(e: Entry): int {
    e.timestamp
  }

  /** What a key holds at `now`: an expired entry counts as absent. */
  function Live(entries: map<Key, Entry>, key: Key, now: int): Option<Items> {
    if key in entries && now - entries[key].timestamp <= TTL then Some(entries[key].items) else None
  }

  /** A batch of the oldest entries leaves once the capacity is exceeded. */
  ghost predicate Bounded(stored: map<Key, Entry>, after: map<Key, Entry>) {
    if |stored| > MAX_ENTRIES then Eviction.WithoutOldest(Stamp, stored, EVICT_BATCH, after) else after == stored
  }

  class CodexCache {
    var entries: map<Key, Entry>

    ghost predicate Valid()
      reads this
    {
      |entries| <= MAX_ENTRIES && forall k :: k in entries ==> Within(entries[k].items)
    }

    constructor ()
      ensures Valid() && entries == map[]
    {
      entries := map[];
    }

    method EvictOldest(count: nat)
      modifies this
      ensures Eviction.WithoutOldest(Stamp, old(entries), count, entries)
      ensures forall k, l :: k in old(entries) && k !in entries && l in entries ==>
                old(entries)[k].timestamp <= old(entries)[l].timestamp
    {
      var removed := 0;
      while removed < count && entries != map[]
        invariant removed <= count && removed <= |old(entries)|
        invariant Eviction.WithoutOldest(Stamp, old(entries), removed, entries)
        decreases count - removed
      {
        Eviction.OldestExists(Stamp, entries, entries.Keys);
        var k :| Eviction.IsOldest(Stamp, entries, entries.Keys, k);
        Eviction.RemoveOldest(Stamp, old(entries), removed, entries, k);
        entries := entries - {k};
        removed := removed + 1;
      }
    }

    method Put(key: Key, items: Items, now: int)
      requires Valid() && Within(items)
      modifies this
      ensures Valid() && Bounded(old(entries)[key := Entry(items, now)], entries)
    {
      hide Within;
      Eviction.UpdatedSize(entries, key, Entry(items, now));
      entries := entries[key := Entry(items, now)];
      if |entries| > MAX_ENTRIES { EvictOldest(EVICT_BATCH); }
    }

    /** AppendCodexReasoningReplayItemsBestEffort: the turn goes behind the live chain of the key. */
    method AppendLocal(key: Key, normal: Bytes -> Option<Item>, items: seq<Bytes>, now: int) returns (ok: bool)
      requires Valid()
      modifies this
      ensures Valid()
      ensures ok <==> Trimmed(Accepted(normal, items)) != []
      ensures !ok ==> entries == old(entries)
      ensures ok ==> var turn := Trimmed(Accepted(normal, items));
                     var live := Stored(Live(old(entries), key, now));
                     NormalForm(normal, items, turn) &&
                     Within(AppendTurn(live, turn)) &&
                     Bounded(old(entries)[key := Entry(AppendTurn(live, turn), now)], entries)
    {
      hide Within, AppendTurn, Trimmed, Bounded, NormalForm;
      var turn;
      turn, ok := Normalize(normal, items);
      if !ok { return; }
      var existing := [];
      if key in entries && now - entries[key].timestamp <= TTL { existing := entries[key].items; }
      var appended := Append(existing, turn);
      AppendFits(existing, turn);
      Put(key, appended, now);
    }

    /** CacheCodexReasoningReplayItemsBestEffort. */
    method Overwrite(key: Key, normal: Bytes -> Option<Item>, items: seq<Bytes>, now: int) returns (ok: bool)
      requires Valid()
      modifies this
      ensures Valid()
      ensures ok <==> Trimmed(Accepted(normal, items)) != []
      ensures if ok then Bounded(old(entries)[key := Entry(Trimmed(Accepted(normal, items)), now)], entries)
              else entries == old(entries)
      ensures NormalForm(normal, items, Trimmed(Accepted(normal, items)))
    {
      hide Within, AppendTurn, Trimmed, Bounded, NormalForm;
      var normalized;
      normalized, ok := Normalize(normal, items);
      if ok { Put(key, normalized, now); }
    }

    /** GetCodexReasoningReplayItemsRequired: a live entry is refreshed, an expired one removed. */
    method Get(key: Key, now: int) returns (items: Option<Items>)
      requires Valid()
      modifies this
      ensures Valid() && items == Live(old(entries), key, now)
      ensures entries == if items.Some? then old(entries)[key := Entry(items.value, now)] else old(entries) - {key}
    {
      hide Within;
      if key !in entries {
        assert entries - {key} == entries;
        return None;
      }
      if now - entries[key].timestamp > TTL {
        assert (entries - {key}).Keys == entries.Keys - {key};
        entries := entries - {key};
        return None;
      }
      Eviction.UpdatedSize(entries, key, Entry(entries[key].items, now));
      entries := entries[key := Entry(entries[key].items, now)];
      return Some(entries[key].items);
    }
  }

  lemma AppendFits(existing: Items, turn: Items)
    ensures Within(AppendTurn(existing, turn))
  {
    TrimmedFits(Effective(existing));
    TrimmedFits(Effective(existing) + turn);
  }
}
