// Home mode of the Antigravity replay cache: many clients, one atomic compare-and-swap store, and the
// four-attempt publish loop (internal/cache/antigravity_reasoning_replay_cache.go; the store's contract
// is KVCompareAndSwap in internal/home/client.go).
module HomeReplay {
  import opened Bytes
  import opened ReplayProtocol

  // A stored value is its decoded content: chain, generation (the version), branch and tombstone flag.
  // Two values with equal bytes are equal cells.

  const MAX_ATTEMPTS: nat := 4

  datatype Phase = Holding | Swapping | Reading | Finished(swapped: bool)

  /** One request: the value it read, and the state of its publish loop. */
  datatype Call = Call(raw: Cell, phase: Phase, key: Key, items: Chain, branch: nat, expected: Cell, attempt: nat)

  function SnapshotOf(c: Call): Snapshot {
    View(c.raw)
  }

  /** The store and the requests that use it; `nonces` counts the generations and branches drawn so far. */
  datatype Home = Home(cells: map<Key, Cell>, calls: map<nat, Call>, nonces: nat)

  const START := Home(map[], map[], 0)

  datatype Action =
    | Read(id: nat, key: Key)                                // the getter finds a value
    | Reserve(id: nat, key: Key)                             // the getter fences a miss with a tombstone
    | Begin(id: nat, key: Key, items: Chain)                 // a publish starts
    | Swap(id: nat, lost: bool)                              // its compare-and-swap; `lost`: the reply is an error
    // its read after a failed swap; `refused`: an error or an unusable value
    | Reread(id: nat, refused: bool)
    | DeleteIf(id: nat, key: Key)                            // a conditional delete
    | Overwrite(key: Key, items: Chain, deleted: bool)       // KVSet
    | Expire(keys: set<Key>)

  /** The branch a publish writes, fixed when it starts. */
  function ChosenBranch(sn: Snapshot, items: Chain, drawn: nat): nat {
    if sn.branch == NO_BRANCH || !(sn.items <= items) then drawn else sn.branch
  }

  /** What the loop demands of a value before it retries against it. */
  predicate MayRetry(current: Cell, sn: Snapshot, items: Chain) {
    !current.deleted && sn.branch != NO_BRANCH && current.branch == sn.branch && current.items <= items
  }

  predicate CanAct(h: Home, a: Action) {
    match a
    case Read(_, key) => key in h.cells
    case Reserve(_, key) => key !in h.cells
    case Begin(id, _, _) => id in h.calls && (h.calls[id].phase.Holding? || h.calls[id].phase.Finished?)
    case Swap(id, _) => id in h.calls && h.calls[id].phase.Swapping?
    case Reread(id, _) => id in h.calls && h.calls[id].phase.Reading?
    case DeleteIf(id, _) => id in h.calls
    case Overwrite(_, items, deleted) => deleted ==> items == []
    case Expire(_) => true
  }

  /** Whether the call's compare-and-swap finds the value it expects. */
  predicate Swaps(h: Home, c: Call) {
    c.key in h.cells && h.cells[c.key] == c.expected
  }

  function Held(cell: Cell): Call {
    Call(cell, Holding, "", [], NO_BRANCH, cell, 0)
  }

  /** The protocol steps an action stands for. */
  function StepsOf(h: Home, a: Action): seq<Step>
    requires CanAct(h, a)
  {
    match a
    case Read(_, key) => [Issue(key)]
    case Reserve(_, key) => [Put(key, [], true, h.nonces + 1, h.nonces + 2), Issue(key)]
    case Begin(_, _, _) => []
    case Swap(id, _) =>
      var c := h.calls[id];
      if Swaps(h, c) then [Publish(c.key, SnapshotOf(c), c.items, h.nonces + 1, c.branch)] else []
    case Reread(_, _) => []
    case DeleteIf(id, key) =>
      var c := h.calls[id];
      if key in h.cells && h.cells[key] == c.raw then [Retract(key, SnapshotOf(c), h.nonces + 1, h.nonces + 2)] else []
    case Overwrite(key, items, deleted) => [Put(key, items, deleted, h.nonces + 1, h.nonces + 2)]
    case Expire(keys) => [Drop(keys)]
  }

  /** The store's own effect, written without the protocol. */
  function StoreAfter(h: Home, a: Action): map<Key, Cell>
    requires CanAct(h, a)
  {
    var cells := h.cells;
    match a
    case Read(_, _) => cells
    case Reserve(_, key) => cells[key := Cell([], h.nonces + 1, h.nonces + 2, true)]
    case Begin(_, _, _) => cells
    case Swap(id, _) =>
      var c := h.calls[id];
      if Swaps(h, c) then cells[c.key := Cell(c.items, h.nonces + 1, c.branch, false)] else cells
    case Reread(_, _) => cells
    case DeleteIf(id, key) =>
      if key in cells && cells[key] == h.calls[id].raw then cells[key := Cell([], h.nonces + 1, h.nonces + 2, true)]
      else cells
    case Overwrite(key, items, deleted) => cells[key := Cell(items, h.nonces + 1, h.nonces + 2, deleted)]
    case Expire(keys) => cells - keys
  }

  /** A call after its compare-and-swap met these values; `lost`: the reply is an error. */
  function SwapNext(c: Call, cells: map<Key, Cell>, lost: bool): Call {
    c.(phase := if lost then Finished(false)
                else if c.key in cells && cells[c.key] == c.expected then Finished(true)
                else Reading)
  }

  /** A call after it read the value again; `refused`: the reply is an error. */
  function RereadNext(c: Call, cells: map<Key, Cell>, refused: bool): Call {
    if refused || c.key !in cells || !MayRetry(cells[c.key], SnapshotOf(c), c.items) || c.attempt + 1 == MAX_ATTEMPTS
    then c.(phase := Finished(false))
    else c.(phase := Swapping, expected := cells[c.key], attempt := c.attempt + 1)
  }

  function CallsAfter(h: Home, a: Action): map<nat, Call>
    requires CanAct(h, a)
  {
    match a
    case Read(id, key) => h.calls[id := Held(h.cells[key])]
    case Reserve(id, key) => h.calls[id := Held(Cell([], h.nonces + 1, h.nonces + 2, true))]
    case Begin(id, key, items) =>
      var c := h.calls[id];
      h.calls[id := Call(c.raw, Swapping, key, items, ChosenBranch(SnapshotOf(c), items, h.nonces + 1), c.raw, 0)]
    case Swap(id, lost) => h.calls[id := SwapNext(h.calls[id], h.cells, lost)]
    case Reread(id, refused) => h.calls[id := RereadNext(h.calls[id], h.cells, refused)]
    case _ => h.calls
  }

  function Act(h: Home, a: Action): Home
    requires CanAct(h, a)
  {
    Home(StoreAfter(h, a), CallsAfter(h, a), h.nonces + 2)
  }

  // ----- invariant

  /** A value a request has read: no other value of the store ever shares its generation. */
  predicate ReadBefore(w: World, raw: Cell) {
    && View(raw) in w.issued
    && forall k :: k in w.cells && w.cells[k].version == raw.version ==> w.cells[k] == raw
  }

  predicate CallOk(w: World, c: Call) {
    && ReadBefore(w, c.raw)
    && (c.phase.Swapping? || c.phase.Reading? ==>
        && c.attempt < MAX_ATTEMPTS
        && (c.expected == c.raw ||
             (MayRetry(c.expected, SnapshotOf(c), c.items) && SnapshotOf(c).items <= c.expected.items))
        && (c.branch != SnapshotOf(c).branch <==>
             SnapshotOf(c).branch == NO_BRANCH || !(SnapshotOf(c).items <= c.items))
        && (c.branch != SnapshotOf(c).branch ==> FreshBranch(w, c.branch)))
  }

  /** A running call that starts a branch owns the name it has drawn. */
  predicate Owns(c: Call) {
    (c.phase.Swapping? || c.phase.Reading?) && c.branch != SnapshotOf(c).branch
  }

  predicate NamesWithin(w: World, n: nat) {
    && (forall k :: k in w.cells ==> w.cells[k].version <= n && w.cells[k].branch <= n)
    && (forall sn :: sn in w.issued ==> sn.version <= n && sn.branch <= n)
    && (forall p :: p in w.stored ==> p.0 <= n)
  }

  predicate Drawn(w: World, h: Home) {
    NamesWithin(w, h.nonces) && forall id :: id in h.calls ==> h.calls[id].branch <= h.nonces
  }

  predicate OwnersDistinct(h: Home) {
    forall i, j :: i in h.calls && j in h.calls && i != j && Owns(h.calls[i]) && Owns(h.calls[j]) ==>
      h.calls[i].branch != h.calls[j].branch
  }

  /** The store is that of the protocol's world, in which every request is in order. */
  predicate HomeInv(w: World, h: Home) {
    && w.cells == h.cells && Inv(w) && Drawn(w, h) && OwnersDistinct(h)
    && forall id :: id in h.calls ==> CallOk(w, h.calls[id])
  }

  // ----- every action is a protocol run

  /** A compare-and-swap that finds its value passes the local acceptance test and writes the local branch. */
  lemma SwapIsPublish(w: World, h: Home, id: nat)
    requires HomeInv(w, h) && id in h.calls && h.calls[id].phase.Swapping? && Swaps(h, h.calls[id])
    ensures var c := h.calls[id];
            Enabled(w, Publish(c.key, SnapshotOf(c), c.items, h.nonces + 1, c.branch))
  {
    assert CallOk(w, h.calls[id]);
  }

  lemma DrawnIsFresh(w: World, h: Home, n: nat)
    requires Drawn(w, h) && n > h.nonces
    ensures FreshVersion(w, n) && FreshBranch(w, n)
  {
  }

  lemma PutThenIssue(w: World, key: Key, version: nat, branch: nat)
    requires Inv(w) && FreshVersion(w, version) && FreshBranch(w, branch)
    ensures var put := Put(key, [], true, version, branch);
            Enabled(w, put) && Enabled(Apply(w, put), Issue(key)) && Runs(w, [put, Issue(key)]) &&
            After(w, [put, Issue(key)]) == Apply(Apply(w, put), Issue(key))
  {
    var put := Put(key, [], true, version, branch);
    RunsTwo(w, put, Apply(w, put), Issue(key), Apply(Apply(w, put), Issue(key)));
  }

  lemma StepsRun(w: World, h: Home, a: Action)
    requires HomeInv(w, h) && CanAct(h, a)
    ensures Runs(w, StepsOf(h, a)) && After(w, StepsOf(h, a)).cells == StoreAfter(h, a)
  {
    hide Runs, After, Inv, FreshVersion, FreshBranch, Drawn, OwnersDistinct;
    DrawnIsFresh(w, h, h.nonces + 1);
    DrawnIsFresh(w, h, h.nonces + 2);
    RunsNone(w);
    match a {
      case Reserve(_, key) => PutThenIssue(w, key, h.nonces + 1, h.nonces + 2);
      case Swap(id, _) =>
        if Swaps(h, h.calls[id]) {
          SwapIsPublish(w, h, id);
          RunsOne(w, StepsOf(h, a)[0]);
        }
      case DeleteIf(id, key) =>
        assert CallOk(w, h.calls[id]);
        if StepsOf(h, a) != [] { RunsOne(w, StepsOf(h, a)[0]); }
      case Read(_, _) => RunsOne(w, StepsOf(h, a)[0]);
      case Overwrite(_, _, _) => RunsOne(w, StepsOf(h, a)[0]);
      case Expire(_) => RunsOne(w, StepsOf(h, a)[0]);
      case Begin(_, _, _) =>
      case Reread(_, _) =>
    }
  }

  /** One step by anyone leaves a call in order, as long as it takes neither a version the call has read
      nor the branch name the call owns. */
  lemma CallKept(w: World, step: Step, c: Call)
    requires CallOk(w, c) && Enabled(w, step)
    requires !step.Issue? && !step.Drop? ==> step.version != c.raw.version && (Owns(c) ==> step.branch != c.branch)
    ensures CallOk(Apply(w, step), c)
  {
  }

  /** The steps of an action respect every call but the acting one, and that one too while it does not swap. */
  lemma StepRespects(w: World, h: Home, a: Action, id: nat)
    requires HomeInv(w, h) && CanAct(h, a) && id in h.calls && !(a.Swap? && a.id == id)
    ensures forall i :: 0 <= i < |StepsOf(h, a)| ==>
              var step := StepsOf(h, a)[i];
              !step.Issue? && !step.Drop? ==>
                step.version != h.calls[id].raw.version && (Owns(h.calls[id]) ==> step.branch != h.calls[id].branch)
  {
    var c := h.calls[id];
    assert CallOk(w, c) && View(c.raw) in w.issued;
    if a.Swap? { assert CallOk(w, h.calls[a.id]); }
  }

  lemma {:induction false} CallKeptRun(w: World, steps: seq<Step>, c: Call)
    requires CallOk(w, c) && Runs(w, steps)
    requires forall i :: 0 <= i < |steps| ==>
               !steps[i].Issue? && !steps[i].Drop? ==>
                 steps[i].version != c.raw.version && (Owns(c) ==> steps[i].branch != c.branch)
    ensures CallOk(After(w, steps), c)
    decreases |steps|
  {
    hide CallOk, Enabled, Owns;
    if steps != [] {
      CallKept(w, steps[0], c);
      CallKeptRun(Apply(w, steps[0]), steps[1..], c);
    }
  }

  lemma OtherCallsKept(w: World, h: Home, a: Action, id: nat)
    requires HomeInv(w, h) && CanAct(h, a) && Runs(w, StepsOf(h, a)) && id in h.calls && !(a.Swap? && a.id == id)
    ensures CallOk(After(w, StepsOf(h, a)), h.calls[id])
  {
    hide Runs, After, CallOk, StepsOf, Owns;
    StepRespects(w, h, a, id);
    assert CallOk(w, h.calls[id]);
    CallKeptRun(w, StepsOf(h, a), h.calls[id]);
  }

  lemma {:induction false} NamesWithinRun(w: World, steps: seq<Step>, n: nat)
    requires Runs(w, steps) && NamesWithin(w, n)
    requires forall i :: 0 <= i < |steps| ==> !steps[i].Issue? && !steps[i].Drop? ==>
               steps[i].version <= n && steps[i].branch <= n
    ensures NamesWithin(After(w, steps), n)
    decreases |steps|
  {
    if steps != [] {
      NamesWithinStep(w, steps[0], n);
      NamesWithinRun(Apply(w, steps[0]), steps[1..], n);
    }
  }

  lemma NamesWithinStep(w: World, step: Step, n: nat)
    requires Enabled(w, step) && NamesWithin(w, n)
    requires !step.Issue? && !step.Drop? ==> step.version <= n && step.branch <= n
    ensures NamesWithin(Apply(w, step), n)
  {
  }

  /** The acting call after a read: a fresh read of a stored value. */
  lemma FreshlyRead(w: World, key: Key)
    requires Inv(w) && key in w.cells
    ensures CallOk(Apply(w, Issue(key)), Held(w.cells[key]))
  {
  }

  lemma ActingReader(w: World, h: Home, a: Action)
    requires HomeInv(w, h) && CanAct(h, a) && (a.Read? || a.Reserve?) && Runs(w, StepsOf(h, a))
    ensures CallOk(After(w, StepsOf(h, a)), CallsAfter(h, a)[a.id])
  {
    hide CallOk, Inv, Enabled;
    if a.Read? {
      RunsOne(w, Issue(a.key));
      FreshlyRead(w, a.key);
    } else {
      DrawnIsFresh(w, h, h.nonces + 1);
      DrawnIsFresh(w, h, h.nonces + 2);
      PutThenIssue(w, a.key, h.nonces + 1, h.nonces + 2);
      var put := StepsOf(h, a)[0];
      InvStep(w, put);
      FreshlyRead(Apply(w, put), a.key);
    }
  }

  lemma ActingPublisher(w: World, h: Home, a: Action)
    requires HomeInv(w, h) && CanAct(h, a) && (a.Begin? || a.Reread?)
    ensures CallOk(w, CallsAfter(h, a)[a.id])
  {
    var c := h.calls[a.id];
    assert CallOk(w, c);
    if a.Begin? {
      DrawnIsFresh(w, h, h.nonces + 1);
    } else if c.key in h.cells {
      assert SnapshotFits(h.cells[c.key], SnapshotOf(c));
    }
  }

  lemma ActingSwapper(w: World, h: Home, a: Action)
    requires HomeInv(w, h) && CanAct(h, a) && a.Swap? && Runs(w, StepsOf(h, a))
    ensures CallOk(After(w, StepsOf(h, a)), CallsAfter(h, a)[a.id])
  {
    var c := h.calls[a.id];
    assert CallOk(w, c) && View(c.raw) in w.issued;
    if Swaps(h, c) {
      var step := StepsOf(h, a)[0];
      RunsOne(w, step);
      CallKept(w, step, CallsAfter(h, a)[a.id]);
    }
  }

  lemma AllCallsKept(w: World, h: Home, a: Action)
    requires HomeInv(w, h) && CanAct(h, a) && Runs(w, StepsOf(h, a))
    ensures forall id :: id in CallsAfter(h, a) ==> CallOk(After(w, StepsOf(h, a)), CallsAfter(h, a)[id])
  {
    hide CallOk, HomeInv, Runs, After, StepsOf;
    forall id | id in CallsAfter(h, a) ensures CallOk(After(w, StepsOf(h, a)), CallsAfter(h, a)[id]) {
      if (a.Read? || a.Reserve?) && a.id == id {
        ActingReader(w, h, a);
      } else if a.Swap? && a.id == id {
        ActingSwapper(w, h, a);
      } else if (a.Begin? || a.Reread?) && a.id == id {
        ActingPublisher(w, h, a);
        NoSteps(w, h, a);
      } else {
        OtherCallsKept(w, h, a, id);
      }
    }
  }

  lemma NoSteps(w: World, h: Home, a: Action)
    requires CanAct(h, a) && (a.Begin? || a.Reread?)
    ensures Runs(w, StepsOf(h, a)) && After(w, StepsOf(h, a)) == w
  {
    RunsNone(w);
  }

  lemma NamesKept(w: World, h: Home, a: Action)
    requires HomeInv(w, h) && CanAct(h, a) && Runs(w, StepsOf(h, a))
    ensures NamesWithin(After(w, StepsOf(h, a)), h.nonces + 2)
    ensures forall id :: id in CallsAfter(h, a) ==> CallsAfter(h, a)[id].branch <= h.nonces + 2
  {
    hide Inv, CallOk, OwnersDistinct, Runs, After;
    NamesWithinRun(w, StepsOf(h, a), h.nonces + 2);
    if a.Begin? { assert CallOk(w, h.calls[a.id]); SnapshotNamed(w, h, a.id); }
  }

  lemma SnapshotNamed(w: World, h: Home, id: nat)
    requires HomeInv(w, h) && id in h.calls
    ensures SnapshotOf(h.calls[id]).branch <= h.nonces
  {
    assert CallOk(w, h.calls[id]);
  }

  lemma OwnersKept(w: World, h: Home, a: Action)
    requires HomeInv(w, h) && CanAct(h, a)
    ensures var calls := CallsAfter(h, a);
            forall i, j :: i in calls && j in calls && i != j && Owns(calls[i]) && Owns(calls[j]) ==>
              calls[i].branch != calls[j].branch
  {
    hide Inv, CallOk;
    if a.Begin? { SnapshotNamed(w, h, a.id); }
  }

  /** Every action is a run of the protocol on the store, and keeps the invariant. */
  lemma HomeRunsProtocol(w: World, h: Home, a: Action)
    requires HomeInv(w, h) && CanAct(h, a)
    ensures Runs(w, StepsOf(h, a)) && HomeInv(After(w, StepsOf(h, a)), Act(h, a))
  {
    hide Runs, After, StepsOf, Inv, CallOk, Owns, CallsAfter, NamesWithin;
    StepsRun(w, h, a);
    InvRun(w, StepsOf(h, a));
    AllCallsKept(w, h, a);
    NamesKept(w, h, a);
    OwnersKept(w, h, a);
  }

  // ----- runs of many clients

  predicate Acts(h: Home, actions: seq<Action>)
    decreases |actions|
  {
    actions == [] || (CanAct(h, actions[0]) && Acts(Act(h, actions[0]), actions[1..]))
  }

  function Later(h: Home, actions: seq<Action>): Home
    requires Acts(h, actions)
    decreases |actions|
  {
    if actions == [] then h else Later(Act(h, actions[0]), actions[1..])
  }

  /** The protocol steps that a run of the store stands for. */
  function StepsOfRun(h: Home, actions: seq<Action>): seq<Step>
    requires Acts(h, actions)
    decreases |actions|
  {
    if actions == [] then [] else StepsOf(h, actions[0]) + StepsOfRun(Act(h, actions[0]), actions[1..])
  }

  /** Any interleaving of any number of clients on the store is a run of the protocol that ends in the same
      store, so fencing and prefix order hold of the Home store as well. */
  lemma {:induction false} InterleavingsRunProtocol(w: World, h: Home, actions: seq<Action>)
    requires HomeInv(w, h) && Acts(h, actions)
    ensures Runs(w, StepsOfRun(h, actions)) && HomeInv(After(w, StepsOfRun(h, actions)), Later(h, actions))
    decreases |actions|
  {
    hide HomeInv, StepsOf, CanAct, Act;
    if actions == [] {
      RunsNone(w);
    } else {
      var steps := StepsOf(h, actions[0]);
      HomeRunsProtocol(w, h, actions[0]);
      InterleavingsRunProtocol(After(w, steps), Act(h, actions[0]), actions[1..]);
      RunsConcat(w, steps, StepsOfRun(Act(h, actions[0]), actions[1..]));
    }
  }

  lemma StartInv()
    ensures HomeInv(EMPTY, START)
  {
  }

  /** The history of a run from the empty store, as the protocol records it. */
  function History(actions: seq<Action>): World
    requires Acts(START, actions)
    ensures HomeInv(History(actions), Later(START, actions))
  {
    StartInv();
    InterleavingsRunProtocol(EMPTY, START, actions);
    After(EMPTY, StepsOfRun(START, actions))
  }

  /** Under any interleaving: a swap that succeeds replaced the very value the request read, or a live
      value of the snapshot's branch that the new chain extends; and then it keeps that branch. */
  lemma SwapRefinesLocal(actions: seq<Action>, id: nat)
    requires Acts(START, actions)
    requires var h := Later(START, actions); id in h.calls && h.calls[id].phase.Swapping? && Swaps(h, h.calls[id])
    ensures var h := Later(START, actions);
            var c, replaced := h.calls[id], h.cells[h.calls[id].key];
            && Accepts(replaced, SnapshotOf(c), c.items)
            && (replaced == c.raw || Descends(replaced, SnapshotOf(c), c.items))
            && (replaced.items <= c.items && replaced.branch == SnapshotOf(c).branch && replaced.branch != NO_BRANCH ==>
                  c.branch == replaced.branch)
            && (!(SnapshotOf(c).items <= c.items) ==> FreshBranch(History(actions), c.branch))
  {
    var w, h := History(actions), Later(START, actions);
    assert CallOk(w, h.calls[id]);
    assert SnapshotFits(h.cells[h.calls[id].key], SnapshotOf(h.calls[id]));
  }

  // ----- fencing on the Home store

  /** The action takes the key's branch away: its value is deleted, expired, overwritten or moved to a new branch. */
  predicate LosesKey(h: Home, a: Action, key: Key)
    requires CanAct(h, a)
  {
    var after := StoreAfter(h, a);
    key in h.cells && (key in after ==> after[key].branch != h.cells[key].branch)
  }

  lemma LosingKeyFences(w: World, h: Home, a: Action, key: Key, sn: Snapshot)
    requires HomeInv(w, h) && CanAct(h, a) && LosesKey(h, a, key) && sn in w.issued
    ensures Runs(w, StepsOf(h, a)) && Fenced(After(w, StepsOf(h, a)), key, sn)
  {
    hide Inv, Runs, After, CallOk, Drawn, OwnersDistinct, Fenced, Enabled;
    StepsRun(w, h, a);
    var step := StepsOf(h, a)[0];
    RunsFirst(w, step);
    RunsOne(w, step);
    LosingBranchFences(w, step, key, sn);
  }

  lemma RunsFirst(w: World, step: Step)
    requires Runs(w, [step])
    ensures Enabled(w, step)
  {
    hide Enabled;
  }

  /** No request with this snapshot changes anything under the key: neither a swap of its publish loop nor
      its conditional delete finds its value. */
  predicate Powerless(h: Home, key: Key, sn: Snapshot) {
    forall id :: id in h.calls && SnapshotOf(h.calls[id]) == sn ==>
      && (h.calls[id].phase.Swapping? && h.calls[id].key == key ==>
            StoreAfter(h, Swap(id, false)) == h.cells && StoreAfter(h, Swap(id, true)) == h.cells)
      && StoreAfter(h, DeleteIf(id, key)) == h.cells
  }

  lemma FencedIsPowerless(w: World, h: Home, key: Key, sn: Snapshot)
    requires HomeInv(w, h) && Fenced(w, key, sn)
    ensures Powerless(h, key, sn)
  {
    forall id | id in h.calls && SnapshotOf(h.calls[id]) == sn && key in h.cells
      ensures h.calls[id].phase.Swapping? && h.calls[id].key == key ==> !Swaps(h, h.calls[id])
      ensures h.cells[key] != h.calls[id].raw
    {
      assert CallOk(w, h.calls[id]);
      FencedIsRefused(w, key, sn, h.calls[id].items);
    }
  }

  /** Permanent fencing on the Home store: once an action has taken the key's branch away, no snapshot handed
      out before ever changes that key's value again, by publishing or deleting, whatever anyone does later. */
  lemma HomeFencing(before: seq<Action>, event: Action, later: seq<Action>, key: Key, sn: Snapshot)
    requires Acts(START, before) && sn in History(before).issued
    requires var h := Later(START, before); CanAct(h, event) && LosesKey(h, event, key) && Acts(Act(h, event), later)
    ensures Powerless(Later(Act(Later(START, before), event), later), key, sn)
  {
    hide Inv, CallOk, Drawn, OwnersDistinct, Fenced, StepsOf, CallsAfter, StoreAfter, StepsOfRun, Runs, After, Acts,
         Later, Powerless;
    var w, h := History(before), Later(START, before);
    HomeRunsProtocol(w, h, event);
    LosingKeyFences(w, h, event, key, sn);
    InvRun(w, StepsOf(h, event));
    var w', h' := After(w, StepsOf(h, event)), Act(h, event);
    InterleavingsRunProtocol(w', h', later);
    FencedRun(w', StepsOfRun(h', later), key, sn);
    FencedIsPowerless(After(w', StepsOfRun(h', later)), Later(h', later), key, sn);
  }

  // ----- the loop itself

  /** The store as one client sees it: before each of its operations other clients may have left anything,
      and any operation may fail, applied or not. */
  datatype Turn = Turn(found: map<Key, Cell>, fails: bool)

  // What the operations of one request meet when the first finds the store and the turns like this, as long
  // as none of them writes. Operation 2 * i is the compare-and-swap of attempt i, operation 2 * i + 1 its read.

  function SeenAt(cells: map<Key, Cell>, turns: seq<Turn>, op: nat): map<Key, Cell> {
    if op < |turns| then turns[op].found else if turns == [] then cells else turns[|turns| - 1].found
  }

  predicate FailsAt(turns: seq<Turn>, op: nat) {
    op < |turns| && turns[op].fails
  }

  /** The value that attempt `i` expects: the one read at first, or the one read back last. */
  function ExpectedAt(cells: map<Key, Cell>, turns: seq<Turn>, key: Key, raw: Cell, i: nat): Option<Cell> {
    if i == 0 then Some(raw)
    else if key in SeenAt(cells, turns, 2 * i - 1) then Some(SeenAt(cells, turns, 2 * i - 1)[key])
    else None
  }

  /** The compare-and-swap of attempt `i` meets the value it expects. */
  predicate Meets(cells: map<Key, Cell>, turns: seq<Turn>, key: Key, raw: Cell, i: nat) {
    key in SeenAt(cells, turns, 2 * i) &&
    ExpectedAt(cells, turns, key, raw, i) == Some(SeenAt(cells, turns, 2 * i)[key])
  }

  /** The value read back after attempt `i` is there, and the new chain may replace it. */
  predicate Retryable(cells: map<Key, Cell>, turns: seq<Turn>, key: Key, raw: Cell, items: Chain, i: nat) {
    var seen := SeenAt(cells, turns, 2 * i + 1);
    key in seen && Descends(seen[key], View(raw), items)
  }

  /** Attempt `i` meets another value, no reply is an error, and the value read back may be replaced. */
  predicate GoesOn(cells: map<Key, Cell>, turns: seq<Turn>, key: Key, raw: Cell, items: Chain, i: nat) {
    && !Meets(cells, turns, key, raw, i) && Retryable(cells, turns, key, raw, items, i)
    && !FailsAt(turns, 2 * i) && !FailsAt(turns, 2 * i + 1)
  }

  /** The request after its first `n` operations, each of them a step of the machine above. */
  function CallAt(c: Call, cells: map<Key, Cell>, turns: seq<Turn>, n: nat): Call {
    if n == 0 then c
    else
      var before, op := CallAt(c, cells, turns, n - 1), n - 1;
      if op % 2 == 0 then SwapNext(before, SeenAt(cells, turns, op), FailsAt(turns, op))
      else RereadNext(before, SeenAt(cells, turns, op), FailsAt(turns, op))
  }

  function Begun(raw: Cell, key: Key, items: Chain, branch: nat): Call {
    Call(raw, Swapping, key, items, branch, raw, 0)
  }

  class Store {
    var cells: map<Key, Cell>
    var turns: seq<Turn>

    /** Other clients run; returns whether the coming operation is answered by an error. */
    method Interleave() returns (fails: bool)
      modifies this
      ensures cells == SeenAt(old(cells), old(turns), 0) && fails == FailsAt(old(turns), 0)
      ensures turns == if old(turns) == [] then [] else old(turns)[1..]
    {
      fails := false;
      if turns != [] {
        cells, fails, turns := turns[0].found, turns[0].fails, turns[1..];
      }
    }

    method CompareAndSwap(key: Key, expected: Cell, value: Cell)
      returns (swapped: bool, failed: bool, ghost before: map<Key, Cell>)
      modifies this
      ensures before == SeenAt(old(cells), old(turns), 0) && failed == FailsAt(old(turns), 0)
      ensures turns == if old(turns) == [] then [] else old(turns)[1..]
      ensures swapped <==> !failed && key in before && before[key] == expected
      ensures cells == if key in before && before[key] == expected then before[key := value] else before
    {
      failed := Interleave();
      before := cells;
      var matches := key in cells && cells[key] == expected;
      if matches { cells := cells[key := value]; }
      swapped := matches && !failed;
    }

    method Get(key: Key) returns (current: Cell, found: bool, failed: bool)
      modifies this
      ensures cells == SeenAt(old(cells), old(turns), 0) && failed == FailsAt(old(turns), 0)
      ensures turns == if old(turns) == [] then [] else old(turns)[1..]
      ensures found <==> key in cells
      ensures found ==> current == cells[key]
    {
      failed := Interleave();
      found := key in cells;
      current := if found then cells[key] else Cell([], 0, NO_BRANCH, true);
    }
  }

  /** What is left after `n` operations is what the next ones meet. */
  predicate Remaining(cells: map<Key, Cell>, turns: seq<Turn>, n: nat, now: map<Key, Cell>, left: seq<Turn>) {
    && left == (if n <= |turns| then turns[n..] else [])
    && (n > 0 ==> now == SeenAt(cells, turns, n - 1)) && (n == 0 ==> now == cells)
  }

  lemma NextOperation(cells: map<Key, Cell>, turns: seq<Turn>, n: nat, now: map<Key, Cell>, left: seq<Turn>)
    requires Remaining(cells, turns, n, now, left)
    ensures SeenAt(now, left, 0) == SeenAt(cells, turns, n) && FailsAt(left, 0) == FailsAt(turns, n)
    ensures Remaining(cells, turns, n + 1, SeenAt(cells, turns, n), if left == [] then [] else left[1..])
  {
    if n < |turns| { assert left[0] == turns[n]; }
  }

  /** The publish loop of ReplaceAntigravityReasoningReplayItemsIfUnchanged in Home mode. `nonces` are the
      random names drawn: one for a new branch, one generation for each attempt. */
  method ReplaceIfUnchanged(store: Store, key: Key, raw: Cell, items: Chain, nonces: seq<nat>)
    returns (swapped: bool, failed: bool, ghost before: map<Key, Cell>, attempts: nat)
    requires |nonces| == 1 + MAX_ATTEMPTS
    modifies store
    ensures 0 < attempts <= MAX_ATTEMPTS && (swapped ==> !failed)
    // an attempt follows another exactly when that one met another value, and may replace what was read back
    ensures forall i :: 0 <= i < attempts - 1 ==> GoesOn(old(store.cells), old(store.turns), key, raw, items, i)
    ensures attempts < MAX_ATTEMPTS ==> !GoesOn(old(store.cells), old(store.turns), key, raw, items, attempts - 1)
    ensures before == SeenAt(old(store.cells), old(store.turns), 2 * (attempts - 1))
    ensures swapped <==> Meets(old(store.cells), old(store.turns), key, raw, attempts - 1) &&
                         !FailsAt(old(store.turns), 2 * (attempts - 1))
    ensures failed <==> FailsAt(old(store.turns), 2 * (attempts - 1)) ||
                        (!swapped && FailsAt(old(store.turns), 2 * (attempts - 1) + 1))
    // whatever the others did, a success replaced an acceptable value, and wrote exactly the new chain
    ensures swapped ==> key in before && (before[key] == raw || Descends(before[key], View(raw), items))
    ensures swapped ==> Accepts(before[key], View(raw), items)
    ensures swapped ==>
              var branch := ChosenBranch(View(raw), items, nonces[0]);
              store.cells == before[key := Cell(items, nonces[attempts], branch, false)]
    ensures !swapped && !failed ==> store.cells == SeenAt(old(store.cells), old(store.turns), 2 * attempts - 1)
    // left alone, the first attempt replaces what was read, and the second one a live chain it may replace
    ensures old(store.turns) == [] && key in old(store.cells) && old(store.cells)[key] == raw ==>
              swapped && attempts == 1
    ensures old(store.turns) == [] && key in old(store.cells) && old(store.cells)[key] != raw ==>
              Descends(old(store.cells)[key], View(raw), items) ==> swapped && attempts == 2
    // the loop takes the steps of the machine above
    ensures var c := Begun(raw, key, items, ChosenBranch(View(raw), items, nonces[0]));
            var unanswered := swapped || FailsAt(old(store.turns), 2 * (attempts - 1));
            CallAt(c, old(store.cells), old(store.turns),
              if unanswered then 2 * attempts - 1 else 2 * attempts).phase == Finished(swapped)
  {
    hide SeenAt, FailsAt, ExpectedAt, Meets, Retryable, GoesOn, CallAt, Remaining, ChosenBranch, MayRetry, Descends,
         Accepts, SwapNext, RereadNext, Swaps;
    var snapshot := View(raw);
    var expected := raw;
    var branch := ChosenBranch(snapshot, items, nonces[0]);
    before := map[];
    attempts := 0;
    ghost var cells, turns, start := store.cells, store.turns, Begun(raw, key, items, branch);
    LoopBegins(cells, turns, key, raw, start);
    LeftAlone(cells, turns, key, raw, items);
    while attempts < MAX_ATTEMPTS
      invariant attempts <= MAX_ATTEMPTS
      invariant Remaining(cells, turns, 2 * attempts, store.cells, store.turns)
      invariant expected == raw || MayRetry(expected, snapshot, items)
      invariant ExpectedAt(cells, turns, key, raw, attempts) == Some(expected)
      invariant forall i :: 0 <= i < attempts ==> GoesOn(cells, turns, key, raw, items, i)
      invariant attempts > 0 ==> before == SeenAt(cells, turns, 2 * (attempts - 1))
      invariant if attempts < MAX_ATTEMPTS
                then CallAt(start, cells, turns, 2 * attempts) == start.(expected := expected, attempt := attempts)
                else CallAt(start, cells, turns, 2 * attempts).phase == Finished(false)
    {
      NextOperation(cells, turns, 2 * attempts, store.cells, store.turns);
      AttemptMeets(cells, turns, key, raw, items, expected, attempts);
      AttemptSteps(cells, turns, start, expected, attempts);
      attempts := attempts + 1;
      swapped, failed, before := store.CompareAndSwap(key, expected, Cell(items, nonces[attempts], branch, false));
      assert before == SeenAt(cells, turns, 2 * (attempts - 1));
      if failed || swapped {
        if swapped { SwapAccepts(before[key], raw, items); }
        return;
      }
      NextOperation(cells, turns, 2 * attempts - 1, store.cells, store.turns);
      var current, found, unread := store.Get(key);
      if unread || !found { return false, unread, before, attempts; }
      if !MayRetry(current, snapshot, items) { return false, false, before, attempts; }
      expected := current;
    }
    AllMetOthers(cells, turns, key, raw, items, attempts - 1);
    RemainingSeen(cells, turns, 2 * attempts, store.cells, store.turns);
    return false, false, before, attempts;
  }

  /** With nobody else at the store, the first attempt meets what was read, or the second what was found then. */
  lemma LeftAlone(cells: map<Key, Cell>, turns: seq<Turn>, key: Key, raw: Cell, items: Chain)
    ensures turns == [] ==> !FailsAt(turns, 0) && !FailsAt(turns, 2)
    ensures turns == [] && key in cells && cells[key] == raw ==>
              Meets(cells, turns, key, raw, 0) && !GoesOn(cells, turns, key, raw, items, 0)
    ensures turns == [] && key in cells && cells[key] != raw && Descends(cells[key], View(raw), items) ==>
              && GoesOn(cells, turns, key, raw, items, 0)
              && Meets(cells, turns, key, raw, 1) && !GoesOn(cells, turns, key, raw, items, 1)
  {
    hide Descends;
  }

  lemma LoopBegins(cells: map<Key, Cell>, turns: seq<Turn>, key: Key, raw: Cell, start: Call)
    ensures Remaining(cells, turns, 0, cells, turns) && ExpectedAt(cells, turns, key, raw, 0) == Some(raw)
    ensures CallAt(start, cells, turns, 0) == start
  {
  }

  lemma RemainingSeen(cells: map<Key, Cell>, turns: seq<Turn>, n: nat, now: map<Key, Cell>, left: seq<Turn>)
    requires Remaining(cells, turns, n, now, left) && n > 0
    ensures now == SeenAt(cells, turns, n - 1)
  {
  }

  lemma AllMetOthers(cells: map<Key, Cell>, turns: seq<Turn>, key: Key, raw: Cell, items: Chain, i: nat)
    requires GoesOn(cells, turns, key, raw, items, i)
    ensures !Meets(cells, turns, key, raw, i) && !FailsAt(turns, 2 * i) && !FailsAt(turns, 2 * i + 1)
  {
  }

  /** A value that a request expects passes the local test. */
  lemma SwapAccepts(expected: Cell, raw: Cell, items: Chain)
    requires expected == raw || MayRetry(expected, View(raw), items)
    ensures expected == raw || Descends(expected, View(raw), items)
    ensures Accepts(expected, View(raw), items)
  {
  }

  /** Attempt `i` in terms of what its two operations meet. */
  lemma AttemptMeets(cells: map<Key, Cell>, turns: seq<Turn>, key: Key, raw: Cell, items: Chain, expected: Cell, i: nat)
    requires ExpectedAt(cells, turns, key, raw, i) == Some(expected)
    ensures var first, second := SeenAt(cells, turns, 2 * i), SeenAt(cells, turns, 2 * i + 1);
            var meets := key in first && first[key] == expected;
            && (Meets(cells, turns, key, raw, i) <==> meets)
            && (GoesOn(cells, turns, key, raw, items, i) <==>
                  && !meets && key in second && MayRetry(second[key], View(raw), items)
                  && !FailsAt(turns, 2 * i) && !FailsAt(turns, 2 * i + 1))
            && (key in second ==> ExpectedAt(cells, turns, key, raw, i + 1) == Some(second[key]))
  {
    hide SeenAt, FailsAt;
    assert 2 * (i + 1) - 1 == 2 * i + 1;
  }

  /** The two steps of the machine that attempt `i` takes. */
  lemma AttemptSteps(cells: map<Key, Cell>, turns: seq<Turn>, start: Call, expected: Cell, i: nat)
    requires i < MAX_ATTEMPTS && start.phase.Swapping?
    requires CallAt(start, cells, turns, 2 * i) == start.(expected := expected, attempt := i)
    ensures var first, second := SeenAt(cells, turns, 2 * i), SeenAt(cells, turns, 2 * i + 1);
            var meets := start.key in first && first[start.key] == expected;
            var retry := start.key in second && MayRetry(second[start.key], View(start.raw), start.items);
            && (FailsAt(turns, 2 * i) || meets ==>
                  CallAt(start, cells, turns, 2 * i + 1).phase == Finished(!FailsAt(turns, 2 * i)))
            && (!FailsAt(turns, 2 * i) && !meets ==>
                  if retry && !FailsAt(turns, 2 * i + 1) && i + 1 < MAX_ATTEMPTS
                  then CallAt(start, cells, turns, 2 * i + 2) ==
                       start.(expected := second[start.key], attempt := i + 1)
                  else CallAt(start, cells, turns, 2 * i + 2).phase == Finished(false))
  {
    hide SeenAt, FailsAt, MayRetry;
    CallAfterSwap(start, cells, turns, i);
    CallAfterReread(start, cells, turns, i);
    hide CallAt;
  }

  lemma CallAfterSwap(start: Call, cells: map<Key, Cell>, turns: seq<Turn>, i: nat)
    ensures CallAt(start, cells, turns, 2 * i + 1) ==
            SwapNext(CallAt(start, cells, turns, 2 * i), SeenAt(cells, turns, 2 * i), FailsAt(turns, 2 * i))
  {
    hide SeenAt, FailsAt, SwapNext, RereadNext;
  }

  lemma CallAfterReread(start: Call, cells: map<Key, Cell>, turns: seq<Turn>, i: nat)
    ensures CallAt(start, cells, turns, 2 * i + 2) ==
            RereadNext(CallAt(start, cells, turns, 2 * i + 1), SeenAt(cells, turns, 2 * i + 1),
              FailsAt(turns, 2 * i + 1))
  {
    hide SeenAt, FailsAt, SwapNext, RereadNext;
    assert (2 * i + 1) % 2 == 1;
  }
}
