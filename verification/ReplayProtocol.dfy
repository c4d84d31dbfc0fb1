// The optimistic replay protocol, free of storage: what a conditional publish may replace, and what
// follows over every run. The in-process cache and the Home store are both shown to run this protocol
// (internal/cache/antigravity_reasoning_replay_cache.go).
module ReplayProtocol {
  import opened Bytes

  type Key = string
  type Chain = seq<Bytes>

  const NO_BRANCH: nat := 0

  /** The replay state of one key. A tombstone is a deleted cell. */
  datatype Cell = Cell(items: Chain, version: nat, branch: nat, deleted: bool)

  /** What a request remembers of the cell it read. */
  datatype Snapshot = Snapshot(items: Chain, version: nat, branch: nat)

  function View(cell: Cell): Snapshot {
    Snapshot(cell.items, cell.version, cell.branch)
  }

  predicate Matches(cell: Cell, sn: Snapshot) {
    cell.version == sn.version
  }

  /** The cell is live, on the snapshot's branch, and the new chain extends it. */
  predicate Descends(cell: Cell, sn: Snapshot, items: Chain) {
    !cell.deleted && sn.branch != NO_BRANCH && cell.branch == sn.branch && cell.items <= items
  }

  predicate Accepts(cell: Cell, sn: Snapshot, items: Chain) {
    Matches(cell, sn) || Descends(cell, sn, items)
  }

  /** A chain that rewrites what its snapshot read starts a branch of its own. */
  predicate StartsBranch(cell: Cell, sn: Snapshot, items: Chain) {
    sn.branch == NO_BRANCH || (Matches(cell, sn) && !(sn.items <= items))
  }

  /** Cells, every snapshot handed out so far, and every chain stored so far with its branch. */
  datatype World = World(cells: map<Key, Cell>, issued: set<Snapshot>, stored: set<(nat, Chain)>)

  const EMPTY := World(map[], {}, {})

  datatype Step =
    | Issue(key: Key)
    | Put(key: Key, items: Chain, deleted: bool, version: nat, branch: nat)
    | Publish(key: Key, snapshot: Snapshot, items: Chain, version: nat, branch: nat)
    | Retract(key: Key, snapshot: Snapshot, version: nat, branch: nat)
    | Drop(keys: set<Key>)

  predicate FreshVersion(w: World, version: nat) {
    && (forall k :: k in w.cells ==> w.cells[k].version != version)
    && (forall sn :: sn in w.issued ==> sn.version != version)
  }

  predicate FreshBranch(w: World, branch: nat) {
    && branch != NO_BRANCH
    && (forall k :: k in w.cells ==> w.cells[k].branch != branch)
    && (forall sn :: sn in w.issued ==> sn.branch != branch)
    && (forall p :: p in w.stored ==> p.0 != branch)
  }

  predicate Enabled(w: World, step: Step) {
    match step
    case Issue(key) => key in w.cells
    case Put(_, items, deleted, version, branch) =>
      (deleted ==> items == []) && FreshVersion(w, version) && FreshBranch(w, branch)
    case Publish(key, sn, items, version, branch) =>
      && sn in w.issued && key in w.cells && Accepts(w.cells[key], sn, items) && FreshVersion(w, version)
      && (if StartsBranch(w.cells[key], sn, items) then FreshBranch(w, branch) else branch == sn.branch)
    case Retract(key, sn, version, branch) =>
      sn in w.issued && key in w.cells && Matches(w.cells[key], sn) && FreshVersion(w, version) &&
      FreshBranch(w, branch)
    case Drop(_) => true
  }

  function Apply(w: World, step: Step): World
    requires Enabled(w, step)
  {
    match step
    case Issue(key) => w.(issued := w.issued + {View(w.cells[key])})
    case Put(key, items, deleted, version, branch) =>
      World(w.cells[key := Cell(items, version, branch, deleted)], w.issued,
            if deleted then w.stored else w.stored + {(branch, items)})
    case Publish(key, _, items, version, branch) =>
      World(w.cells[key := Cell(items, version, branch, false)], w.issued, w.stored + {(branch, items)})
    case Retract(key, _, version, branch) => w.(cells := w.cells[key := Cell([], version, branch, true)])
    case Drop(keys) => w.(cells := w.cells - keys)
  }

  // ----- what every step keeps

  predicate CellsDistinct(w: World) {
    && (forall k :: k in w.cells ==> w.cells[k].branch != NO_BRANCH && (w.cells[k].deleted ==> w.cells[k].items == []))
    && (forall k, l :: k in w.cells && l in w.cells && k != l ==>
         w.cells[k].version != w.cells[l].version && w.cells[k].branch != w.cells[l].branch)
  }

  /** A cell with a snapshot's version is the cell it read; a cell on its branch extends what it read. */
  predicate SnapshotFits(cell: Cell, sn: Snapshot) {
    && (cell.version == sn.version ==> View(cell) == sn)
    && (cell.branch == sn.branch ==> sn.items <= cell.items)
  }

  predicate SnapshotsFit(w: World) {
    forall k, sn :: k in w.cells && sn in w.issued ==> SnapshotFits(w.cells[k], sn)
  }

  predicate ChainFits(cell: Cell, p: (nat, Chain)) {
    cell.branch == p.0 ==> p.1 <= cell.items
  }

  predicate ChainsFit(w: World) {
    forall k, p :: k in w.cells && p in w.stored ==> ChainFits(w.cells[k], p)
  }

  predicate Comparable(a: Chain, b: Chain) {
    a <= b || b <= a
  }

  predicate ChainsOrdered(w: World) {
    forall p, q :: p in w.stored && q in w.stored && p.0 == q.0 ==> Comparable(p.1, q.1)
  }

  predicate Inv(w: World) {
    CellsDistinct(w) && SnapshotsFit(w) && ChainsFit(w) && ChainsOrdered(w)
  }

  /** Who has just read a cell may publish anything, on the cell's branch when it extends what was read and on a
      new one when it does not, and may delete. */
  lemma ReaderMayPublish(w: World, key: Key, items: Chain, version: nat, branch: nat)
    requires Inv(w) && key in w.cells
    requires var read := Apply(w, Issue(key)); FreshVersion(read, version) && FreshBranch(read, branch)
    ensures var read, cell := Apply(w, Issue(key)), w.cells[key];
            var chosen := if cell.items <= items then cell.branch else branch;
            && Enabled(read, Publish(key, View(cell), items, version, chosen))
            && Enabled(read, Retract(key, View(cell), version, branch))
  {
  }

  /** After a publish that extends its snapshot, the same snapshot may publish again exactly what extends that
      publish too, and may not delete. */
  lemma ContinuationIsAccepted(w: World, key: Key, sn: Snapshot, first: Chain, second: Chain, v1: nat, v2: nat,
          branch: nat)
    requires Inv(w) && sn.branch != NO_BRANCH && Enabled(w, Publish(key, sn, first, v1, sn.branch))
    requires FreshVersion(Apply(w, Publish(key, sn, first, v1, sn.branch)), v2)
    ensures var after := Apply(w, Publish(key, sn, first, v1, sn.branch));
            && (Enabled(after, Publish(key, sn, second, v2, sn.branch)) <==> first <= second)
            && !Enabled(after, Retract(key, sn, v2, branch))
  {
  }

  /** The branch under which an accepted chain is stored is the cell's own or a new one; on the cell's
      own branch the chain extends the cell. */
  lemma PublishExtends(w: World, step: Step)
    requires Inv(w) && step.Publish? && Enabled(w, step)
    ensures var cell := w.cells[step.key];
            || FreshBranch(w, step.branch)
            || (step.branch == cell.branch && step.branch == step.snapshot.branch && cell.items <= step.items)
  {
    assert SnapshotFits(w.cells[step.key], step.snapshot);
  }

  lemma InvNewCell(w: World, key: Key, cell: Cell)
    requires Inv(w) && FreshVersion(w, cell.version) && (cell.deleted ==> cell.items == [])
    requires FreshBranch(w, cell.branch) ||
             (key in w.cells && cell.branch == w.cells[key].branch && w.cells[key].items <= cell.items)
    ensures Inv(World(w.cells[key := cell], w.issued, w.stored))
    ensures Inv(World(w.cells[key := cell], w.issued, w.stored + {(cell.branch, cell.items)}))
  {
    var w' := World(w.cells[key := cell], w.issued, w.stored);
    forall sn | sn in w.issued ensures SnapshotFits(cell, sn) {
      if key in w.cells { assert SnapshotFits(w.cells[key], sn); }
    }
    forall p | p in w.stored ensures ChainFits(cell, p) {
      if key in w.cells { assert ChainFits(w.cells[key], p); }
    }
    assert CellsDistinct(w') && SnapshotsFit(w') && ChainsFit(w');
    var w'' := w'.(stored := w.stored + {(cell.branch, cell.items)});
    forall k | k in w''.cells ensures ChainFits(w''.cells[k], (cell.branch, cell.items)) {}
    assert ChainsFit(w'');
  }

  lemma InvStep(w: World, step: Step)
    requires Inv(w) && Enabled(w, step)
    ensures Inv(Apply(w, step))
  {
    match step {
      case Issue(key) =>
        var w' := Apply(w, step);
        forall k | k in w.cells ensures SnapshotFits(w.cells[k], View(w.cells[key])) {}
        assert SnapshotsFit(w') && ChainsFit(w');
      case Put(key, items, deleted, version, branch) => InvNewCell(w, key, Cell(items, version, branch, deleted));
      case Publish(key, _, items, version, branch) =>
        PublishExtends(w, step);
        InvNewCell(w, key, Cell(items, version, branch, false));
      case Retract(key, _, version, branch) => InvNewCell(w, key, Cell([], version, branch, true));
      case Drop(_) =>
        var w' := Apply(w, step);
        assert forall k :: k in w'.cells ==> k in w.cells && w'.cells[k] == w.cells[k];
    }
  }

  // ----- runs

  predicate Runs(w: World, steps: seq<Step>)
    decreases |steps|
  {
    steps == [] || (Enabled(w, steps[0]) && Runs(Apply(w, steps[0]), steps[1..]))
  }

  function After(w: World, steps: seq<Step>): World
    requires Runs(w, steps)
    decreases |steps|
  {
    if steps == [] then w else After(Apply(w, steps[0]), steps[1..])
  }

  lemma {:induction false} RunsConcat(w: World, a: seq<Step>, b: seq<Step>)
    requires Runs(w, a)
    ensures Runs(w, a + b) <==> Runs(After(w, a), b)
    ensures Runs(w, a + b) ==> After(w, a + b) == After(After(w, a), b)
    decreases |a|
  {
    if a == [] {
      assert a + b == b;
    } else {
      assert (a + b)[0] == a[0] && (a + b)[1..] == a[1..] + b;
      RunsConcat(Apply(w, a[0]), a[1..], b);
    }
  }

  lemma RunsSnoc(w: World, steps: seq<Step>, step: Step)
    requires Runs(w, steps) && Enabled(After(w, steps), step)
    ensures Runs(w, steps + [step]) && After(w, steps + [step]) == Apply(After(w, steps), step)
  {
    RunsConcat(w, steps, [step]);
    assert [step][1..] == [];
  }

  lemma RunsNone(w: World)
    ensures Runs(w, []) && After(w, []) == w
  {
  }

  lemma RunsOne(w: World, step: Step)
    requires Enabled(w, step)
    ensures Runs(w, [step]) && After(w, [step]) == Apply(w, step)
  {
    assert [step][1..] == [];
  }

  lemma RunsCons(w: World, step: Step, rest: seq<Step>)
    requires Enabled(w, step) && Runs(Apply(w, step), rest)
    ensures Runs(w, [step] + rest) && After(w, [step] + rest) == After(Apply(w, step), rest)
  {
    assert ([step] + rest)[1..] == rest;
  }

  lemma RunsTwo(w: World, a: Step, w1: World, b: Step, w2: World)
    requires Enabled(w, a) && Apply(w, a) == w1 && Enabled(w1, b) && Apply(w1, b) == w2
    ensures Runs(w, [a, b]) && After(w, [a, b]) == w2
  {
    RunsOne(w, a);
    RunsSnoc(w, [a], b);
    assert [a] + [b] == [a, b];
  }

  /** Three steps through the given intermediate worlds are a run. */
  lemma RunsThree(w: World, a: Step, w1: World, b: Step, w2: World, c: Step, w3: World)
    requires Enabled(w, a) && Apply(w, a) == w1 && Enabled(w1, b) && Apply(w1, b) == w2 && Enabled(w2, c) &&
             Apply(w2, c) == w3
    ensures Runs(w, [a, b, c]) && After(w, [a, b, c]) == w3
  {
    RunsOne(w, a);
    RunsSnoc(w, [a], b);
    RunsSnoc(w, [a] + [b], c);
    assert [a] + [b] + [c] == [a, b, c];
  }

  lemma {:induction false} InvRun(w: World, steps: seq<Step>)
    requires Inv(w) && Runs(w, steps)
    ensures Inv(After(w, steps)) && w.issued <= After(w, steps).issued && w.stored <= After(w, steps).stored
    decreases |steps|
  {
    if steps != [] {
      InvStep(w, steps[0]);
      InvRun(Apply(w, steps[0]), steps[1..]);
    }
  }

  /** All chains ever stored under one branch are ordered by prefix, and the live chain of that branch
      is the longest: no update on a branch is ever lost. */
  lemma {:induction false} NoLostUpdate(steps: seq<Step>, p: (nat, Chain), q: (nat, Chain))
    requires Runs(EMPTY, steps)
    ensures var w := After(EMPTY, steps);
            && (p in w.stored && q in w.stored && p.0 == q.0 ==> Comparable(p.1, q.1))
            && (forall k :: k in w.cells && p in w.stored && w.cells[k].branch == p.0 ==> p.1 <= w.cells[k].items)
  {
    InvRun(EMPTY, steps);
    var w := After(EMPTY, steps);
    forall k | k in w.cells && p in w.stored ensures ChainFits(w.cells[k], p) {}
  }

  /** A publish that goes through found exactly the state its snapshot read, or extends the current chain
      of the snapshot's branch, which itself extends what the snapshot read. */
  lemma {:induction false} PublishFindsItsState(steps: seq<Step>, step: Step)
    requires Runs(EMPTY, steps) && step.Publish? && Enabled(After(EMPTY, steps), step)
    ensures var cell, sn := After(EMPTY, steps).cells[step.key], step.snapshot;
            || View(cell) == sn
            || (!cell.deleted && cell.branch == sn.branch == step.branch && sn.items <= cell.items <= step.items)
  {
    InvRun(EMPTY, steps);
    assert SnapshotFits(After(EMPTY, steps).cells[step.key], step.snapshot);
  }

  // ----- fencing

  /** For this key the snapshot can neither publish nor delete. */
  predicate Fenced(w: World, key: Key, sn: Snapshot) {
    key in w.cells ==> w.cells[key].version != sn.version && w.cells[key].branch != sn.branch
  }

  lemma FencedIsRefused(w: World, key: Key, sn: Snapshot, items: Chain)
    requires Fenced(w, key, sn) && key in w.cells
    ensures !Accepts(w.cells[key], sn, items) && !Matches(w.cells[key], sn)
  {
  }

  /** A step that takes the branch of a key away: the entry is deleted, dropped, overwritten, or moved
      to a new branch. */
  predicate LosesBranch(w: World, step: Step, key: Key)
    requires Enabled(w, step)
  {
    var w' := Apply(w, step);
    key in w.cells && (key in w'.cells ==> w'.cells[key].branch != w.cells[key].branch)
  }

  lemma {:induction false} LosingBranchFences(w: World, step: Step, key: Key, sn: Snapshot)
    requires Inv(w) && Enabled(w, step) && LosesBranch(w, step, key) && sn in w.issued
    ensures Fenced(Apply(w, step), key, sn)
  {
    if step.Publish? { PublishExtends(w, step); }
  }

  lemma FencedStep(w: World, step: Step, key: Key, sn: Snapshot)
    requires Inv(w) && Enabled(w, step) && sn in w.issued && Fenced(w, key, sn)
    ensures Fenced(Apply(w, step), key, sn)
  {
    if step.Publish? { PublishExtends(w, step); }
  }

  lemma {:induction false} FencedRun(w: World, steps: seq<Step>, key: Key, sn: Snapshot)
    requires Inv(w) && Runs(w, steps) && sn in w.issued && Fenced(w, key, sn)
    ensures Fenced(After(w, steps), key, sn)
    decreases |steps|
  {
    if steps != [] {
      InvStep(w, steps[0]);
      FencedStep(w, steps[0], key, sn);
      FencedRun(Apply(w, steps[0]), steps[1..], key, sn);
    }
  }

  /** Permanent fencing: once a key has lost its branch, no snapshot handed out before can ever again
      publish or delete for that key, whatever happens later. */
  lemma {:induction false} PermanentFencing(before: seq<Step>, event: Step, later: seq<Step>, key: Key, sn: Snapshot,
          last: Step)
    requires Runs(EMPTY, before + [event] + later)
    requires Runs(EMPTY, before) && Enabled(After(EMPTY, before), event)
    requires LosesBranch(After(EMPTY, before), event, key) && sn in After(EMPTY, before).issued
    requires (last.Publish? || last.Retract?) && last.key == key && last.snapshot == sn
    ensures Fenced(After(EMPTY, before + [event] + later), key, sn)
    ensures !Enabled(After(EMPTY, before + [event] + later), last)
  {
    hide Inv;
    var w := After(EMPTY, before);
    InvRun(EMPTY, before);
    assert before + [event] + later == before + ([event] + later);
    RunsConcat(EMPTY, before, [event] + later);
    assert ([event] + later)[1..] == later;
    InvStep(w, event);
    LosingBranchFences(w, event, key, sn);
    FencedRun(Apply(w, event), later, key, sn);
    var w' := After(EMPTY, before + [event] + later);
    if key in w'.cells { FencedIsRefused(w', key, sn, if last.Publish? then last.items else []); }
  }
}
