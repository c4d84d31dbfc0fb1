// The in-process Antigravity replay cache (internal/cache/antigravity_reasoning_replay_cache.go,
// local mode), each method atomic under the cache mutex.
module AntigravityCache {
  import Eviction
  import opened ReplayProtocol

  const TTL: int := 3_600_000_000_000
  const MAX_ENTRIES: nat := 10240
  const EVICT_BATCH: nat := 128
  const MAX_ITEMS: nat := 4096
  const MAX_BYTES: nat := 0x100_0000

  datatype Entry = Entry(items: Chain, timestamp: int, revision: nat, branch: nat, deleted: bool)

  /** A loaded snapshot. */
  datatype LocalSnapshot = LocalSnapshot(items: Chain, found: bool, revision: nat, branch: nat, evictionEpoch: nat)

  function CellOf(e: Entry): Cell {
    Cell(e.items, e.revision, e.branch, e.deleted)
  }

  function ViewOf(sn: LocalSnapshot): Snapshot {
    Snapshot(sn.items, sn.revision, sn.branch)
  }

  function TotalBytes(items: Chain): nat {
    if items == [] then 0 else |items[0]| + TotalBytes(items[1..])
  }

  /** Whether a chain of already normalised items passes normalisation. */
  predicate Storable(items: Chain) {
    0 < |items| <= MAX_ITEMS && TotalBytes(items) <= MAX_BYTES
  }

  lemma {:induction false} TotalBounds(items: Chain, most: nat)
    requires forall i :: 0 <= i < |items| ==> |items[i]| <= most
    ensures TotalBytes(items) <= |items| * most
  {
    if items != [] {
      TotalBounds(items[1..], most);
      assert |items| * most == most + (|items| - 1) * most;
    }
  }

  lemma {:induction false} TotalCovers(items: Chain, i: nat)
    requires i < |items|
    ensures TotalBytes(items) >= |items[i]|
  {
    if i > 0 { TotalCovers(items[1..], i - 1); }
  }

  /** Up to 4096 items of up to 4 KiB are storable; no item above 16 MiB is, and neither are no items or more
      than 4096. */
  lemma StorableChains(items: Chain)
    ensures 0 < |items| <= 4096 && (forall i :: 0 <= i < |items| ==> |items[i]| <= 4096) ==> Storable(items)
    ensures Storable(items) ==> 0 < |items| <= 4096 && forall i :: 0 <= i < |items| ==> |items[i]| <= 16_777_216
  {
    if 0 < |items| <= 4096 && (forall i :: 0 <= i < |items| ==> |items[i]| <= 4096) {
      TotalBounds(items, 4096);
    }
    forall i | 0 <= i < |items| ensures TotalBytes(items) >= |items[i]| { TotalCovers(items, i); }
  }

  function Cells(entries: map<Key, Entry>): map<Key, Cell> {
    map k | k in entries :: CellOf(entries[k])
  }

  function Stamp(e: Entry): int {
    e.timestamp
  }

  ghost predicate WithoutOldest(before: map<Key, Entry>, count: nat, after: map<Key, Entry>) {
    Eviction.WithoutOldest(Stamp, before, count, after)
  }

  /** `after` is `before`, less its oldest batch when no more entries fit. */
  ghost predicate RoomMade(before: map<Key, Entry>, after: map<Key, Entry>) {
    if |before| >= MAX_ENTRIES then WithoutOldest(before, EVICT_BATCH, after) else after == before
  }

  method PrefixOf(prefix: Chain, items: Chain) returns (holds: bool)
    ensures holds <==> prefix <= items
  {
    if |prefix| > |items| { return false; }
    for i := 0 to |prefix|
      invariant prefix[..i] == items[..i]
    {
      if prefix[i] != items[i] {
        assert items[..|prefix|][i] == items[i];
        return false;
      }
      assert prefix[..i + 1] == items[..i + 1];
    }
    assert prefix[..|prefix|] == prefix;
    return true;
  }

  /** Every revision and branch in use has been counted. */
  ghost predicate WithinCounters(w: World, revisions: nat, generations: nat) {
    && (forall k :: k in w.cells ==> w.cells[k].version <= revisions && w.cells[k].branch <= generations)
    && (forall sn :: sn in w.issued ==> sn.version <= revisions && sn.branch <= generations)
    && (forall p :: p in w.stored ==> p.0 <= generations)
  }

  lemma NextIsFresh(w: World, revisions: nat, generations: nat)
    requires WithinCounters(w, revisions, generations)
    ensures FreshVersion(w, revisions + 1) && FreshBranch(w, generations + 1)
    ensures WithinCounters(w, revisions, generations + 1)
  {
  }

  lemma StoredWithinCounters(w: World, step: Step, revisions: nat, generations: nat)
    requires WithinCounters(w, revisions, generations) && Enabled(w, step) && !step.Issue? && !step.Drop?
    requires step.version == revisions + 1 && step.branch <= generations
    ensures WithinCounters(Apply(w, step), revisions + 1, generations)
  {
  }

  lemma CellsUpdated(entries: map<Key, Entry>, key: Key, e: Entry)
    ensures Cells(entries[key := e]) == Cells(entries)[key := CellOf(e)]
    ensures |entries[key := e]| == |entries| + if key in entries then 0 else 1
  {
    Eviction.UpdatedSize(entries, key, e);
  }

  lemma Inserted(before: map<Key, Entry>, kept: map<Key, Entry>, key: Key, e: Entry)
    requires key !in before && kept.Keys <= before.Keys
    ensures kept[key := e] - {key} == kept && before.Keys - kept[key := e].Keys == before.Keys - kept.Keys
  {
  }

  class AntigravityCache {
    var entries: map<Key, Entry>
    var nextRevision: nat
    var evictionEpoch: nat
    var generations: nat
    ghost var world: World

    /** The protocol state this cache stands for, and the bound on its entries. */
    ghost predicate Valid()
      reads this
    {
      && world.cells == Cells(entries) && Inv(world)
      && |entries| <= MAX_ENTRIES
      && Counted()
    }

    ghost predicate Counted()
      reads this
    {
      WithinCounters(world, nextRevision, generations)
    }

    /** The snapshot was returned by the getter. */
    ghost predicate Issued(sn: LocalSnapshot)
      reads this
    {
      sn.found && ViewOf(sn) in world.issued
    }

    constructor ()
      ensures Valid() && entries == map[] && world == EMPTY
    {
      entries, nextRevision, evictionEpoch, generations := map[], 0, 0, 0;
      world := EMPTY;
    }

    /** A fresh branch name; the nonce source never repeats itself. */
    method NewGeneration() returns (g: nat)
      modifies this`generations
      ensures g == generations == old(generations) + 1
    {
      generations := generations + 1;
      g := generations;
    }

    method EvictOldest(count: nat)
      modifies this`entries, this`evictionEpoch
      ensures WithoutOldest(old(entries), count, entries)
      ensures forall k, l :: k in old(entries) && k !in entries && l in entries ==>
                old(entries)[k].timestamp <= old(entries)[l].timestamp
      ensures evictionEpoch == old(evictionEpoch) + |old(entries)| - |entries|
    {
      var removed := 0;
      while removed < count && entries != map[]
        invariant removed <= count && removed <= |old(entries)|
        invariant WithoutOldest(old(entries), removed, entries)
        invariant evictionEpoch == old(evictionEpoch) + |old(entries)| - |entries|
        decreases count - removed
      {
        Eviction.OldestExists(Stamp, entries, entries.Keys);
        var k :| Eviction.IsOldest(Stamp, entries, entries.Keys, k);
        Eviction.RemoveOldest(Stamp, old(entries), removed, entries, k);
        evictionEpoch := evictionEpoch + 1;
        entries := entries - {k};
        removed := removed + 1;
      }
    }

    /** Eviction seen from the protocol: some keys are dropped. */
    ghost method RecordDrop(before: map<Key, Entry>) returns (step: Step)
      requires world.cells == Cells(before) && Inv(world) && Counted()
      requires entries.Keys <= before.Keys && forall k :: k in entries ==> entries[k] == before[k]
      modifies this`world
      ensures step == Drop(before.Keys - entries.Keys) && world == Apply(old(world), step)
      ensures world.cells == Cells(entries) && Inv(world) && Counted()
    {
      hide Inv;
      step := Drop(before.Keys - entries.Keys);
      InvStep(world, step);
      world := Apply(world, step);
      assert world.cells.Keys == entries.Keys;
    }

    /** Evicts a batch when `limit` entries have been reached. */
    method MakeRoom(limit: nat) returns (ghost step: Step)
      requires world.cells == Cells(entries) && Inv(world) && Counted() && |entries| <= limit + EVICT_BATCH
      modifies this`entries, this`evictionEpoch, this`world
      ensures world.cells == Cells(entries) && Inv(world) && Counted()
      ensures if |old(entries)| >= limit then WithoutOldest(old(entries), EVICT_BATCH, entries)
              else entries == old(entries)
      ensures entries.Keys <= old(entries).Keys
      ensures |entries| <= |old(entries)| &&
              (|old(entries)| >= limit >= EVICT_BATCH ==> |entries| == |old(entries)| - EVICT_BATCH)
      ensures evictionEpoch == old(evictionEpoch) + |old(entries)| - |entries|
      ensures step == Drop(old(entries).Keys - entries.Keys) && world == Apply(old(world), step)
    {
      if |entries| >= limit { EvictOldest(EVICT_BATCH); }
      step := RecordDrop(old(entries));
    }

    /** Stores an entry under the next revision, as the protocol step `step`. */
    method Store(key: Key, items: Chain, now: int, branch: nat, deleted: bool, ghost step: Step)
      requires world.cells == Cells(entries) && Inv(world) && Counted() && branch <= generations
      requires !step.Issue? && !step.Drop? && step.key == key && step.version == nextRevision + 1 &&
               step.branch == branch
      requires Enabled(world, step) &&
               Apply(world, step).cells == world.cells[key := Cell(items, nextRevision + 1, branch, deleted)]
      modifies this`entries, this`nextRevision, this`world
      ensures nextRevision == old(nextRevision) + 1 && Counted()
      ensures entries == old(entries)[key := Entry(items, now, nextRevision, branch, deleted)]
      ensures |entries| == |old(entries)| + if key in old(entries) then 0 else 1
      ensures world == Apply(old(world), step) && world.cells == Cells(entries) && Inv(world)
    {
      hide Inv, Enabled, Apply, WithinCounters, Cells;
      InvStep(world, step);
      StoredWithinCounters(world, step, nextRevision, generations);
      CellsUpdated(entries, key, Entry(items, now, nextRevision + 1, branch, deleted));
      world := Apply(world, step);
      nextRevision := nextRevision + 1;
      entries := entries[key := Entry(items, now, nextRevision, branch, deleted)];
    }

    /** Stores an entry on a branch of its own. */
    method StoreFresh(key: Key, items: Chain, now: int, deleted: bool) returns (ghost step: Step)
      requires world.cells == Cells(entries) && Inv(world) && Counted() && (deleted ==> items == [])
      modifies this`entries, this`nextRevision, this`generations, this`world
      ensures nextRevision == old(nextRevision) + 1 && generations == old(generations) + 1 && Counted()
      ensures step == Put(key, items, deleted, nextRevision, generations)
      ensures entries == old(entries)[key := Entry(items, now, nextRevision, generations, deleted)]
      ensures |entries| == |old(entries)| + if key in old(entries) then 0 else 1
      ensures Enabled(old(world), step) && world == Apply(old(world), step) && world.cells == Cells(entries) &&
              Inv(world)
    {
      hide Inv, WithinCounters, FreshVersion, FreshBranch, Cells;
      NextIsFresh(world, nextRevision, generations);
      var branch := NewGeneration();
      step := Put(key, items, deleted, nextRevision + 1, branch);
      Store(key, items, now, branch, deleted, step);
    }

    /** Hands out a snapshot of the entry of `key`. */
    method TakeSnapshot(key: Key) returns (snapshot: LocalSnapshot, ghost step: Step)
      requires Valid() && key in entries
      modifies this`world
      ensures Valid() && Issued(snapshot) && step == Issue(key) && world == Apply(old(world), step)
      ensures var e := entries[key]; snapshot == LocalSnapshot(e.items, true, e.revision, e.branch, evictionEpoch)
    {
      step := Issue(key);
      InvStep(world, step);
      world := Apply(world, step);
      var e := entries[key];
      // a tombstone has no items, so its snapshot has none either
      snapshot := LocalSnapshot(e.items, true, e.revision, e.branch, evictionEpoch);
    }

    /** Fences a miss with a tombstone of its own, making room first. */
    method ReserveAbsent(key: Key, now: int) returns (snapshot: LocalSnapshot, ghost steps: seq<Step>)
      requires Valid() && key !in entries
      modifies this
      ensures Valid() && Issued(snapshot)
      ensures Runs(old(world), steps) && world == After(old(world), steps)
      ensures snapshot == LocalSnapshot([], true, nextRevision, generations, evictionEpoch)
      ensures nextRevision == old(nextRevision) + 1 && generations == old(generations) + 1
      ensures key in entries && entries[key] == Entry([], now, nextRevision, generations, true)
      ensures RoomMade(old(entries), entries - {key})
      ensures steps == [Drop(old(entries).Keys - entries.Keys), Put(key, [], true, nextRevision, generations),
                        Issue(key)]
    {
      hide After, Runs, Inv, FreshVersion, FreshBranch, WithinCounters, Cells, WithoutOldest;
      var drop := MakeRoom(MAX_ENTRIES);
      ghost var kept, w1 := entries, world;
      var put := StoreFresh(key, [], now, true);
      ghost var w2 := world;
      Inserted(old(entries), kept, key, entries[key]);
      ghost var issue;
      snapshot, issue := TakeSnapshot(key);
      RunsThree(old(world), drop, w1, put, w2, issue, world);
      steps := [drop, put, issue];
    }

    /** GetAntigravityReasoningReplayItemsWithSnapshotRequired. */
    method Get(key: Key, now: int) returns (items: Chain, snapshot: LocalSnapshot, found: bool, ghost steps: seq<Step>)
      requires Valid()
      modifies this
      ensures Valid() && Issued(snapshot)
      ensures Runs(old(world), steps) && world == After(old(world), steps)
      ensures key in entries && entries[key].timestamp == now && ViewOf(snapshot) == View(CellOf(entries[key]))
      ensures snapshot.evictionEpoch == evictionEpoch
      ensures items == snapshot.items && found == (items != [])
      // a live hit reads the entry and refreshes it; anything else leaves a tombstone on a new branch
      ensures if key in old(entries) && now - old(entries)[key].timestamp <= TTL
              then && entries == old(entries)[key := old(entries)[key].(timestamp := now)] && steps == [Issue(key)]
                   && nextRevision == old(nextRevision) && generations == old(generations)
              else && entries[key] == Entry([], now, nextRevision, generations, true)
                   && nextRevision == old(nextRevision) + 1 && generations == old(generations) + 1
                   && RoomMade(old(entries) - {key}, entries - {key})
                   && steps == (if key in old(entries) then [Drop({key})] else []) +
                               [Drop((old(entries) - {key}).Keys - entries.Keys),
                                Put(key, [], true, nextRevision, generations), Issue(key)]
    {
      hide Inv, WithinCounters, After, Runs, WithoutOldest, RoomMade;
      if key !in entries {
        assert entries - {key} == entries;
        snapshot, steps := ReserveAbsent(key, now);
        return [], snapshot, false, steps;
      }
      if now - entries[key].timestamp > TTL {
        var drop := Forget(key);
        ghost var reserve;
        snapshot, reserve := ReserveAbsent(key, now);
        RunsCons(old(world), drop, reserve);
        return [], snapshot, false, [drop] + reserve;
      }
      CellsUpdated(entries, key, entries[key].(timestamp := now));
      entries := entries[key := entries[key].(timestamp := now)];
      assert Cells(entries) == Cells(old(entries));
      ghost var issue;
      snapshot, issue := TakeSnapshot(key);
      RunsOne(old(world), issue);
      return entries[key].items, snapshot, entries[key].items != [], [issue];
    }

    /** Removes an expired entry. */
    method Forget(key: Key) returns (ghost step: Step)
      requires Valid() && key in entries
      modifies this`entries, this`evictionEpoch, this`world
      ensures Valid() && entries == old(entries) - {key} && evictionEpoch == old(evictionEpoch) + 1
      ensures step == Drop({key}) && world == Apply(old(world), step)
    {
      hide Inv, WithinCounters, Cells;
      evictionEpoch := evictionEpoch + 1;
      entries := entries - {key};
      assert old(entries).Keys == entries.Keys + {key};
      assert old(entries).Keys - entries.Keys == {key};
      step := RecordDrop(old(entries));
    }

    /** ReplaceAntigravityReasoningReplayItemsIfUnchanged with a loaded snapshot; `valid` is false for
        items that normalisation refuses. */
    method Replace(key: Key, snapshot: LocalSnapshot, items: Chain, now: int)
      returns (valid: bool, ok: bool, ghost steps: seq<Step>)
      requires Valid() && Issued(snapshot)
      modifies this
      ensures Valid()
      ensures valid <==> Storable(items)
      ensures ok <==> valid && key in old(entries) && Accepts(CellOf(old(entries)[key]), ViewOf(snapshot), items)
      ensures !ok ==> entries == old(entries) && world == old(world) && nextRevision == old(nextRevision) && steps == []
      ensures Runs(old(world), steps) && world == After(old(world), steps)
      ensures ok ==> nextRevision == old(nextRevision) + 1 &&
                     |steps| == 2 && steps[1].Drop? && steps[0].Publish? && steps[0].key == key &&
                     steps[0].snapshot == ViewOf(snapshot) && steps[0].items == items &&
                     steps[0].version == nextRevision
      // the entry is stored, and the oldest batch leaves if that exceeds the capacity
      ensures ok ==> var written := old(entries)[key := Entry(items, now, nextRevision, steps[0].branch, false)];
                     if |written| > MAX_ENTRIES then WithoutOldest(written, EVICT_BATCH, entries)
                     else entries == written
    {
      hide Inv, WithinCounters, FreshVersion, FreshBranch, After, Runs, WithoutOldest, Storable;
      RunsNone(world);
      steps := [];
      if !Storable(items) { return false, false, []; }
      var found := key in entries;
      var matchesSnapshot := found == snapshot.found &&
                             ((found && entries[key].revision == snapshot.revision) ||
                               (!found && snapshot.evictionEpoch == evictionEpoch));
      var isDescendant := false;
      if found && !entries[key].deleted && snapshot.branch != NO_BRANCH && entries[key].branch == snapshot.branch {
        isDescendant := PrefixOf(entries[key].items, items);
      }
      if !matchesSnapshot && !isDescendant { return true, false, []; }
      var extendsSnapshot := PrefixOf(snapshot.items, items);
      NextIsFresh(world, nextRevision, generations);
      var branch := snapshot.branch;
      if branch == NO_BRANCH || (matchesSnapshot && !extendsSnapshot) { branch := NewGeneration(); }
      ghost var publish := Publish(key, ViewOf(snapshot), items, nextRevision + 1, branch);
      Store(key, items, now, branch, false, publish);
      hide Cells, Apply, Enabled;
      ghost var w1 := world;
      var drop := MakeRoom(MAX_ENTRIES + 1);
      RunsTwo(old(world), publish, w1, drop, world);
      return true, true, [publish, drop];
    }

    /** DeleteAntigravityReasoningReplayItemsIfUnchanged with a loaded snapshot. */
    method DeleteIfUnchanged(key: Key, snapshot: LocalSnapshot, now: int) returns (ok: bool, ghost steps: seq<Step>)
      requires Valid() && Issued(snapshot)
      modifies this
      ensures Valid()
      ensures ok <==> key in old(entries) && Matches(CellOf(old(entries)[key]), ViewOf(snapshot))
      ensures !ok ==> entries == old(entries) && world == old(world) && steps == []
      ensures Runs(old(world), steps) && world == After(old(world), steps)
      ensures ok ==> steps == [Retract(key, ViewOf(snapshot), nextRevision, generations)] &&
                     entries == old(entries)[key := Entry([], now, nextRevision, generations, true)]
    {
      steps := [];
      var found := key in entries;
      if found != snapshot.found || (found && entries[key].revision != snapshot.revision)
         || (!found && snapshot.evictionEpoch != evictionEpoch) { return false, []; }
      NextIsFresh(world, nextRevision, generations);
      var branch := NewGeneration();
      ghost var retract := Retract(key, ViewOf(snapshot), nextRevision + 1, branch);
      Store(key, [], now, branch, true, retract);
      RunsOne(old(world), retract);
      return true, [retract];
    }

    /** An unconditional write: a stored chain (CacheAntigravityReasoningReplayItemsBestEffort) or, with
        `deleted`, a tombstone (DeleteAntigravityReasoningReplayItemRequired). */
    method Overwrite(key: Key, items: Chain, now: int, deleted: bool) returns (ok: bool, ghost steps: seq<Step>)
      requires Valid() && (deleted ==> items == [])
      modifies this
      ensures Valid() && (ok <==> deleted || Storable(items))
      ensures !ok ==> entries == old(entries) && world == old(world) && steps == []
      ensures Runs(old(world), steps) && world == After(old(world), steps)
      ensures ok ==> |steps| == 2 && steps[0] == Put(key, items, deleted, nextRevision, generations) && steps[1].Drop?
      ensures ok ==> var written := old(entries)[key := Entry(items, now, nextRevision, generations, deleted)];
                     if |written| > MAX_ENTRIES then WithoutOldest(written, EVICT_BATCH, entries)
                     else entries == written
    {
      hide Inv, WithinCounters, After, Runs, WithoutOldest, Storable, Cells;
      RunsNone(world);
      steps := [];
      if !deleted && !Storable(items) { return false, []; }
      var put := StoreFresh(key, items, now, deleted);
      ghost var w1 := world;
      var drop := MakeRoom(MAX_ENTRIES + 1);
      RunsTwo(old(world), put, w1, drop, world);
      return true, [put, drop];
    }

    /** ClearAntigravityReasoningReplayCache: the revision counter survives. */
    method Clear() returns (ghost steps: seq<Step>)
      requires Valid()
      modifies this
      ensures Valid() && entries == map[] && nextRevision == old(nextRevision)
      ensures Runs(old(world), steps) && world == After(old(world), steps)
    {
      entries := map[];
      evictionEpoch := evictionEpoch + 1;
      ghost var drop := RecordDrop(old(entries));
      RunsOne(old(world), drop);
      return [drop];
    }

    /** purgeExpiredAntigravityReasoningReplayCache. */
    method PurgeExpired(now: int) returns (ghost steps: seq<Step>)
      requires Valid()
      modifies this
      ensures Valid() && nextRevision == old(nextRevision)
      ensures entries == map k | k in old(entries) && now - old(entries)[k].timestamp <= TTL :: old(entries)[k]
      ensures Runs(old(world), steps) && world == After(old(world), steps)
    {
      hide Inv, WithinCounters, Cells;
      var pending := entries.Keys;
      while pending != {}
        invariant world == old(world) && nextRevision == old(nextRevision) && generations == old(generations)
        invariant pending <= old(entries).Keys && entries.Keys <= old(entries).Keys && |entries| <= |old(entries)|
        invariant forall k :: k in entries ==> entries[k] == old(entries)[k]
        invariant forall k :: k in old(entries) ==>
                    (k in entries <==> k in pending || now - old(entries)[k].timestamp <= TTL)
        decreases |pending|
      {
        var key :| key in pending;
        pending := pending - {key};
        if now - entries[key].timestamp > TTL {
          evictionEpoch := evictionEpoch + 1;
          assert (entries - {key}).Keys == entries.Keys - {key};
          entries := entries - {key};
        }
      }
      ghost var drop := RecordDrop(old(entries));
      RunsOne(old(world), drop);
      return [drop];
    }
  }
}
