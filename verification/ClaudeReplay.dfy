// The in-process Claude thinking replay cache (internal/cache/claude_thinking_replay_cache.go, local
// mode): sessions of signed turns with a running byte total, each method atomic under the cache mutex.
module ClaudeReplay {
  import opened Bytes
  import Eviction

  const TTL: int := 3_600_000_000_000
  const MAX_ENTRIES: nat := 10240
  const EVICT_BATCH: nat := 128
  const MAX_SESSION_BYTES: nat := 0x80_0000
  const MAX_SESSION_TURNS: nat := 64
  const MAX_TOTAL_BYTES: nat := 0x1000_0000

  type Key = string
  type Contents = seq<Bytes>

  datatype Entry = Entry(contents: Contents, timestamp: int, generation: nat, deleted: bool)

  /** A loaded snapshot; the local getter only hands out ones that were found. */
  datatype Snapshot = Snapshot(generation: nat, found: bool)

  function Stamp(e: Entry): int {
    e.timestamp
  }

  // ----- one session

  function SizeOf(contents: Contents): nat {
    if contents == [] then 0 else |contents[0]| + SizeOf(contents[1..])
  }

  lemma {:induction false} SizeOfConcat(a: Contents, b: Contents)
    ensures SizeOf(a + b) == SizeOf(a) + SizeOf(b)
  {
    if a == [] {
      assert a + b == b;
    } else {
      assert (a + b)[1..] == a[1..] + b;
      SizeOfConcat(a[1..], b);
    }
  }

  predicate Fits(contents: Contents) {
    |contents| <= MAX_SESSION_TURNS && SizeOf(contents) <= MAX_SESSION_BYTES
  }

  /** Equality of the canonical JSON of two contents; a content without canonical form equals nothing. */
  predicate SameJson(canonical: Bytes -> Option<Bytes>, a: Bytes, b: Bytes) {
    canonical(a).Some? && canonical(a) == canonical(b)
  }

  predicate Present(canonical: Bytes -> Option<Bytes>, contents: Contents, content: Bytes) {
    exists i :: 0 <= i < |contents| && SameJson(canonical, contents[i], content)
  }

  /** The oldest turns leave until the rest fits. */
  function Trimmed(contents: Contents): Contents {
    if Fits(contents) then contents else Trimmed(contents[1..])
  }

  function Appended(canonical: Bytes -> Option<Bytes>, contents: Contents, content: Bytes): Contents {
    if Present(canonical, contents, content) then contents else Trimmed(contents + [content])
  }

  lemma {:induction false} TrimmedIsLongestSuffix(contents: Contents)
    ensures var n := |contents| - |Trimmed(contents)|;
            && 0 <= n && Trimmed(contents) == contents[n..] && Fits(Trimmed(contents))
            && forall m :: 0 <= m < n ==> !Fits(contents[m..])
  {
    hide SizeOf;
    if !Fits(contents) {
      NothingFits();
      TrimmedIsLongestSuffix(contents[1..]);
      forall m | 0 <= m < |contents| - |Trimmed(contents)| ensures !Fits(contents[m..]) {
        if m == 0 {
          assert contents[0..] == contents;
        } else {
          assert contents[1..][m - 1..] == contents[m..];
        }
      }
    } else {
      assert contents[0..] == contents;
    }
  }

  lemma NothingFits()
    ensures Fits([])
  {
  }

  lemma FitsAlone(content: Bytes)
    requires |content| <= MAX_SESSION_BYTES
    ensures Fits([content])
  {
    SizeOfOne(content);
  }

  lemma SizeOfOne(content: Bytes)
    ensures SizeOf([content]) == |content|
  {
    var one := [content];
    assert one[1..] == [];
  }

  /** A new turn is kept as the last one, and only the shortest sufficient prefix of the older ones leaves. */
  lemma NewTurnIsKeptLast(canonical: Bytes -> Option<Bytes>, contents: Contents, content: Bytes)
    requires |content| <= MAX_SESSION_BYTES && !Present(canonical, contents, content)
    ensures exists n :: 0 <= n <= |contents| && Appended(canonical, contents, content) == contents[n..] + [content]
                        && Fits(contents[n..] + [content]) && forall m :: 0 <= m < n ==>
                             !Fits(contents[m..] + [content])
  {
    hide SizeOf, Fits, Trimmed;
    var all := contents + [content];
    var n := |all| - |Trimmed(all)|;
    TrimmedIsLongestSuffix(all);
    FitsAlone(content);
    assert all[|contents|..] == [content];
    assert n <= |contents|;
    forall m | 0 <= m <= n ensures all[m..] == contents[m..] + [content] {
    }
  }

  /** An append, said from the contents alone: a turn whose canonical JSON some stored turn has is not added, and
      any other is the last one, behind as many of the latest turns as fit with it. */
  lemma TurnAppended(canonical: Bytes -> Option<Bytes>, contents: Contents, content: Bytes)
    requires |content| <= MAX_SESSION_BYTES
    ensures var r := Appended(canonical, contents, content);
            if exists i :: 0 <= i < |contents| && canonical(contents[i]).Some? &&
                           canonical(contents[i]) == canonical(content)
            then r == contents
            else exists n :: 0 <= n <= |contents| && r == contents[n..] + [content] && Fits(r)
                             && forall m :: 0 <= m < n ==> !Fits(contents[m..] + [content])
  {
    hide SizeOf, Fits, Trimmed;
    if i :| 0 <= i < |contents| && canonical(contents[i]).Some? && canonical(contents[i]) == canonical(content) {
      assert SameJson(canonical, contents[i], content);
    } else {
      assert !Present(canonical, contents, content);
      NewTurnIsKeptLast(canonical, contents, content);
    }
  }

  lemma AppendFits(canonical: Bytes -> Option<Bytes>, contents: Contents, content: Bytes)
    requires Fits(contents)
    ensures Fits(Appended(canonical, contents, content))
  {
    hide SizeOf, Trimmed;
    TrimmedIsLongestSuffix(contents + [content]);
  }

  /** Appending the same turn again changes nothing. */
  lemma AppendTwice(canonical: Bytes -> Option<Bytes>, contents: Contents, content: Bytes)
    requires |content| <= MAX_SESSION_BYTES && canonical(content).Some?
    ensures var once := Appended(canonical, contents, content); Appended(canonical, once, content) == once
  {
    hide SizeOf, Fits, Trimmed;
    if !Present(canonical, contents, content) {
      NewTurnIsKeptLast(canonical, contents, content);
      var once := Appended(canonical, contents, content);
      assert SameJson(canonical, once[|once| - 1], content);
    }
  }

  method EntryBytes(contents: Contents) returns (size: nat)
    ensures size == SizeOf(contents)
  {
    size := 0;
    for i := 0 to |contents|
      invariant size == SizeOf(contents[..i])
    {
      assert contents[..i + 1] == contents[..i] + [contents[i]];
      SizeOfConcat(contents[..i], [contents[i]]);
      SizeOfOne(contents[i]);
      size := size + |contents[i]|;
    }
    assert contents[..|contents|] == contents;
  }

  /** appendClaudeThinkingReplayContent. */
  method Append(canonical: Bytes -> Option<Bytes>, contents: Contents, content: Bytes) returns (cloned: Contents)
    ensures cloned == Appended(canonical, contents, content)
  {
    hide Fits, SizeOf;
    cloned := contents;
    for i := 0 to |cloned|
      invariant !Present(canonical, contents[..i], content)
    {
      if SameJson(canonical, cloned[i], content) { return cloned; }
      assert contents[..i + 1] == contents[..i] + [contents[i]];
    }
    assert contents[..|contents|] == contents;
    cloned := cloned + [content];
    var size := EntryBytes(cloned);
    // the loop of the source also stops on an empty list, which always fits
    while |cloned| > MAX_SESSION_TURNS || size > MAX_SESSION_BYTES
      invariant size == SizeOf(cloned) && Trimmed(cloned) == Trimmed(contents + [content])
      decreases |cloned|
    {
      OneLess(cloned);
      cloned := cloned[1..];
      size := EntryBytes(cloned);
    }
    AlreadyFits(cloned);
  }

  lemma OneLess(contents: Contents)
    requires |contents| > MAX_SESSION_TURNS || SizeOf(contents) > MAX_SESSION_BYTES
    ensures contents != [] && Trimmed(contents) == Trimmed(contents[1..])
  {
  }

  lemma AlreadyFits(contents: Contents)
    requires |contents| <= MAX_SESSION_TURNS && SizeOf(contents) <= MAX_SESSION_BYTES
    ensures Trimmed(contents) == contents
  {
  }

  // ----- the sum over all sessions

  ghost function Total(entries: map<Key, Entry>): nat
    decreases |entries|
  {
    if entries == map[] then 0
    else
      var k :| k in entries;
      assert (entries - {k}).Keys == entries.Keys - {k};
      SizeOf(entries[k].contents) + Total(entries - {k})
  }

  lemma {:induction false} TotalRemove(entries: map<Key, Entry>, k: Key)
    requires k in entries
    ensures Total(entries) == SizeOf(entries[k].contents) + Total(entries - {k})
    decreases |entries|
  {
    hide SizeOf;
    assert (entries - {k}).Keys == entries.Keys - {k};
    var j :| j in entries && Total(entries) == SizeOf(entries[j].contents) + Total(entries - {j});
    if j != k {
      assert (entries - {j}).Keys == entries.Keys - {j};
      assert entries - {j} - {k} == entries - {k} - {j};
      TotalRemove(entries - {j}, k);
      TotalRemove(entries - {k}, j);
    }
  }

  lemma TotalStore(entries: map<Key, Entry>, k: Key, e: Entry)
    ensures Total(entries[k := e]) == Total(entries - {k}) + SizeOf(e.contents)
  {
    hide SizeOf, Total;
    TotalRemove(entries[k := e], k);
    assert entries[k := e] - {k} == entries - {k};
  }

  lemma TotalAbsent(entries: map<Key, Entry>, k: Key)
    requires k !in entries
    ensures entries - {k} == entries
  {
  }

  lemma TotalPut(entries: map<Key, Entry>, k: Key, e: Entry)
    ensures Total(entries[k := e]) ==
              Total(entries) - (if k in entries then SizeOf(entries[k].contents) else 0) + SizeOf(e.contents)
  {
    hide Total, SizeOf;
    TotalStore(entries, k, e);
    if k in entries { TotalRemove(entries, k); } else { TotalAbsent(entries, k); }
  }

  lemma NoBytes(contents: Contents)
    ensures contents == [] ==> SizeOf(contents) == 0
  {
  }

  // ----- eviction

  predicate WithinLimits(entries: nat, total: int) {
    entries <= MAX_ENTRIES && total <= MAX_TOTAL_BYTES
  }

  ghost predicate WithoutBatches(before: map<Key, Entry>, batches: nat, after: map<Key, Entry>) {
    Eviction.WithoutOldest(Stamp, before, EVICT_BATCH * batches, after)
  }

  /** `after` is `before` without the smallest number of whole batches of its oldest entries that brings
      it within the limits. */
  ghost predicate Enforced(before: map<Key, Entry>, after: map<Key, Entry>) {
    exists batches: nat ::
      && WithoutBatches(before, batches, after) && WithinLimits(|after|, Total(after))
      && (batches > 0 ==>
            exists fewer :: WithoutBatches(before, batches - 1, fewer) && !WithinLimits(|fewer|, Total(fewer)))
  }

  lemma WithoutNone(before: map<Key, Entry>, after: map<Key, Entry>)
    ensures WithoutBatches(before, 0, after) <==> after == before
  {
    if WithoutBatches(before, 0, after) {
      Eviction.SameSize(before.Keys, after.Keys);
    }
  }

  /** Within the limits nothing leaves. */
  lemma {:induction false} EnforcedIdle(before: map<Key, Entry>, after: map<Key, Entry>)
    requires Enforced(before, after) && WithinLimits(|before|, Total(before))
    ensures after == before
  {
    hide Total, WithoutBatches;
    var batches: nat :| WithoutBatches(before, batches, after)
      && (batches > 0 ==>
            exists fewer :: WithoutBatches(before, batches - 1, fewer) && !WithinLimits(|fewer|, Total(fewer)));
    if batches > 1 {
      var fewer :| WithoutBatches(before, batches - 1, fewer) && !WithinLimits(|fewer|, Total(fewer));
      SubsetWithin(before, fewer, batches - 1);
    }
    if batches > 0 {
      var fewer :| WithoutBatches(before, batches - 1, fewer) && !WithinLimits(|fewer|, Total(fewer));
      SubsetWithin(before, fewer, batches - 1);
    }
    WithoutNone(before, after);
  }

  lemma SubsetWithin(before: map<Key, Entry>, after: map<Key, Entry>, batches: nat)
    requires WithoutBatches(before, batches, after) && WithinLimits(|before|, Total(before))
    ensures WithinLimits(|after|, Total(after))
  {
    hide Total;
    TotalMonotone(before, after);
  }

  lemma {:induction false} TotalMonotone(before: map<Key, Entry>, after: map<Key, Entry>)
    requires after.Keys <= before.Keys && forall k :: k in after ==> after[k] == before[k]
    ensures Total(after) <= Total(before)
    decreases |before|
  {
    hide Total, SizeOf;
    if before.Keys - after.Keys == {} {
      assert before.Keys == after.Keys;
      assert after == before;
    } else {
      var k :| k in before.Keys - after.Keys;
      TotalRemove(before, k);
      assert (before - {k}).Keys == before.Keys - {k};
      TotalMonotone(before - {k}, after);
    }
  }

  /** The tombstone was stored, and put back after the eviction that storing it caused. */
  ghost predicate Reserved(stored: map<Key, Entry>, key: Key, tombstone: Entry, after: map<Key, Entry>) {
    exists kept :: Enforced(stored, kept) && after == kept[key := tombstone]
  }

  class ClaudeCache {
    var entries: map<Key, Entry>
    var total: int
    var generations: nat
    const canonical: Bytes -> Option<Bytes>
    const acceptable: Bytes -> bool
    // what each generation stood for when it was stored
    ghost var written: map<nat, (Key, Contents)>

    ghost predicate Valid()
      reads this
    {
      Sound() && WithinLimits(|entries|, total)
    }

    /** The running total is the sum of the stored bytes, every session is within its own limits, and every
        generation names what was stored under it. */
    ghost predicate Sound()
      reads this
    {
      && total == Total(entries)
      && (forall k :: k in entries ==> SessionOk(k, entries[k]))
      && (forall g :: g in written ==> g <= generations)
    }

    ghost predicate SessionOk(k: Key, e: Entry)
      reads this`written
    {
      Fits(e.contents) && (e.deleted ==> e.contents == []) && e.generation in written &&
      written[e.generation] == (k, e.contents)
    }

    constructor (canonical: Bytes -> Option<Bytes>, acceptable: Bytes -> bool)
      ensures Valid() && entries == map[] && this.canonical == canonical && this.acceptable == acceptable
    {
      entries, total, generations := map[], 0, 0;
      this.canonical, this.acceptable := canonical, acceptable;
      written := map[];
    }

    /** validClaudeThinkingReplayContent. */
    predicate ValidContent(content: Bytes) {
      0 < |content| <= MAX_SESSION_BYTES && acceptable(content)
    }

    method NewGeneration(ghost key: Key, ghost contents: Contents) returns (g: nat)
      modifies this`generations, this`written
      ensures g == generations == old(generations) + 1 && written == old(written)[g := (key, contents)]
    {
      generations := generations + 1;
      g := generations;
      written := written[g := (key, contents)];
    }

    /** Removes an entry and its bytes. */
    method Remove(key: Key)
      requires key in entries
      modifies this`entries, this`total
      ensures entries == old(entries) - {key} && |entries| == |old(entries)| - 1 && total <= old(total)
      ensures total - Total(entries) == old(total) - Total(old(entries))
    {
      TotalRemove(entries, key);
      assert (entries - {key}).Keys == entries.Keys - {key};
      var size := EntryBytes(entries[key].contents);
      total := total - size;
      entries := entries - {key};
    }

    method EvictOldest(count: nat)
      modifies this`entries, this`total
      ensures Eviction.WithoutOldest(Stamp, old(entries), count, entries)
      ensures forall k, l :: k in old(entries) && k !in entries && l in entries ==>
                old(entries)[k].timestamp <= old(entries)[l].timestamp
      ensures total - Total(entries) == old(total) - Total(old(entries))
    {
      hide Total;
      var removed := 0;
      while removed < count && entries != map[]
        invariant removed <= count && removed <= |old(entries)|
        invariant Eviction.WithoutOldest(Stamp, old(entries), removed, entries)
        invariant total - Total(entries) == old(total) - Total(old(entries))
        decreases count - removed
      {
        Eviction.OldestExists(Stamp, entries, entries.Keys);
        var k :| Eviction.IsOldest(Stamp, entries, entries.Keys, k);
        Eviction.RemoveOldest(Stamp, old(entries), removed, entries, k);
        Remove(k);
        removed := removed + 1;
      }
    }

    /** enforceClaudeThinkingReplayLimitsLocked, for a total that may have drifted above the real sum: it
        terminates, and its zero-reset branch is taken exactly when the drift exceeds the whole budget. */
    method Enforce() returns (reset: bool)
      requires total >= Total(entries)
      modifies this`entries, this`total
      ensures WithinLimits(|entries|, total)
      ensures reset <==> old(total) - Total(old(entries)) > MAX_TOTAL_BYTES
      ensures if reset then entries == map[] && total == 0
              else total - Total(entries) == old(total) - Total(old(entries))
      ensures old(total) == Total(old(entries)) ==> Enforced(old(entries), entries)
    {
      hide Total, WithoutBatches;
      WithoutNone(entries, entries);
      ghost var batches := 0;
      while |entries| > MAX_ENTRIES || total > MAX_TOTAL_BYTES
        invariant total - Total(entries) == old(total) - Total(old(entries))
        invariant WithoutBatches(old(entries), batches, entries)
        invariant batches > 0 ==>
                    || old(total) - Total(old(entries)) > 0
                    || exists fewer ::
                      WithoutBatches(old(entries), batches - 1, fewer) && !WithinLimits(|fewer|, Total(fewer))
        decreases |entries|
      {
        if |entries| == 0 {
          EmptyTotal(entries);
          total := 0;
          return true;
        }
        ghost var before := entries;
        EvictOldest(EVICT_BATCH);
        OneMoreBatch(old(entries), batches, before, entries);
        assert total - Total(entries) > 0 || !WithinLimits(|before|, Total(before));
        batches := batches + 1;
      }
      return false;
    }

    /** Stores an entry in the place of what the key held, and its bytes. */
    method Put(key: Key, contents: Contents, now: int, deleted: bool)
      requires Valid() && Fits(contents) && (deleted ==> contents == [])
      modifies this
      ensures written == old(written)[generations := (key, contents)] && generations == old(generations) + 1
      ensures entries == old(entries)[key := Entry(contents, now, generations, deleted)]
      ensures Sound() && (contents == [] ==> total <= old(total))
    {
      hide Total, Fits, SizeOf;
      TotalPut(entries, key, Entry(contents, now, generations + 1, deleted));
      var g := NewGeneration(key, contents);
      if key in entries {
        var size := EntryBytes(entries[key].contents);
        total := total - size;
      }
      var size := EntryBytes(contents);
      total := total + size;
      entries := entries[key := Entry(contents, now, g, deleted)];
      assert contents == [] ==> size == 0 by { NoBytes(contents); }
    }

    /** Stores an entry and evicts what exceeds the limits. */
    method Store(key: Key, contents: Contents, now: int, deleted: bool)
      requires Valid() && Fits(contents) && (deleted ==> contents == [])
      modifies this
      ensures Valid() && written == old(written)[generations := (key, contents)] && generations == old(generations) + 1
      ensures Enforced(old(entries)[key := Entry(contents, now, generations, deleted)], entries)
      ensures |old(entries)[key := Entry(contents, now, generations, deleted)]| <= MAX_ENTRIES + 1
    {
      hide Total, Fits, Enforced, WithoutBatches;
      Eviction.UpdatedSize(entries, key, Entry(contents, now, generations + 1, deleted));
      Put(key, contents, now, deleted);
      ghost var stored := entries;
      var reset := Enforce();
      assert !reset;
      EnforcedKeeps(stored, entries);
    }

    /** Fences a miss with a tombstone, which stays even when the eviction it causes takes it. */
    method ReserveAbsent(key: Key, now: int) returns (entry: Entry)
      requires Valid() && key !in entries
      modifies this
      ensures Valid() && generations == old(generations) + 1 && written == old(written)[generations := (key, [])]
      ensures generations !in old(written)
      ensures entry == Entry([], now, generations, true) && key in entries && entries[key] == entry
      ensures Reserved(old(entries)[key := entry], key, entry, entries)
    {
      hide Total, Fits, Enforced, WithoutBatches;
      NothingFits();
      Store(key, [], now, true);
      entry := Entry([], now, generations, true);
      EnforcedKeeps(old(entries)[key := entry], entries);
      Restored(entries, key, entry);
      ghost var kept := entries;
      entries := entries[key := entry];
    }

    method Touch(key: Key, now: int) returns (entry: Entry)
      requires Valid() && key in entries
      modifies this`entries
      ensures Valid() && key in entries && entry == entries[key] &&
              entries == old(entries)[key := old(entries)[key].(timestamp := now)]
      ensures entry.generation in written && written[entry.generation] == (key, entry.contents)
    {
      hide Total, Fits;
      entry := entries[key].(timestamp := now);
      Refreshed(entries, key, now);
      entries := entries[key := entry];
    }

    /** GetClaudeThinkingReplayWithSnapshotRequired. */
    method Get(key: Key, now: int) returns (contents: Contents, snapshot: Snapshot, found: bool)
      requires Valid()
      modifies this
      ensures Valid() && History(old(written), written)
      ensures snapshot.found && snapshot.generation in written && written[snapshot.generation] == (key, contents)
      ensures key in entries && entries[key].generation == snapshot.generation && entries[key].timestamp == now
      ensures found <==> contents != []
      // a live hit reads the entry and refreshes it; anything else leaves a tombstone of a new generation
      ensures if key in old(entries) && now - old(entries)[key].timestamp <= TTL
              then contents == old(entries)[key].contents &&
                   entries == old(entries)[key := old(entries)[key].(timestamp := now)]
              else snapshot.generation !in old(written) && contents == [] &&
                   var tombstone := Entry([], now, snapshot.generation, true);
                   Reserved((old(entries) - {key})[key := tombstone], key, tombstone, entries)
    {
      hide Valid, Total, Fits, Reserved, WithoutBatches;
      if key !in entries || now - entries[key].timestamp > TTL {
        Delete(key);
        var entry := ReserveAbsent(key, now);
        return [], Snapshot(entry.generation, true), false;
      }
      var entry := Touch(key, now);
      return entry.contents, Snapshot(entry.generation, true), |entry.contents| > 0;
    }

    /** ReplaceClaudeThinkingReplayIfUnchanged with a loaded snapshot. */
    method Replace(key: Key, snapshot: Snapshot, content: Bytes, now: int) returns (swapped: bool)
      requires Valid()
      modifies this
      ensures Valid() && History(old(written), written)
      ensures swapped <==> ValidContent(content) && (key in old(entries)) == snapshot.found &&
                           (snapshot.found ==> old(entries)[key].generation == snapshot.generation)
      ensures !swapped ==> entries == old(entries)
      // the turn is appended to exactly what the snapshot read
      ensures swapped && snapshot.found ==>
                snapshot.generation in old(written) &&
                old(written)[snapshot.generation] == (key, old(entries)[key].contents)
      ensures swapped ==>
                var before := if snapshot.found then old(written)[snapshot.generation].1 else [];
                Enforced(old(entries)[key := Entry(Appended(canonical, before, content), now, generations, false)],
                  entries)
    {
      hide Total, Fits, Enforced, WithoutBatches;
      if !ValidContent(content) { return false; }
      var found := key in entries;
      if found != snapshot.found || (found && entries[key].generation != snapshot.generation) { return false; }
      var before := if found then entries[key].contents else [];
      NothingFits();
      AppendFits(canonical, before, content);
      var contents := Append(canonical, before, content);
      Store(key, contents, now, false);
      return true;
    }

    /** DeleteClaudeThinkingReplayIfUnchanged with a loaded snapshot. It does not evict: the limits survive
        unless a snapshot that was not found, which the getter never hands out, adds to a full cache. */
    method DeleteIfUnchanged(key: Key, snapshot: Snapshot, now: int) returns (deleted: bool)
      requires Valid()
      modifies this
      ensures Sound() && History(old(written), written)
      ensures Valid() <==> snapshot.found || key in old(entries) || |old(entries)| < MAX_ENTRIES
      ensures deleted <==>
                (key in old(entries)) == snapshot.found &&
                (snapshot.found ==> old(entries)[key].generation == snapshot.generation)
      ensures entries == if deleted then old(entries)[key := Entry([], now, generations, true)] else old(entries)
    {
      hide Total, Fits;
      var found := key in entries;
      if found != snapshot.found || (found && entries[key].generation != snapshot.generation) { return false; }
      NothingFits();
      Eviction.UpdatedSize(entries, key, Entry([], now, generations + 1, true));
      Put(key, [], now, true);
      return true;
    }

    /** CacheClaudeThinkingReplayBestEffort. */
    method Overwrite(key: Key, content: Bytes, now: int) returns (stored: bool)
      requires Valid()
      modifies this
      ensures Valid() && History(old(written), written)
      ensures stored <==> ValidContent(content)
      ensures if stored then Enforced(old(entries)[key := Entry([content], now, generations, false)], entries)
              else entries == old(entries)
    {
      hide Total, Fits, Enforced, WithoutBatches;
      if !ValidContent(content) { return false; }
      FitsAlone(content);
      Store(key, [content], now, false);
      return true;
    }

    /** DeleteClaudeThinkingReplayRequired. */
    method Delete(key: Key)
      requires Valid()
      modifies this`entries, this`total
      ensures Valid() && entries == old(entries) - {key}
    {
      hide Total, Fits;
      if key in entries { Remove(key); } else { TotalAbsent(entries, key); }
    }

    method Clear()
      requires Valid()
      modifies this`entries, this`total
      ensures Valid() && entries == map[]
    {
      entries, total := map[], 0;
    }

    /** purgeExpiredClaudeThinkingReplayCache. */
    method PurgeExpired(now: int)
      requires Valid()
      modifies this`entries, this`total
      ensures Valid()
      ensures entries == map k | k in old(entries) && now - old(entries)[k].timestamp <= TTL :: old(entries)[k]
    {
      hide Total, Fits;
      var pending := entries.Keys;
      while pending != {}
        invariant Valid() && pending <= entries.Keys <= old(entries).Keys
        invariant forall k :: k in entries ==> entries[k] == old(entries)[k]
        invariant forall k :: k in old(entries) ==>
                    (k in entries <==> k in pending || now - old(entries)[k].timestamp <= TTL)
        decreases |pending|
      {
        var key :| key in pending;
        pending := pending - {key};
        if now - entries[key].timestamp > TTL { Remove(key); }
      }
    }
  }

  /** Generations keep their meaning. */
  ghost predicate History(before: map<nat, (Key, Contents)>, after: map<nat, (Key, Contents)>) {
    forall g :: g in before ==> g in after && after[g] == before[g]
  }

  lemma EmptyTotal(entries: map<Key, Entry>)
    requires |entries| == 0
    ensures entries == map[] && Total(entries) == 0
  {
  }

  lemma OneMoreBatch(before: map<Key, Entry>, batches: nat, middle: map<Key, Entry>, after: map<Key, Entry>)
    requires WithoutBatches(before, batches, middle) && Eviction.WithoutOldest(Stamp, middle, EVICT_BATCH, after)
    requires middle != map[]
    ensures WithoutBatches(before, batches + 1, after) && |after| < |middle|
  {
    Eviction.Compose(Stamp, before, EVICT_BATCH * batches, middle, EVICT_BATCH, after);
    assert middle.Keys != {};
  }

  lemma EnforcedKeeps(before: map<Key, Entry>, after: map<Key, Entry>)
    requires Enforced(before, after)
    ensures after.Keys <= before.Keys && (forall k :: k in after ==> after[k] == before[k])
    ensures WithinLimits(|after|, Total(after))
    ensures after == before || |after| == 0 || |after| + EVICT_BATCH <= |before|
  {
    hide Total;
    if after.Keys == before.Keys { assert after == before; }
    else { Eviction.SmallerSet(before.Keys, after.Keys); }
  }

  /** Putting a reserved tombstone back keeps the limits, even when the eviction took it. */
  lemma Restored(kept: map<Key, Entry>, key: Key, tombstone: Entry)
    requires WithinLimits(|kept|, Total(kept)) && tombstone.contents == []
    requires key in kept ==> kept[key] == tombstone
    requires key !in kept ==> |kept| < MAX_ENTRIES
    ensures WithinLimits(|kept[key := tombstone]|, Total(kept[key := tombstone])) &&
            Total(kept[key := tombstone]) == Total(kept)
  {
    hide Total;
    Eviction.UpdatedSize(kept, key, tombstone);
    if key in kept {
      assert kept[key := tombstone] == kept;
    } else {
      assert SizeOf(tombstone.contents) == 0;
      TotalStore(kept, key, tombstone);
      TotalAbsent(kept, key);
    }
  }

  lemma Refreshed(entries: map<Key, Entry>, key: Key, now: int)
    requires key in entries
    ensures var after := entries[key := entries[key].(timestamp := now)];
            Total(after) == Total(entries) && |after| == |entries|
  {
    hide Total;
    Eviction.UpdatedSize(entries, key, entries[key].(timestamp := now));
    TotalStore(entries, key, entries[key].(timestamp := now));
    TotalRemove(entries, key);
  }
}
