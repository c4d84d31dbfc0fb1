// Eviction of the oldest entries of a cache: the entries sorted by timestamp lose their first `count`.
// Entries of equal age leave in any order.
module Eviction {
  /** `after` is `before` without its `count` oldest entries (all of them when there are fewer). */
  ghost predicate WithoutOldest<K, E>(stamp: E -> int, before: map<K, E>, count: nat, after: map<K, E>) {
    && after.Keys <= before.Keys
    && (forall k :: k in after ==> after[k] == before[k])
    && |after| == (if |before| < count then 0 else |before| - count)
    && (forall k, l :: k in before && k !in after && l in after ==> stamp(before[k]) <= stamp(before[l]))
  }

  predicate IsOldest<K, E>(stamp: E -> int, entries: map<K, E>, keys: set<K>, k: K)
    requires keys <= entries.Keys
  {
    k in keys && forall l :: l in keys ==> stamp(entries[k]) <= stamp(entries[l])
  }

  lemma OldestExists<K, E>(stamp: E -> int, entries: map<K, E>, keys: set<K>)
    requires keys <= entries.Keys && keys != {}
    ensures exists k :: IsOldest(stamp, entries, keys, k)
    decreases |keys|
  {
    var k :| k in keys;
    var rest := keys - {k};
    if rest == {} {
      assert keys == {k};
      assert IsOldest(stamp, entries, keys, k);
    } else {
      OldestExists(stamp, entries, rest);
      var m :| IsOldest(stamp, entries, rest, m);
      assert forall l :: l in keys ==> l == k || l in rest;
      assert IsOldest(stamp, entries, keys, if stamp(entries[k]) <= stamp(entries[m]) then k else m);
    }
  }

  /** One more of the oldest entries goes. */
  lemma RemoveOldest<K, E>(stamp: E -> int, before: map<K, E>, count: nat, now: map<K, E>, k: K)
    requires WithoutOldest(stamp, before, count, now) && count < |before| && IsOldest(stamp, now, now.Keys, k)
    ensures WithoutOldest(stamp, before, count + 1, now - {k})
    ensures |now - {k}| == |now| - 1
  {
    assert (now - {k}).Keys == now.Keys - {k};
  }

  lemma UpdatedSize<K, E>(entries: map<K, E>, key: K, e: E)
    ensures |entries[key := e]| == |entries| + if key in entries then 0 else 1
  {
    assert entries[key := e].Keys == entries.Keys + {key};
  }

  /** Evicting in two rounds is evicting once. */
  lemma Compose<K, E>(stamp: E -> int, before: map<K, E>, count: nat, middle: map<K, E>, more: nat, after: map<K, E>)
    requires WithoutOldest(stamp, before, count, middle) && WithoutOldest(stamp, middle, more, after)
    ensures WithoutOldest(stamp, before, count + more, after)
  {
    forall k, l | k in before && k !in after && l in after ensures stamp(before[k]) <= stamp(before[l]) {
      if k in middle { assert stamp(middle[k]) <= stamp(middle[l]); }
    }
  }

  lemma SameSize<K>(whole: set<K>, part: set<K>)
    requires part <= whole && |part| == |whole|
    ensures part == whole
  {
    assert |whole - part| == 0;
  }

  lemma SmallerSet<K>(whole: set<K>, part: set<K>)
    requires part < whole
    ensures |part| < |whole|
  {
    assert |whole - part| > 0 && |whole| == |part| + |whole - part|;
  }
}
