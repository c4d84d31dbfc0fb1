// The bounded least-recently-used cache (internal/cache/bounded_lru.go): a map into a list in recency order.
module BoundedLru {
  import opened Bytes

  // ----- the keys in recency order

  function Without<K(==)>(keys: seq<K>, k: K): seq<K> {
    if keys == [] then [] else if keys[0] == k then Without(keys[1..], k) else [keys[0]] + Without(keys[1..], k)
  }

  predicate Distinct<K(==)>(keys: seq<K>) {
    forall i, j :: 0 <= i < j < |keys| ==> keys[i] != keys[j]
  }

  function First<K>(keys: seq<K>, n: nat): seq<K> {
    if |keys| <= n then keys else keys[..n]
  }

  /** What GetOrAdd does to the keys. */
  function Added<K(==)>(keys: seq<K>, capacity: nat, k: K): seq<K> {
    if k in keys then [k] + Without(keys, k) else First([k] + keys, capacity)
  }

  /** What Get does to the keys. */
  function Looked<K(==)>(keys: seq<K>, k: K): seq<K> {
    if k in keys then [k] + Without(keys, k) else keys
  }

  lemma {:induction false} WithoutMembers<K>(keys: seq<K>, k: K)
    ensures k !in Without(keys, k) && forall x :: x != k ==> (x in Without(keys, k) <==> x in keys)
    ensures Distinct(keys) ==> Distinct(Without(keys, k))
    ensures k !in keys ==> Without(keys, k) == keys
  {
    if keys != [] {
      WithoutMembers(keys[1..], k);
      assert keys == [keys[0]] + keys[1..];
      var rest := Without(keys[1..], k);
      if keys[0] != k && Distinct(keys) {
        assert keys[0] !in keys[1..];
        assert Distinct([keys[0]] + rest);
      }
    }
  }

  lemma {:induction false} WithoutAt<K>(keys: seq<K>, i: nat)
    requires i < |keys| && Distinct(keys)
    ensures Without(keys, keys[i]) == keys[..i] + keys[i + 1..]
  {
    var k := keys[i];
    if i == 0 {
      assert k !in keys[1..];
      WithoutMembers(keys[1..], k);
    } else {
      WithoutAt(keys[1..], i - 1);
      assert keys[1..][..i - 1] == keys[1..i] && keys[1..][i..] == keys[i + 1..];
      assert keys[..i] == [keys[0]] + keys[1..i];
    }
  }

  // ----- reference: the keys by last use

  /** The distinct keys of a trace, the most recently used first. */
  function Recent<K(==)>(trace: seq<K>): seq<K> {
    if trace == [] then []
    else
      var last := |trace| - 1;
      [trace[last]] + Without(Recent(trace[..last]), trace[last])
  }

  ghost predicate UsedAt<K>(trace: seq<K>, k: K, i: nat) {
    i < |trace| && trace[i] == k && forall j :: i < j < |trace| ==> trace[j] != k
  }

  lemma {:induction false} RecentDistinct<K>(trace: seq<K>)
    ensures Distinct(Recent(trace)) && forall x :: x in Recent(trace) <==> x in trace
  {
    if trace != [] {
      var last := |trace| - 1;
      RecentDistinct(trace[..last]);
      WithoutMembers(Recent(trace[..last]), trace[last]);
      assert trace == trace[..last] + [trace[last]];
    }
  }

  /** Recent lists exactly the keys of the trace, once each, by the position of their last use. */
  lemma {:induction false} RecentByLastUse<K>(trace: seq<K>, i: nat, j: nat, a: nat, b: nat)
    requires i < j < |Recent(trace)| && UsedAt(trace, Recent(trace)[i], a) && UsedAt(trace, Recent(trace)[j], b)
    ensures a > b
    decreases |trace|
  {
    hide Without, Distinct;
    var last := |trace| - 1;
    var k := trace[last];
    if i == 0 {
      assert a == last;
      LaterThanFirst(trace, j);
    } else {
      var x, y := Recent(trace)[i], Recent(trace)[j];
      LaterThanFirst(trace, i);
      LaterThanFirst(trace, j);
      var p, q := WithoutKeepsOrder(Recent(trace[..last]), k, i - 1, j - 1);
      assert UsedAt(trace[..last], x, a) && UsedAt(trace[..last], y, b);
      RecentByLastUse(trace[..last], p, q, a, b);
    }
  }

  lemma LaterThanFirst<K>(trace: seq<K>, i: nat)
    requires 0 < i < |Recent(trace)|
    ensures Recent(trace)[i] != trace[|trace| - 1]
  {
    RecentDistinct(trace);
    assert Recent(trace)[0] == trace[|trace| - 1];
  }

  lemma {:induction false} WithoutKeepsOrder<K>(keys: seq<K>, k: K, i: nat, j: nat) returns (p: nat, q: nat)
    requires i < j < |Without(keys, k)|
    ensures p < q < |keys| && keys[p] == Without(keys, k)[i] && keys[q] == Without(keys, k)[j]
  {
    if keys[0] == k {
      p, q := WithoutKeepsOrder(keys[1..], k, i, j);
      p, q := p + 1, q + 1;
    } else if i == 0 {
      var rest := Without(keys[1..], k);
      assert rest[j - 1] in rest;
      WithoutMembers(keys[1..], k);
      WithoutSome(keys[1..], k, rest[j - 1]);
      var m :| 0 <= m < |keys[1..]| && keys[1..][m] == rest[j - 1];
      p, q := 0, m + 1;
    } else {
      p, q := WithoutKeepsOrder(keys[1..], k, i - 1, j - 1);
      p, q := p + 1, q + 1;
    }
  }

  lemma WithoutSome<K>(keys: seq<K>, k: K, x: K)
    requires x in Without(keys, k)
    ensures x in keys
  {
    WithoutMembers(keys, k);
  }

  /** A bounded recency list is the beginning of the unbounded one, one access at a time. */
  lemma BoundedStep<K>(trace: seq<K>, capacity: nat, k: K)
    requires capacity >= 1
    ensures Added(First(Recent(trace), capacity), capacity, k) == First(Recent(trace + [k]), capacity)
  {
    hide Recent;
    var all := Recent(trace);
    RecentSnoc(trace, k);
    RecentDistinct(trace);
    hide First, Without, Distinct;
    if k in First(all, capacity) {
      FirstMoved(all, k, capacity);
    } else {
      FirstWithout(all, k, capacity - 1);
    }
  }

  lemma FirstMoved<K>(keys: seq<K>, k: K, n: nat)
    requires Distinct(keys) && k in First(keys, n)
    ensures [k] + Without(First(keys, n), k) == First([k] + Without(keys, k), n)
  {
    hide Without, Distinct;
    var i :| 0 <= i < |First(keys, n)| && First(keys, n)[i] == k;
    assert keys[i] == k;
    WithoutAt(keys, i);
    if |keys| > n {
      assert Distinct(keys[..n]) by { FirstDistinct(keys, n); }
      WithoutAt(keys[..n], i);
      TakeAround(keys, i, n);
    }
  }

  lemma FirstDistinct<K>(keys: seq<K>, n: nat)
    requires Distinct(keys) && n <= |keys|
    ensures Distinct(keys[..n])
  {
  }

  lemma TakeAround<K>(keys: seq<K>, i: nat, n: nat)
    requires i < n < |keys|
    ensures [keys[i]] + (keys[..n][..i] + keys[..n][i + 1..]) == ([keys[i]] + (keys[..i] + keys[i + 1..]))[..n]
  {
  }

  lemma RecentSnoc<K>(trace: seq<K>, k: K)
    ensures Recent(trace + [k]) == [k] + Without(Recent(trace), k)
  {
    assert (trace + [k])[..|trace|] == trace;
  }

  lemma FirstWithout<K>(keys: seq<K>, k: K, n: nat)
    requires Distinct(keys) && k !in First(keys, n + 1)
    ensures First([k] + First(keys, n + 1), n + 1) == First([k] + Without(keys, k), n + 1)
  {
    if k in keys {
      var i :| 0 <= i < |keys| && keys[i] == k;
      WithoutAt(keys, i);
      assert forall j :: 0 <= j < |First(keys, n + 1)| ==> First(keys, n + 1)[j] == keys[j];
      assert i > n;
    } else {
      WithoutMembers(keys, k);
    }
  }

  // ----- inclusion: a smaller cache is contained in a larger one, whatever the calls

  datatype Access<K> = Add(key: K) | Look(key: K)

  function KeysAfter<K(==)>(capacity: nat, calls: seq<Access<K>>): seq<K> {
    if calls == [] then []
    else
      var last := |calls| - 1;
      var keys := KeysAfter(capacity, calls[..last]);
      match calls[last]
      case Add(k) => Added(keys, capacity, k)
      case Look(k) => Looked(keys, k)
  }

  /** `a` is `b` with some elements left out. */
  predicate Sublist<K(==)>(a: seq<K>, b: seq<K>) {
    a == [] || (b != [] && if a[0] == b[0] then Sublist(a[1..], b[1..]) else Sublist(a, b[1..]))
  }

  lemma {:induction false} SublistMembers<K>(a: seq<K>, b: seq<K>)
    requires Sublist(a, b)
    ensures forall x :: x in a ==> x in b
    ensures |a| <= |b| && (|a| == |b| ==> a == b)
  {
    if a != [] {
      if a[0] == b[0] { SublistMembers(a[1..], b[1..]); } else { SublistMembers(a, b[1..]); }
      forall x | x in a ensures x in b {
        assert x == a[0] || x in a[1..];
        assert b == [b[0]] + b[1..];
      }
    }
  }

  lemma {:induction false} SublistSelf<K>(a: seq<K>)
    ensures Sublist(a, a)
  {
    if a != [] { SublistSelf(a[1..]); }
  }

  lemma {:induction false} SublistSkip<K>(a: seq<K>, b: seq<K>)
    requires b != [] && Sublist(a, b[1..])
    ensures Sublist(a, b)
  {
    if a != [] && a[0] == b[0] { SublistTail(a, b[1..]); }
  }

  lemma {:induction false} SublistTail<K>(a: seq<K>, b: seq<K>)
    requires a != [] && Sublist(a, b)
    ensures Sublist(a[1..], b)
  {
    if a[0] == b[0] {
      SublistSkip(a[1..], b);
    } else {
      SublistTail(a, b[1..]);
      SublistSkip(a[1..], b);
    }
  }

  lemma {:induction false} SublistWithout<K>(a: seq<K>, b: seq<K>, k: K)
    requires Sublist(a, b)
    ensures Sublist(Without(a, k), Without(b, k))
  {
    if a != [] {
      if a[0] == b[0] {
        SublistWithout(a[1..], b[1..], k);
        assert a[0] != k ==> Sublist([a[0]] + Without(a[1..], k), [b[0]] + Without(b[1..], k)) by {
          SublistCons(a[0], Without(a[1..], k), Without(b[1..], k));
        }
      } else {
        SublistWithout(a, b[1..], k);
        if b[0] != k {
          assert Without(b, k)[1..] == Without(b[1..], k);
          SublistSkip(Without(a, k), Without(b, k));
        }
      }
    }
  }

  lemma SublistCons<K>(k: K, a: seq<K>, b: seq<K>)
    requires Sublist(a, b)
    ensures Sublist([k] + a, [k] + b)
  {
    assert ([k] + a)[1..] == a && ([k] + b)[1..] == b;
  }

  lemma {:induction false} SublistButLast<K>(a: seq<K>, b: seq<K>)
    requires a != [] && Sublist(a, b)
    ensures Sublist(a[..|a| - 1], b[..|b| - 1]) && Sublist(a[..|a| - 1], b)
  {
    var a', b' := a[..|a| - 1], b[..|b| - 1];
    if |a| == 1 {
    } else if a[0] == b[0] {
      SublistButLast(a[1..], b[1..]);
      SublistMembers(a[1..], b[1..]);
      assert a'[1..] == a[1..][..|a[1..]| - 1] && b'[1..] == b[1..][..|b[1..]| - 1];
    } else {
      SublistButLast(a, b[1..]);
      SublistMembers(a, b[1..]);
      assert b'[1..] == b[1..][..|b[1..]| - 1];
    }
  }

  /** One cache contains another: the smaller lists a part of the larger, and the whole unless it is full. */
  predicate Contained<K(==)>(small: seq<K>, capacity: nat, large: seq<K>) {
    Sublist(small, large) && Distinct(small) && Distinct(large) && (|small| >= capacity || small == large)
  }

  lemma MovedContained<K>(small: seq<K>, capacity: nat, large: seq<K>, k: K)
    requires Contained(small, capacity, large) && k in small
    ensures Contained([k] + Without(small, k), capacity, [k] + Without(large, k))
  {
    hide Sublist;
    SublistMembers(small, large);
    SublistWithout(small, large, k);
    SublistCons(k, Without(small, k), Without(large, k));
    WithoutMembers(small, k);
    WithoutMembers(large, k);
    var i :| 0 <= i < |small| && small[i] == k;
    WithoutAt(small, i);
  }

  lemma LookContained<K>(small: seq<K>, capacity: nat, large: seq<K>, k: K)
    requires Contained(small, capacity, large)
    ensures Contained(Looked(small, k), capacity, Looked(large, k))
  {
    hide Sublist;
    SublistMembers(small, large);
    if k in small {
      MovedContained(small, capacity, large, k);
    } else if k in large {
      SublistWithout(small, large, k);
      WithoutMembers(small, k);
      WithoutMembers(large, k);
      assert ([k] + Without(large, k))[1..] == Without(large, k);
      SublistSkip(small, [k] + Without(large, k));
    }
  }

  lemma AddContained<K>(small: seq<K>, capacity: nat, large: seq<K>, larger: nat, k: K)
    requires Contained(small, capacity, large) && 1 <= capacity <= larger && |small| <= capacity && |large| <= larger
    ensures Contained(Added(small, capacity, k), capacity, Added(large, larger, k))
  {
    hide Sublist;
    SublistMembers(small, large);
    if k in small {
      MovedContained(small, capacity, large, k);
    } else if k in large {
      SublistWithout(small, large, k);
      WithoutMembers(small, k);
      WithoutMembers(large, k);
      SublistCons(k, small, Without(large, k));
      SublistButLast([k] + small, [k] + Without(large, k));
    } else if |small| == capacity {
      SublistCons(k, small, large);
      SublistButLast([k] + small, [k] + large);
    } else {
      SublistSelf([k] + small);
    }
  }

  lemma KeysBounded<K>(capacity: nat, calls: seq<Access<K>>)
    requires capacity >= 1
    ensures |KeysAfter(capacity, calls)| <= capacity && Distinct(KeysAfter(capacity, calls))
    decreases |calls|
  {
    if calls != [] {
      var last := |calls| - 1;
      KeysBounded(capacity, calls[..last]);
      var keys, k := KeysAfter(capacity, calls[..last]), calls[last].key;
      WithoutMembers(keys, k);
      if k in keys {
        var i :| 0 <= i < |keys| && keys[i] == k;
        WithoutAt(keys, i);
      }
    }
  }

  /** After the same calls, a cache contains every smaller one, and lists their common keys in the same order. */
  lemma {:induction false} SmallerCacheContained<K>(capacity: nat, larger: nat, calls: seq<Access<K>>)
    requires 1 <= capacity <= larger
    ensures Contained(KeysAfter(capacity, calls), capacity, KeysAfter(larger, calls))
    ensures forall k :: k in KeysAfter(capacity, calls) ==> k in KeysAfter(larger, calls)
    decreases |calls|
  {
    if calls != [] {
      var last := |calls| - 1;
      SmallerCacheContained(capacity, larger, calls[..last]);
      KeysBounded(capacity, calls[..last]);
      KeysBounded(larger, calls[..last]);
      hide Sublist, Added, Looked, Contained;
      var small, large := KeysAfter(capacity, calls[..last]), KeysAfter(larger, calls[..last]);
      match calls[last] {
        case Add(k) => AddContained(small, capacity, large, larger, k);
        case Look(k) => LookContained(small, capacity, large, k);
      }
    }
    ContainedMembers(KeysAfter(capacity, calls), capacity, KeysAfter(larger, calls));
  }

  lemma ContainedMembers<K>(small: seq<K>, capacity: nat, large: seq<K>)
    requires Contained(small, capacity, large)
    ensures forall k :: k in small ==> k in large
  {
    SublistMembers(small, large);
  }

  lemma OneMoreCall<K>(capacity: nat, calls: seq<Access<K>>, call: Access<K>)
    ensures var keys := KeysAfter(capacity, calls);
            KeysAfter(capacity, calls + [call]) == if call.Add? then Added(keys, capacity, call.key)
            else Looked(keys, call.key)
  {
    assert (calls + [call])[..|calls|] == calls;
  }

  // ----- the cache

  class Element<K(==), V> {
    const key: K
    const value: V

    constructor (key: K, value: V)
      ensures this.key == key && this.value == value
    {
      this.key, this.value := key, value;
    }
  }

  function KeysOf<K(==), V>(order: seq<Element<K, V>>): seq<K> {
    seq(|order|, i requires 0 <= i < |order| => order[i].key)
  }

  function PairsOf<K(==), V>(order: seq<Element<K, V>>): seq<(K, V)> {
    seq(|order|, i requires 0 <= i < |order| => (order[i].key, order[i].value))
  }

  class Lru<K(==), V(==)> {
    const capacity: nat
    const hasCallback: bool
    var entries: map<K, Element<K, V>>
    var order: seq<Element<K, V>>
    // the calls of the eviction callback
    var notified: seq<(K, V)>
    ghost var created: multiset<(K, V)>
    ghost var evicted: seq<(K, V)>
    // the keys used, and all calls
    ghost var accesses: seq<K>
    ghost var calls: seq<Access<K>>

    /** Map and list agree, the list holds the most recently used keys in order, which are those left by the
        calls so far, and every pair ever created is stored or was evicted. */
    ghost predicate Valid()
      reads this
    {
      && capacity >= 1
      && Indexed()
      && KeysOf(order) == First(Recent(accesses), capacity)
      && KeysOf(order) == KeysAfter(capacity, calls)
      && Accounted(created, order, evicted)
      && notified == if hasCallback then evicted else []
    }

    ghost predicate Indexed()
      reads this
    {
      IndexedBy(order, entries)
    }

    constructor (capacity: int, hasCallback: bool)
      ensures Valid() && this.capacity == (if capacity < 1 then 1 else capacity) && this.hasCallback == hasCallback
      ensures order == [] && accesses == [] && calls == [] && created == multiset{} && evicted == []
    {
      this.capacity := if capacity < 1 then 1 else capacity;
      this.hasCallback := hasCallback;
      entries, order, notified := map[], [], [];
      created, evicted, accesses, calls := multiset{}, [], [], [];
    }

    /** The list operation on an element of the list. */
    method MoveToFront(element: Element<K, V>)
      requires element in order && Distinct(KeysOf(order))
      modifies this`order
      ensures KeysOf(order) == [element.key] + Without(KeysOf(old(order)), element.key)
      ensures Accounted(created, old(order), evicted) ==> Accounted(created, order, evicted)
      ensures forall e :: e in order <==> e in old(order)
    {
      var i :| 0 <= i < |order| && order[i] == element;
      WithoutAt(KeysOf(order), i);
      assert order == order[..i] + [element] + order[i + 1..];
      MovedKeys(order, i);
      if Accounted(created, order, evicted) { AccountMoved(created, order, evicted, i); }
      order := [element] + order[..i] + order[i + 1..];
    }

    /** An element of the list is used again. */
    method Use(element: Element<K, V>, ghost call: Access<K>)
      requires Valid() && element in order && call.key == element.key
      modifies this`order, this`accesses, this`calls
      ensures Valid() && accesses == old(accesses) + [element.key] && calls == old(calls) + [call]
      ensures KeysOf(order) == [element.key] + Without(KeysOf(old(order)), element.key)
    {
      hide Recent, Without, First, KeysOf, PairsOf, Distinct, Accounted, KeysAfter;
      KeysDistinct();
      KeyListed(order, element);
      OneMoreCall(capacity, calls, call);
      BoundedStep(accesses, capacity, element.key);
      MoveToFront(element);
      accesses := accesses + [element.key];
      calls := calls + [call];
      SameKeys(order, old(order));
    }

    lemma KeysDistinct()
      requires Valid()
      ensures Distinct(KeysOf(order)) && |order| <= capacity
    {
      RecentDistinct(accesses);
    }

    /** `made` is what the create function returns; it is called only when the key is absent. */
    method GetOrAdd(key: K, made: V) returns (value: V)
      requires Valid()
      modifies this
      ensures Valid() && accesses == old(accesses) + [key] && calls == old(calls) + [Add(key)]
      ensures KeysOf(order) == Added(KeysOf(old(order)), capacity, key)
      ensures key in entries && value == entries[key].value
      ensures if key in old(entries)
              then value == old(entries)[key].value && created == old(created) && evicted == old(evicted)
              else value == made && created == old(created) + multiset{(key, made)}
      // the pair that leaves is the least recently used one, and it leaves only when the cache is full
      ensures evicted == if key in old(entries) || |old(order)| < capacity then old(evicted)
                         else old(evicted) + [PairsOf(old(order))[capacity - 1]]
    {
      if key in entries {
        var element := entries[key];
        Use(element, Add(key));
        return element.value;
      }
      AddNew(key, made);
      return made;
    }

    method AddNew(key: K, made: V)
      requires Valid() && key !in entries
      modifies this
      ensures Valid() && accesses == old(accesses) + [key] && calls == old(calls) + [Add(key)]
      ensures KeysOf(order) == Added(KeysOf(old(order)), capacity, key)
      ensures key in entries && entries[key].value == made && created == old(created) + multiset{(key, made)}
      ensures evicted == if |old(order)| < capacity then old(evicted)
              else old(evicted) + [PairsOf(old(order))[capacity - 1]]
    {
      hide Recent, Without, First, Added, IndexedBy, Distinct, KeysOf, PairsOf, Accounted, KeysAfter;
      OneMoreCall(capacity, calls, Add(key));
      KeysLength(order);
      KeysDistinct();
      NotListed(order, entries, key);
      BoundedStep(accesses, capacity, key);
      AddedNew(KeysOf(order), capacity, key);
      accesses := accesses + [key];
      calls := calls + [Add(key)];
      PushFront(key, made);
      if |order| > capacity {
        PushedLast(old(order), order, key);
        RemoveBack();
      }
    }

    /** A new pair becomes the most recent one. */
    method PushFront(key: K, made: V)
      requires Indexed() && key !in entries && Distinct(KeysOf(order))
      modifies this`entries, this`order, this`created
      ensures Indexed() && Distinct(KeysOf(order)) && KeysOf(order) == [key] + KeysOf(old(order))
      ensures created == old(created) + multiset{(key, made)}
      ensures Accounted(old(created), old(order), evicted) ==> Accounted(created, order, evicted)
      ensures |order| == |old(order)| + 1 && order[1..] == old(order)
      ensures key in entries && entries[key].value == made
    {
      hide Accounted, IndexedBy, KeysOf, Distinct;
      var element := new Element(key, made);
      Indexing(order, entries, element);
      if Accounted(created, order, evicted) { AccountPushed(created, order, evicted, element); }
      order := [element] + order;
      entries := entries[key := element];
      created := created + multiset{(key, made)};
    }

    /** The oldest pair leaves. */
    method RemoveBack()
      requires |order| >= 1 && Indexed() && Distinct(KeysOf(order))
      requires Accounted(created, order, evicted) && notified == if hasCallback then evicted else []
      modifies this`entries, this`order, this`notified, this`evicted
      ensures Indexed() && KeysOf(order) == KeysOf(old(order))[..|old(order)| - 1]
      ensures Accounted(created, order, evicted) && notified == if hasCallback then evicted else []
      ensures evicted == old(evicted) + [PairsOf(old(order))[|old(order)| - 1]]
      ensures entries == old(entries) - {old(order)[|old(order)| - 1].key}
    {
      hide KeysOf, PairsOf, IndexedBy, Distinct, Accounted;
      var last := |order| - 1;
      var oldest := order[last];
      PairAt(order, last);
      AccountPopped(created, order, evicted);
      IndexedPopped(order, entries);
      evicted := evicted + [(oldest.key, oldest.value)];
      entries := entries - {oldest.key};
      order := order[..last];
      if hasCallback { notified := notified + [(oldest.key, oldest.value)]; }
    }

    method Get(key: K) returns (value: Option<V>)
      requires Valid()
      modifies this`order, this`accesses, this`calls
      ensures Valid() && calls == old(calls) + [Look(key)] && KeysOf(order) == Looked(KeysOf(old(order)), key)
      ensures accesses == if key in entries then old(accesses) + [key] else old(accesses)
      ensures value == if key in entries then Some(entries[key].value) else None
    {
      if key in entries {
        var element := entries[key];
        Use(element, Look(key));
        return Some(element.value);
      }
      NotListed(order, entries, key);
      OneMoreCall(capacity, calls, Look(key));
      calls := calls + [Look(key)];
      return None;
    }

    method Len() returns (n: nat)
      requires Valid()
      ensures n == |order| <= capacity
    {
      KeysDistinct();
      assert entries.Keys == set k | k in KeysOf(order) by {
        forall k | k in KeysOf(order) ensures k in entries {
          var i :| 0 <= i < |order| && KeysOf(order)[i] == k;
          assert order[i] in order;
        }
      }
      DistinctSize(KeysOf(order));
      n := |entries|;
    }
  }

  /** Of two caches that received the same calls, the larger one holds every key of the smaller, in the same order. */
  lemma SmallerLruContained<K, V, W>(small: Lru<K, V>, large: Lru<K, W>)
    requires small.Valid() && large.Valid() && small.calls == large.calls && small.capacity <= large.capacity
    ensures Contained(KeysOf(small.order), small.capacity, KeysOf(large.order))
    ensures forall k :: k in small.entries ==> k in large.entries
  {
    hide Contained, KeysAfter, Recent, First, Accounted;
    SmallerCacheContained(small.capacity, large.capacity, small.calls);
    forall k | k in KeysOf(large.order) ensures k in large.entries {
      var i :| 0 <= i < |large.order| && KeysOf(large.order)[i] == k;
      assert large.order[i] in large.order;
    }
  }

  lemma KeysLength<K, V>(order: seq<Element<K, V>>)
    ensures |KeysOf(order)| == |order| && |PairsOf(order)| == |order|
  {
  }

  lemma PairAt<K, V>(order: seq<Element<K, V>>, i: nat)
    requires i < |order|
    ensures |PairsOf(order)| == |order| && PairsOf(order)[i] == (order[i].key, order[i].value)
  {
  }

  lemma NotListed<K, V>(order: seq<Element<K, V>>, entries: map<K, Element<K, V>>, key: K)
    requires IndexedBy(order, entries) && key !in entries
    ensures key !in KeysOf(order)
  {
    forall i | 0 <= i < |order| ensures order[i].key != key { assert order[i] in order; }
  }

  /** After a push, the last element is the one that was last before. */
  lemma PushedLast<K, V>(before: seq<Element<K, V>>, now: seq<Element<K, V>>, key: K)
    requires before != [] && |now| == |before| + 1 && now[1..] == before && key !in KeysOf(before)
    ensures now[|before|].key != key && |KeysOf(now)| == |now| && |PairsOf(before)| == |before|
    ensures |PairsOf(now)| == |now| && PairsOf(now)[|before|] == PairsOf(before)[|before| - 1]
  {
    assert now[|before|] == now[1..][|before| - 1];
    assert KeysOf(before)[|before| - 1] in KeysOf(before);
  }

  lemma AddedNew<K>(keys: seq<K>, capacity: nat, k: K)
    requires k !in keys && |keys| <= capacity
    ensures Added(keys, capacity, k) == if |keys| < capacity then [k] + keys else ([k] + keys)[..|keys|]
  {
  }

  lemma {:induction false} DistinctSize<K>(keys: seq<K>)
    requires Distinct(keys)
    ensures |set k | k in keys| == |keys|
  {
    if keys != [] {
      var rest := keys[1..];
      DistinctSize(rest);
      assert keys[0] !in rest;
      assert (set k | k in keys) == (set k | k in rest) + {keys[0]};
    }
  }

  ghost predicate IndexedBy<K, V>(order: seq<Element<K, V>>, entries: map<K, Element<K, V>>) {
    && (forall k :: k in entries ==> k in KeysOf(order))
    && (forall e :: e in order ==> e.key in entries && entries[e.key] == e)
  }

  lemma Indexing<K, V>(order: seq<Element<K, V>>, entries: map<K, Element<K, V>>, element: Element<K, V>)
    requires IndexedBy(order, entries) && element.key !in entries
    ensures IndexedBy([element] + order, entries[element.key := element]) &&
            KeysOf([element] + order) == [element.key] + KeysOf(order)
    ensures Distinct(KeysOf(order)) ==> Distinct(KeysOf([element] + order))
  {
    assert KeysOf([element] + order) == [element.key] + KeysOf(order);
    forall i | 0 <= i < |order| ensures order[i].key != element.key {
      assert order[i] in order;
    }
  }

  lemma IndexedPopped<K, V>(order: seq<Element<K, V>>, entries: map<K, Element<K, V>>)
    requires IndexedBy(order, entries) && order != [] && Distinct(KeysOf(order))
    ensures var last := |order| - 1;
            IndexedBy(order[..last], entries - {order[last].key}) && KeysOf(order[..last]) == KeysOf(order)[..last]
  {
    var last := |order| - 1;
    assert KeysOf(order[..last]) == KeysOf(order)[..last];
    forall e | e in order[..last] ensures e in order && e.key != order[last].key {
      var i :| 0 <= i < last && order[i] == e;
      assert KeysOf(order)[i] != KeysOf(order)[last];
    }
    forall k | k in entries && k != order[last].key ensures k in KeysOf(order[..last]) {
      var i :| 0 <= i < |order| && KeysOf(order)[i] == k;
      assert KeysOf(order[..last])[i] == k;
    }
  }

  /** Every created pair is stored or was evicted. */
  ghost predicate Accounted<K, V>(created: multiset<(K, V)>, order: seq<Element<K, V>>, evicted: seq<(K, V)>) {
    created == multiset(PairsOf(order)) + multiset(evicted)
  }

  lemma AccountPushed<K, V>(created: multiset<(K, V)>, order: seq<Element<K, V>>, evicted: seq<(K, V)>,
          e: Element<K, V>)
    requires Accounted(created, order, evicted)
    ensures Accounted(created + multiset{(e.key, e.value)}, [e] + order, evicted)
  {
    assert PairsOf([e] + order) == [(e.key, e.value)] + PairsOf(order);
  }

  lemma AccountPopped<K, V>(created: multiset<(K, V)>, order: seq<Element<K, V>>, evicted: seq<(K, V)>)
    requires Accounted(created, order, evicted) && order != []
    ensures var last := |order| - 1; Accounted(created, order[..last], evicted + [(order[last].key, order[last].value)])
  {
    var last := |order| - 1;
    assert PairsOf(order) == PairsOf(order[..last]) + [(order[last].key, order[last].value)];
  }

  lemma AccountMoved<K, V>(created: multiset<(K, V)>, order: seq<Element<K, V>>, evicted: seq<(K, V)>, i: nat)
    requires Accounted(created, order, evicted) && i < |order|
    ensures Accounted(created, [order[i]] + order[..i] + order[i + 1..], evicted)
  {
    var p := PairsOf(order);
    assert p == p[..i] + [p[i]] + p[i + 1..];
    assert PairsOf([order[i]] + order[..i] + order[i + 1..]) == [p[i]] + p[..i] + p[i + 1..];
  }

  lemma KeyListed<K, V>(order: seq<Element<K, V>>, element: Element<K, V>)
    requires element in order
    ensures element.key in KeysOf(order)
  {
    var i :| 0 <= i < |order| && order[i] == element;
    assert KeysOf(order)[i] == element.key;
  }

  lemma SameKeys<K, V>(a: seq<Element<K, V>>, b: seq<Element<K, V>>)
    requires forall e :: e in a <==> e in b
    ensures forall k :: k in KeysOf(a) <==> k in KeysOf(b)
  {
    forall k | k in KeysOf(a) ensures k in KeysOf(b) {
      var i :| 0 <= i < |a| && KeysOf(a)[i] == k;
      KeyListed(b, a[i]);
    }
    forall k | k in KeysOf(b) ensures k in KeysOf(a) {
      var i :| 0 <= i < |b| && KeysOf(b)[i] == k;
      KeyListed(a, b[i]);
    }
  }

  lemma MovedKeys<K, V>(order: seq<Element<K, V>>, i: nat)
    requires i < |order|
    ensures KeysOf([order[i]] + order[..i] + order[i + 1..]) ==
              [order[i].key] + (KeysOf(order)[..i] + KeysOf(order)[i + 1..])
  {
  }
}
