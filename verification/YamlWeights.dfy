// Explicit zero weights in new keys (internal/config/config_yaml.go): the single node is protected, the new
// mapping around it is not.
module YamlWeights {
  import opened Bytes
  import opened YamlTree
  import opened YamlAgreement

  const WEIGHT := Ascii("weight")

  /** Nothing in the subtree is worth a new key: every leaf is zero, or a listed default in a mapping. A zero
      weight is no exception. */
  predicate Vanishes(path: Path, src: Tree)
    requires Source(src)
    decreases src
  {
    match src.kind
    case Scalar => ZeroValue(src)
    case Sequence => forall i :: 0 <= i < |src.content| ==> Vanishes(path, src.content[i])
    case Mapping => forall i :: 0 <= i < |src.content| - 1 && i % 2 == 0 ==> PairVanishes(path, src, i)
    case _ => false
  }

  predicate PairVanishes(path: Path, src: Tree, i: nat)
    requires Source(src) && i + 1 < |src.content|
    decreases src, 0
  {
    assert Source(src.content[i]) && Source(src.content[i + 1]);
    var childPath := path + [Key(src, i)];
    (ListedDefault(childPath, src.content[i + 1]) && !IsWeight(childPath, src.content[i + 1])) ||
    Vanishes(childPath, src.content[i + 1])
  }

  lemma {:induction false} ZeroVanishes(path: Path, src: Tree)
    requires Source(src) && ZeroValue(src)
    ensures Vanishes(path, src)
    decreases src
  {
    hide UniqueKeys, ZeroScalar, ListedDefault, IsWeight;
    if src.kind.Sequence? {
      forall i | 0 <= i < |src.content| ensures Vanishes(path, src.content[i]) { ZeroVanishes(path, src.content[i]); }
    } else if src.kind.Mapping? {
      forall i | 0 <= i < |src.content| - 1 && i % 2 == 0 ensures PairVanishes(path, src, i) {
        assert (i + 1) % 2 == 1;
        ZeroVanishes(path + [Key(src, i)], src.content[i + 1]);
      }
    }
  }

  /** The pruned copy is zero exactly when everything in the source vanishes. */
  lemma {:induction false} PrunedZeroIff(path: Path, src: Tree)
    requires Source(src)
    ensures ZeroValue(Pruned(path, src)) <==> Vanishes(path, src)
    decreases src, 1
  {
    if src.kind.Sequence? {
      forall i | 0 <= i < |src.content|
        ensures ZeroValue(Pruned(path, src).content[i]) <==> Vanishes(path, src.content[i])
      {
        assert Pruned(path, src).content[i] == Pruned(path, src.content[i]);
        PrunedZeroIff(path, src.content[i]);
      }
    } else if src.kind.Mapping? {
      if ZeroValue(Pruned(path, src)) {
        forall j | 0 <= j < |src.content| - 1 && j % 2 == 0 ensures PairVanishes(path, src, j) {
          ZeroPairVanishes(path, src, j);
        }
      }
      if Vanishes(path, src) {
        VanishingPairs(path, src, 0);
        ZeroPairs(Pruned(path, src));
      }
    }
  }

  /** The values of all pairs are zero. */
  predicate ZeroValues(pairs: seq<Tree>) {
    forall i :: 0 <= i < |pairs| && i % 2 == 1 ==> ZeroValue(pairs[i])
  }

  lemma ZeroPairs(t: Tree)
    requires IsMapping(t) && ZeroValues(t.content)
    ensures ZeroValue(t)
  {
  }

  lemma ZeroPairVanishes(path: Path, src: Tree, j: nat)
    requires IsMapping(src) && Source(src) && j % 2 == 0 && j + 1 < |src.content| && ZeroValue(Pruned(path, src))
    ensures PairVanishes(path, src, j)
    decreases src, 0
  {
    hide PairKept, Pruned, ZeroValue, Vanishes, ListedDefault, IsWeight, EmptyCollection;
    PairInSource(src, j);
    var childPath, value := path + [Key(src, j)], src.content[j + 1];
    PrunedZeroIff(childPath, value);
    if PairKept(path, src, j) {
      PrunedValueZero(path, src, j);
    } else {
      NotKept(path, src, j);
      if EmptyCollection(Pruned(childPath, value)) {
        EmptyIsZero(Pruned(childPath, value));
      } else if ZeroValue(value) {
        ZeroVanishes(childPath, value);
      }
    }
  }

  lemma EmptyIsZero(t: Tree)
    requires EmptyCollection(t)
    ensures ZeroValue(t)
  {
  }

  lemma {:induction false} VanishingPairs(path: Path, src: Tree, i: nat)
    requires IsMapping(src) && Source(src) && Vanishes(path, src) && i % 2 == 0 && i <= |src.content|
    ensures ZeroValues(PrunedPairs(path, src, i))
    decreases src, 0, |src.content| - i
  {
    hide Source, Vanishes, PairKept, Pruned, ZeroValue, PrunedPairs, FindKey, FindKeyFrom, KnownDefault, Trim;
    if i < |src.content| {
      hide ZeroValues;
      PairInSource(src, i);
      PrunedPairsStep(path, src, i);
      VanishingPairs(path, src, i + 2);
      if PairKept(path, src, i) {
        KeptVanishing(path, src, i);
        OnePairMore(src.content[i], Pruned(path + [Key(src, i)], src.content[i + 1]), PrunedPairs(path, src, i + 2));
      }
    } else {
      PrunedPairsEnd(path, src, i);
    }
  }

  lemma KeptVanishing(path: Path, src: Tree, i: nat)
    requires IsMapping(src) && Source(src) && i % 2 == 0 && i + 1 < |src.content| && src.content[i].Tree? &&
             Source(src.content[i + 1])
    requires Vanishes(path, src) && PairKept(path, src, i)
    ensures ZeroValue(Pruned(path + [Key(src, i)], src.content[i + 1]))
    decreases src, 0, 0
  {
    hide Pruned, ZeroValue, ListedDefault, IsWeight, EmptyCollection;
    assert PairVanishes(path, src, i);
    PrunedZeroIff(path + [Key(src, i)], src.content[i + 1]);
  }

  lemma OnePairMore(k: Tree, v: Tree, rest: seq<Tree>)
    requires ZeroValue(v) && ZeroValues(rest)
    ensures ZeroValues([k, v] + rest)
  {
    hide ZeroValue;
    forall j | 0 <= j < |[k, v] + rest| && j % 2 == 1 ensures ZeroValue(([k, v] + rest)[j]) {
      if j > 1 { assert (j - 2) % 2 == 1 && ([k, v] + rest)[j] == rest[j - 2]; }
    }
  }

  // ----- places in a tree

  /** One step down: to the value under a key, or to a sequence element. */
  datatype Hop = Entry(key: Text) | Element(index: nat)

  type Route = seq<Hop>

  /** What stands one step down; None when there is no such step. */
  function Below(t: Tree, hop: Hop): (r: Option<Tree>)
    ensures Source(t) && r.Some? ==> t.Tree? && Source(r.value)
  {
    match hop
    case Entry(key) =>
      if IsMapping(t) && FindKey(t.content, key) >= 0 then Some(t.content[FindKey(t.content, key) + 1]) else None
    case Element(index) =>
      if t.Tree? && t.kind.Sequence? && index < |t.content| then Some(t.content[index]) else None
  }

  /** What stands at the end of a route; None when the route leaves the tree. */
  function Follow(t: Tree, route: Route): Option<Tree>
    decreases |route|
  {
    if route == [] then Some(t)
    else if Below(t, route[0]).Some? then Follow(Below(t, route[0]).value, route[1..])
    else None
  }

  /** The configuration path at the end of a route. */
  function PathAt(path: Path, route: Route): Path
    decreases |route|
  {
    if route == [] then path
    else if route[0].Entry? then PathAt(path + [route[0].key], route[1..])
    else PathAt(path, route[1..])
  }

  /** The route ends in the source at an integer that is the value of a key named "weight". */
  predicate WeightAt(path: Path, src: Tree, route: Route, w: Tree) {
    && Follow(src, route) == Some(w) && IsWeight(PathAt(path, route), w)
    && (route == [] || route[|route| - 1].Entry?)
  }

  /** The scalar is there, with its tag and value. */
  predicate Holds(found: Option<Tree>, w: Tree) {
    w.Tree? && found.Some? && IsScalar(found.value) && found.value.tag == w.tag && found.value.value == w.value
  }

  lemma SourceEntry(src: Tree, route: Route) returns (j: nat)
    requires Source(src) && route != [] && route[0].Entry? && Follow(src, route).Some?
    ensures IsMapping(src) && j == FindKey(src.content, route[0].key) && j % 2 == 0 && j + 1 < |src.content|
    ensures src.content[j].Tree? && Key(src, j) == route[0].key && Source(src.content[j]) && Source(src.content[j + 1])
    ensures Below(src, route[0]) == Some(src.content[j + 1]) &&
            Follow(src, route) == Follow(src.content[j + 1], route[1..])
  {
    hide FindKeyFrom;
    j := FindKey(src.content, route[0].key);
  }

  lemma FollowFound(t: Tree, route: Route, present: bool, value: Tree)
    requires IsMapping(t) && route != [] && route[0].Entry? && Found(t.content, route[0].key, present, value)
    ensures Follow(t, route) == if present then Follow(value, route[1..]) else None
  {
    hide FindKeyFrom;
  }

  lemma WeightBelow(path: Path, src: Tree, route: Route, w: Tree, below: Tree)
    requires route != [] && WeightAt(path, src, route, w) && Follow(src, route) == Follow(below, route[1..])
    ensures WeightAt(if route[0].Entry? then path + [route[0].key] else path, below, route[1..], w)
  {
    if |route| > 1 { assert route[1..][|route| - 2] == route[|route| - 1]; }
  }

  // ----- a weight in a new subtree

  /** No pair on the way is a known default, a mapping or sequence of nothing but zeros included. */
  predicate Undropped(path: Path, src: Tree, route: Route)
    requires Source(src) && Follow(src, route).Some?
    decreases |route|
  {
    if route == [] then true
    else
      var below := Below(src, route[0]).value;
      match route[0]
      case Entry(key) => !KnownDefault(path + [key], below) && Undropped(path + [key], below, route[1..])
      case Element(_) => Undropped(path, below, route[1..])
  }

  /** In the pruned copy the weight stands at its place, or, when a pair on the way is dropped, nothing does. */
  lemma {:induction false} PrunedWeight(path: Path, src: Tree, route: Route, w: Tree)
    requires Source(src) && WeightAt(path, src, route, w)
    ensures Follow(Pruned(path, src), route) == if Undropped(path, src, route) then Some(w) else None
    decreases |route|
  {
    hide Source, KnownDefault, FindKeyFrom, Pruned, PairKept, Found;
    if route == [] {
      PrunedScalar(path, src);
    } else if route[0].Entry? {
      var j := SourceEntry(src, route);
      var childPath, value := path + [route[0].key], src.content[j + 1];
      WeightBelow(path, src, route, w, value);
      PrunedWeight(childPath, value, route[1..], w);
      PrunedFind(path, src, 0, j);
      PrunedMapping(path, src);
      FollowFound(Pruned(path, src), route, PairKept(path, src, j), Pruned(childPath, value));
      KeptWhenHolding(path, src, j, route[1..], w);
    } else {
      SourceElement(src, route);
      var element := src.content[route[0].index];
      WeightBelow(path, src, route, w, element);
      PrunedWeight(path, element, route[1..], w);
      PrunedElement(path, src, route[0].index);
    }
  }

  lemma PrunedScalar(path: Path, t: Tree)
    requires IsScalar(t)
    ensures Pruned(path, t) == t
  {
  }

  lemma SourceElement(src: Tree, route: Route)
    requires Source(src) && route != [] && route[0].Element? && Follow(src, route).Some?
    ensures src.Tree? && src.kind.Sequence? && route[0].index < |src.content| && Source(src.content[route[0].index])
    ensures Follow(src, route) == Follow(src.content[route[0].index], route[1..])
  {
  }

  lemma PrunedElement(path: Path, t: Tree, i: nat)
    requires t.Tree? && t.kind.Sequence? && i < |t.content|
    ensures var r := Pruned(path, t);
            r.Tree? && r.kind.Sequence? && |r.content| == |t.content| && r.content[i] == Pruned(path, t.content[i])
  {
  }

  /** A pair whose pruned value still holds something stays unless it is a known default. */
  lemma KeptWhenHolding(path: Path, src: Tree, j: nat, rest: Route, w: Tree)
    requires Source(src) && j + 1 < |src.content| && src.content[j].Tree? && Source(src.content[j]) && IsScalar(w)
    ensures PairKept(path, src, j) ==> !KnownDefault(path + [Key(src, j)], src.content[j + 1])
    ensures var childPath, value := path + [Key(src, j)], src.content[j + 1];
            (Follow(Pruned(childPath, value), rest) == Some(w) && !KnownDefault(childPath, value) ==>
              PairKept(path, src, j))
  {
    hide Source, KnownDefault, FindKeyFrom, Pruned;
  }

  /** Whether a new key is left out, in terms of its value in the source. */
  predicate NewKeyDropped(path: Path, src: Tree)
    requires Source(src)
  {
    if src.kind.Scalar? then KnownDefault(path, src) else Vanishes(path, src)
  }

  lemma DroppedIff(path: Path, src: Tree)
    requires Source(src)
    ensures KnownDefault(path, Pruned(path, src)) <==> NewKeyDropped(path, src)
  {
    if src.kind.Scalar? {
      PrunedScalar(path, src);
    } else {
      PrunedZeroIff(path, src);
      hide Pruned, Vanishes, ZeroValue;
    }
  }

  // ----- a weight anywhere in a merge

  /** What merging `value` under `key` into the mapping `base` leaves there. */
  predicate MergedUnder(base: Tree, key: Text, value: Tree, childPath: Path, merged: Tree)
    requires IsMapping(base) && merged.Tree?
  {
    var at := FindKey(base.content, key);
    if at >= 0 then Found(merged.content, key, true, MergeNode(base.content[at + 1], value, childPath))
    else Found(merged.content, key, !KnownDefault(childPath, Pruned(childPath, value)), Pruned(childPath, value))
  }

  lemma PairFound(dst: Tree, src: Tree, j: nat, path: Path)
    requires IsMapping(dst) && |dst.content| % 2 == 0 && IsMapping(src) && j + 1 < |src.content| && src.content[j].Tree?
    ensures MergedUnder(dst, Key(src, j), src.content[j + 1], path + [Key(src, j)], MergePair(dst, src, j, path))
  {
    hide FindKeyFrom, MergeNode, Pruned, KnownDefault;
    var key, value := src.content[j], src.content[j + 1];
    var childPath, at := path + [key.value], FindKey(dst.content, key.value);
    if at >= 0 {
      FindFromUpdate(dst.content, key.value, 0, at + 1, MergeNode(dst.content[at + 1], value, childPath));
    } else {
      FindFromAppend(dst.content, key.value, 0, key, Pruned(childPath, value));
    }
  }

  /** The other pairs leave what is found under a key. */
  lemma OtherPairFound(dst: Tree, src: Tree, i: nat, path: Path, key: Text, present: bool, value: Tree)
    requires IsMapping(dst) && IsMapping(src) && i + 1 < |src.content| && src.content[i].Tree? &&
             src.content[i].value != key
    requires Found(dst.content, key, present, value)
    ensures Found(MergePair(dst, src, i, path).content, key, present, value)
  {
    hide FindKeyFrom, MergeNode, Pruned, KnownDefault;
    var other, childPath := src.content[i], path + [src.content[i].value];
    var at := FindKey(dst.content, other.value);
    if at >= 0 {
      FindFromUpdate(dst.content, key, 0, at + 1, MergeNode(dst.content[at + 1], src.content[i + 1], childPath));
      if FindKey(dst.content, key) >= 0 { assert FindKey(dst.content, key) + 1 != at + 1; }
    } else {
      FindFromAppend(dst.content, key, 0, other, Pruned(childPath, src.content[i + 1]));
    }
  }

  lemma {:induction false} LaterPairsFound(dst: Tree, src: Tree, i: nat, j: nat, path: Path, present: bool, value: Tree)
    requires IsMapping(dst) && IsMapping(src) && Source(src) && i % 2 == 0 && j % 2 == 0 && j < i &&
             j + 1 < |src.content|
    requires src.content[j].Tree? && Found(dst.content, Key(src, j), present, value)
    ensures Found(MergePairs(dst, src, i, path).content, Key(src, j), present, value)
    decreases |src.content| - i
  {
    hide Found, MergePair, Source;
    if i + 1 < |src.content| {
      KeysDiffer(src, i, j);
      OtherPairFound(dst, src, i, path, Key(src, j), present, value);
      LaterPairsFound(MergePair(dst, src, i, path), src, i + 2, j, path, present, value);
    }
  }

  lemma {:induction false} PairsFound(dst: Tree, src: Tree, i: nat, j: nat, path: Path)
    requires IsMapping(dst) && |dst.content| % 2 == 0 && IsMapping(src) && Source(src)
    requires i % 2 == 0 && j % 2 == 0 && i <= j && j + 1 < |src.content| && src.content[j].Tree?
    ensures MergedUnder(dst, Key(src, j), src.content[j + 1], path + [Key(src, j)], MergePairs(dst, src, i, path))
    decreases |src.content| - i
  {
    hide Found, MergePair, Source, FindKeyFrom, MergeNode, Pruned, KnownDefault;
    var r := MergePair(dst, src, i, path);
    var key := Key(src, j);
    var childPath, at := path + [key], FindKey(dst.content, key);
    if i == j {
      PairFound(dst, src, j, path);
      var present := at >= 0 || !KnownDefault(childPath, Pruned(childPath, src.content[j + 1]));
      var value := if at >= 0 then MergeNode(dst.content[at + 1], src.content[j + 1], childPath)
          else Pruned(childPath, src.content[j + 1]);
      LaterPairsFound(r, src, i + 2, j, path, present, value);
    } else {
      KeysDiffer(src, i, j);
      FoundOf(dst.content, key, at >= 0, if at >= 0 then dst.content[at + 1] else Nil);
      OtherPairFound(dst, src, i, path, key, at >= 0, if at >= 0 then dst.content[at + 1] else Nil);
      SameLookup(r.content, key, at >= 0, if at >= 0 then dst.content[at + 1] else Nil);
      PairsFound(r, src, i + 2, j, path);
    }
  }

  lemma SameLookup(content: seq<Tree>, key: Text, present: bool, value: Tree)
    requires Found(content, key, present, value)
    ensures |content| % 2 == 0 && (present <==> FindKey(content, key) >= 0)
    ensures present ==> content[FindKey(content, key) + 1] == value
  {
    hide FindKeyFrom;
  }

  /** The old element that the merge reuses at a place, or Nil. */
  function OldElement(dst: Tree, src: Tree, i: nat): Tree
    requires dst.Tree? && src.Tree?
  {
    var previous := Reordered(if dst.kind.Sequence? then dst.content else [], src.content);
    if i < |previous| then previous[i] else Nil
  }

  /** Exactly when a weight of the source survives the merge into `dst`: where the route leaves the
      destination at a new key, that key's value must not vanish and no pair on the rest of the way may be a
      known default; a new sequence element is copied whole. */
  predicate Survives(dst: Tree, src: Tree, path: Path, route: Route)
    requires dst.Tree? && Source(src) && Follow(src, route).Some?
    decreases |route|, 0
  {
    if route == [] then true
    else
      var below := Below(src, route[0]).value;
      match route[0]
      case Entry(key) => SurvivesUnder(if IsMapping(dst) then dst else src, key, below, path + [key], route[1..])
      case Element(index) =>
        var before := OldElement(dst, src, index);
        before.Nil? || Survives(before, below, path, route[1..])
  }

  /** The same for the value of a key that is merged into the mapping `base`. */
  predicate SurvivesUnder(base: Tree, key: Text, value: Tree, childPath: Path, rest: Route)
    requires base.Tree? && Source(value) && Follow(value, rest).Some?
    decreases |rest|, 1
  {
    var at := FindKey(base.content, key);
    if at >= 0 then base.content[at + 1].Tree? && Survives(base.content[at + 1], value, childPath, rest)
    else !NewKeyDropped(childPath, value) && Undropped(childPath, value, rest)
  }

  /** A weight of the source, at any depth and into any destination, stands at its place after the merge
      exactly under that condition; otherwise nothing does. */
  lemma {:induction false} WeightAfterMerge(dst: Tree, src: Tree, path: Path, route: Route, w: Tree)
    requires Target(dst) && Source(src) && WeightAt(path, src, route, w)
    ensures if Survives(dst, src, path, route) then Holds(Follow(MergeNode(dst, src, path), route), w)
            else Follow(MergeNode(dst, src, path), route) == None
    decreases |route|, 2
  {
    assert dst.Tree?;
    hide Target, Source, MergeNode, Pruned, KnownDefault;
    if route == [] {
      MergedScalar(dst, src, path);
    } else if route[0].Entry? {
      WeightUnderKey(dst, src, path, route, w);
    } else {
      WeightInElement(dst, src, path, route, w);
    }
  }

  lemma MergedScalar(dst: Tree, src: Tree, path: Path)
    requires dst.Tree? && IsScalar(src)
    ensures MergeNode(dst, src, path) == Tree(Scalar, src.tag, src.value, dst.content)
  {
  }

  lemma MergedMapping(dst: Tree, src: Tree, path: Path)
    requires dst.Tree? && IsMapping(src)
    ensures MergeNode(dst, src, path) == MergePairs(if IsMapping(dst) then dst else src, src, 0, path)
  {
    hide MergePairs;
  }

  lemma MergedKey(dst: Tree, src: Tree, path: Path, j: nat)
    requires Target(dst) && Source(src) && IsMapping(src) && j % 2 == 0 && j + 1 < |src.content| && src.content[j].Tree?
    ensures dst.Tree? && IsMapping(MergeNode(dst, src, path))
    ensures var base := if IsMapping(dst) then dst else src;
            && Target(base) && IsMapping(base)
            && MergedUnder(base, Key(src, j), src.content[j + 1], path + [Key(src, j)], MergeNode(dst, src, path))
  {
    var base := if IsMapping(dst) then dst else src;
    SourceIsTarget(src);
    TargetIsEven(base);
    TargetIsTree(dst);
    hide Target, Source, MergePairs, MergedUnder;
    MergedMapping(dst, src, path);
    PairsFound(base, src, 0, j, path);
  }

  lemma {:induction false} WeightUnderKey(dst: Tree, src: Tree, path: Path, route: Route, w: Tree)
    requires Target(dst) && Source(src) && WeightAt(path, src, route, w) && route != [] && route[0].Entry?
    ensures if Survives(dst, src, path, route) then Holds(Follow(MergeNode(dst, src, path), route), w)
            else Follow(MergeNode(dst, src, path), route) == None
    decreases |route|, 1
  {
    TargetIsTree(dst);
    var j := SourceEntry(src, route);
    var value := src.content[j + 1];
    hide Target, Source, MergeNode, Survives, SurvivesUnder, Follow, Below, FindKeyFrom, MergedUnder;
    WeightBelow(path, src, route, w, value);
    SurvivesUnderKey(dst, src, path, route, value);
    MergedKey(dst, src, path, j);
    hide WeightAt, Holds;
    var base := if IsMapping(dst) then dst else src;
    WeightUnderBase(MergeNode(dst, src, path), base, value, path + [route[0].key], route, w);
  }

  /** `r` holds under the first key of the route what the merge of `value` into `base` leaves there. */
  lemma {:induction false} WeightUnderBase(r: Tree, base: Tree, value: Tree, childPath: Path, route: Route, w: Tree)
    requires Target(base) && IsMapping(base) && Source(value) && IsMapping(r) && route != [] && route[0].Entry?
    requires WeightAt(childPath, value, route[1..], w)
    requires MergedUnder(base, route[0].key, value, childPath, r)
    ensures if SurvivesUnder(base, route[0].key, value, childPath, route[1..]) then Holds(Follow(r, route), w)
            else Follow(r, route) == None
    decreases |route|, 0
  {
    hide Source;
    var at := FindKey(base.content, route[0].key);
    if at >= 0 { TargetChild(base, at + 1); TargetIsTree(base.content[at + 1]); }
    hide Target, MergeNode, Pruned, KnownDefault, Found, FindKeyFrom, NewKeyDropped, Survives, Undropped;
    if at >= 0 {
      WeightAfterMerge(base.content[at + 1], value, childPath, route[1..], w);
      FollowFound(r, route, true, MergeNode(base.content[at + 1], value, childPath));
    } else {
      WeightInNewKey(childPath, value, route[1..], w);
      FollowFound(r, route, !KnownDefault(childPath, Pruned(childPath, value)), Pruned(childPath, value));
    }
  }

  lemma TargetIsTree(t: Tree)
    requires Target(t)
    ensures t.Tree?
  {
  }

  lemma SurvivesUnderKey(dst: Tree, src: Tree, path: Path, route: Route, value: Tree)
    requires dst.Tree? && Source(src) && Follow(src, route).Some? && route != [] && route[0].Entry?
    requires Below(src, route[0]) == Some(value)
    ensures Source(value) && Follow(value, route[1..]).Some?
    ensures Survives(dst, src, path, route) ==
            SurvivesUnder(if IsMapping(dst) then dst else src, route[0].key, value, path + [route[0].key], route[1..])
  {
    hide FindKeyFrom, FindKey, Below, SurvivesUnder, Source, OldElement, IsMapping, Undropped, NewKeyDropped;
  }

  /** A weight in the value of a new key. */
  lemma WeightInNewKey(childPath: Path, value: Tree, rest: Route, w: Tree)
    requires Source(value) && WeightAt(childPath, value, rest, w)
    ensures !KnownDefault(childPath, Pruned(childPath, value)) <==> !NewKeyDropped(childPath, value)
    ensures Follow(Pruned(childPath, value), rest) == if Undropped(childPath, value, rest) then Some(w) else None
  {
    DroppedIff(childPath, value);
    PrunedWeight(childPath, value, rest, w);
  }

  /** Removing the keys the source lacks leaves what stands at a place of the source. */
  lemma TrimmedRoute(t: Tree, src: Tree, route: Route)
    requires Target(t) && Source(src) && Follow(src, route).Some? && (route == [] ==> !src.kind.Mapping?)
    ensures Follow(WithoutMissingKeys(t, src), route) == Follow(t, route)
  {
    hide Source, Target, FindKeyFrom, KeepKeys, TrimmedKeys, Found;
    if IsMapping(src) && IsMapping(t) && route[0].Entry? {
      var j := SourceEntry(src, route);
      var key, at := route[0].key, FindKey(t.content, route[0].key);
      OwnKeyKept(src, 0, j);
      AllTrees(t);
      var present, value := at >= 0, if at >= 0 then t.content[at + 1] else Nil;
      FoundOf(t.content, key, present, value);
      KeepFind(t.content, TrimmedKeys(src.content, 0), key, present, value);
      FollowFound(t, route, present, value);
      FollowFound(WithoutMissingKeys(t, src), route, present, value);
    }
  }

  lemma {:induction false} WeightInElement(dst: Tree, src: Tree, path: Path, route: Route, w: Tree)
    requires Target(dst) && Source(src) && WeightAt(path, src, route, w) && route != [] && route[0].Element?
    ensures if Survives(dst, src, path, route) then Holds(Follow(MergeNode(dst, src, path), route), w)
            else Follow(MergeNode(dst, src, path), route) == None
    decreases |route|, 1
  {
    SourceElement(src, route);
    var i := route[0].index;
    var element, before := src.content[i], OldElement(dst, src, i);
    WeightBelow(path, src, route, w, element);
    MergedElement(dst, src, path, i);
    OldElementIsTarget(dst, src, i);
    hide Target, Source, MergeNode, OldElement, WithoutMissingKeys;
    if before.Tree? {
      WeightAfterMerge(before, element, path, route[1..], w);
      MergeAgrees(before, element, path);
      TrimmedRoute(MergeNode(before, element, path), element, route[1..]);
    }
  }

  lemma MergedElement(dst: Tree, src: Tree, path: Path, i: nat)
    requires dst.Tree? && src.Tree? && src.kind.Sequence? && i < |src.content|
    ensures var r := MergeNode(dst, src, path);
            r.Tree? && r.kind.Sequence? && i < |r.content| &&
            r.content[i] == MergeElement(OldElement(dst, src, i), src, i, path)
  {
    var previous := Reordered(if dst.kind.Sequence? then dst.content else [], src.content);
    ElementAt(previous, src, 0, path, i);
    hide Reordered, MergeElements, MergeElement;
  }

  lemma OldElementIsTarget(dst: Tree, src: Tree, i: nat)
    requires Target(dst) && src.Tree?
    ensures OldElement(dst, src, i).Tree? ==> Target(OldElement(dst, src, i))
  {
    var content := if dst.kind.Sequence? then dst.content else [];
    if i < |Reordered(content, src.content)| { ReorderedFrom(content, src.content, i); }
    hide Reordered;
  }

  // ----- zero weights, lost and kept

  const EMPTY := Tree(Mapping, Ascii("!!map"), [], [])

  const ZERO_WEIGHT := Tree(Scalar, INT, Ascii("0"), [])

  function Word(value: Text): Tree {
    Tree(Scalar, STR, value, [])
  }

  function Pair(key: Text, value: Tree): Tree {
    Tree(Mapping, Ascii("!!map"), [], [Word(key), value])
  }

  function List(items: seq<Tree>): Tree {
    Tree(Sequence, SEQ, [], items)
  }

  /** The mapping `inner` and in front of it one pair more. */
  function WithPair(key: Text, value: Tree, inner: Tree): Tree
    requires inner.Tree?
  {
    inner.(content := [Word(key), value] + inner.content)
  }

  lemma PairIsSource(key: Text, value: Tree)
    requires Trim(key) != [] && Source(value)
    ensures Source(Pair(key, value)) && Below(Pair(key, value), Entry(key)) == Some(value)
  {
    hide Trim;
    var p := Pair(key, value);
    assert p.content[0].value == key && FindKey(p.content, key) == 0;
    assert Source(Word(key));
  }

  lemma WeightIsWord()
    ensures Trim(WEIGHT) != [] && Source(ZERO_WEIGHT) && Source(Pair(WEIGHT, ZERO_WEIGHT)) && ZeroValue(ZERO_WEIGHT)
    ensures Below(Pair(WEIGHT, ZERO_WEIGHT), Entry(WEIGHT)) == Some(ZERO_WEIGHT)
  {
    assert WEIGHT[0] == 119 && WEIGHT[5] == 116;
    assert TrimLeft(WEIGHT) == WEIGHT && TrimRight(WEIGHT) == WEIGHT;
    PairIsSource(WEIGHT, ZERO_WEIGHT);
  }

  const SOMETHING := Word(Ascii("y"))

  lemma SomethingIsNoDefault(path: Path)
    ensures Source(SOMETHING) && !ZeroValue(SOMETHING) && !ListedDefault(path, SOMETHING)
  {
    hide Join;
    assert STR[2] == 115 && INT[2] == 105;
    assert |STR| == 5 && |BOOL| == 6 && |FLOAT| == 7 && |NULL| == 6 && |SOMETHING.value| == 1;
  }

  lemma LoneWeightVanishes(path: Path)
    ensures Source(Pair(WEIGHT, ZERO_WEIGHT)) && Vanishes(path, Pair(WEIGHT, ZERO_WEIGHT))
    ensures KnownDefault(path, Pair(WEIGHT, ZERO_WEIGHT))
  {
    hide Source, Vanishes, ZeroValue, Trim, Ascii, Below;
    WeightIsWord();
    ZeroPair(path, WEIGHT, ZERO_WEIGHT);
    ZeroVanishes(path, Pair(WEIGHT, ZERO_WEIGHT));
  }

  lemma ZeroPair(path: Path, key: Text, value: Tree)
    requires ZeroValue(value)
    ensures ZeroValue(Pair(key, value)) && KnownDefault(path, Pair(key, value))
  {
    hide ZeroScalar, Ascii, ListedDefault;
  }

  /** The theorem for a new key: its value must not vanish, and no pair below it may be dropped. */
  lemma WeightUnderNewKey(key: Text, value: Tree, path: Path, rest: Route, w: Tree)
    requires Trim(key) != [] && Source(value) && WeightAt(path + [key], value, rest, w)
    ensures var r := Follow(MergeNode(EMPTY, Pair(key, value), path), [Entry(key)] + rest);
            if !NewKeyDropped(path + [key], value) && Undropped(path + [key], value, rest) then Holds(r, w)
            else r == None
  {
    var src, route := Pair(key, value), [Entry(key)] + rest;
    PairIsSource(key, value);
    assert route[1..] == rest;
    hide Trim, Source, Below, NewKeyDropped, Undropped, Holds, MergeNode;
    assert Target(EMPTY) && IsMapping(EMPTY) && FindKey(EMPTY.content, key) == -1;
    WeightAtEntry(path, src, route, value, w);
    SurvivesUnderKey(EMPTY, src, path, route, value);
    WeightAfterMerge(EMPTY, src, path, route, w);
  }

  lemma WeightAtEntry(path: Path, src: Tree, route: Route, value: Tree, w: Tree)
    requires route != [] && route[0].Entry? && Below(src, route[0]) == Some(value)
    requires WeightAt(path + [route[0].key], value, route[1..], w)
    ensures WeightAt(path, src, route, w)
  {
    hide Below, IsWeight;
    if |route| > 1 { assert route[|route| - 1] == route[1..][|route| - 2]; }
  }

  /** The documented promise fails for a new mapping whose only entry is a zero weight: the merge drops it,
      although the same entry is kept when its mapping exists. */
  lemma ZeroWeightInNewMappingIsLost(key: Text, path: Path)
    requires Trim(key) != []
    ensures MergeMapping(EMPTY, Pair(key, Pair(WEIGHT, ZERO_WEIGHT)), path) == EMPTY
    ensures MergeMapping(EMPTY, Pair(WEIGHT, ZERO_WEIGHT), path) == Pair(WEIGHT, ZERO_WEIGHT)
  {
    var inner := Pair(WEIGHT, ZERO_WEIGHT);
    hide Source, Vanishes, Trim, Ascii, Below, ZeroValue;
    WeightIsWord();
    LoneWeightVanishes(path + [key]);
    DroppedIff(path + [key], inner);
    OnlyPair(key, inner, path);
    OnlyPair(WEIGHT, ZERO_WEIGHT, path);
  }

  /** Merging one pair into an empty mapping. */
  lemma OnlyPair(key: Text, value: Tree, path: Path)
    ensures MergeMapping(EMPTY, Pair(key, value), path) ==
            if KnownDefault(path + [key], Pruned(path + [key], value)) then EMPTY
            else Pair(key, Pruned(path + [key], value))
  {
    hide KnownDefault, Pruned;
    assert FindKey(EMPTY.content, key) == -1;
    assert MergePairs(EMPTY, Pair(key, value), 0, path) == MergePair(EMPTY, Pair(key, value), 0, path);
  }

  lemma SomethingDoesNotVanish(path: Path, src: Tree, i: nat)
    requires Source(src) && IsMapping(src) && i % 2 == 0 && i + 1 < |src.content| && src.content[i + 1] == SOMETHING
    ensures !Vanishes(path, src)
  {
    PairInSource(src, i);
    SomethingIsNoDefault(path + [Key(src, i)]);
    hide Source, ListedDefault, IsWeight, ZeroValue;
    assert !PairVanishes(path, src, i);
  }

  /** The zero weight itself is never dropped from the mapping it stands in. */
  lemma OwnPairStays(path: Path)
    ensures var alone := Pair(WEIGHT, ZERO_WEIGHT);
            && Source(alone) && WeightAt(path, alone, [Entry(WEIGHT)], ZERO_WEIGHT)
            && Undropped(path, alone, [Entry(WEIGHT)])
  {
    WeightIsWord();
    var alone, route := Pair(WEIGHT, ZERO_WEIGHT), [Entry(WEIGHT)];
    hide Source, Below, ZeroValue, ListedDefault, Trim;
    assert route[1..] == [];
    assert IsWeight(path + [WEIGHT], ZERO_WEIGHT);
    assert Follow(ZERO_WEIGHT, []) == Some(ZERO_WEIGHT);
    assert Follow(alone, route) == Some(ZERO_WEIGHT);
    assert PathAt(path, route) == PathAt(path + [WEIGHT], []) == path + [WEIGHT];
    assert WeightAt(path, alone, route, ZERO_WEIGHT);
    assert Undropped(path + [WEIGHT], ZERO_WEIGHT, []);
  }

  lemma WeightInList(items: seq<Tree>, path: Path)
    requires items != [] && items[0] == Pair(WEIGHT, ZERO_WEIGHT) && forall i :: 0 <= i < |items| ==> Source(items[i])
    ensures var route := [Element(0), Entry(WEIGHT)];
            Source(List(items)) && WeightAt(path, List(items), route, ZERO_WEIGHT) &&
            Undropped(path, List(items), route)
  {
    hide UniqueKeys, Ascii;
    var route := [Element(0), Entry(WEIGHT)];
    OwnPairStays(path);
    assert route[1..] == [Entry(WEIGHT)];
    assert Source(List(items)) && Below(List(items), Element(0)) == Some(items[0]);
    hide Source, Below, IsWeight, KnownDefault;
  }

  /** The same in a new list of any elements: lost exactly when nothing in the list is worth a new key. */
  lemma ZeroWeightInNewElement(key: Text, items: seq<Tree>, path: Path)
    requires Trim(key) != [] && items != [] && items[0] == Pair(WEIGHT, ZERO_WEIGHT)
    requires forall i :: 0 <= i < |items| ==> Source(items[i])
    ensures var r := Follow(MergeNode(EMPTY, Pair(key, List(items)), path), [Entry(key), Element(0), Entry(WEIGHT)]);
            if forall i :: 0 <= i < |items| ==> Vanishes(path + [key], items[i]) then r == None
            else Holds(r, ZERO_WEIGHT)
  {
    hide Source, Vanishes, NewKeyDropped, WeightAt, Undropped, Follow, MergeNode, Holds, Trim, Ascii;
    var rest := [Element(0), Entry(WEIGHT)];
    WeightInList(items, path + [key]);
    NewListDropped(items, path + [key]);
    assert [Entry(key)] + rest == [Entry(key), Element(0), Entry(WEIGHT)];
    WeightUnderNewKey(key, List(items), path, rest, ZERO_WEIGHT);
  }

  lemma NewListDropped(items: seq<Tree>, path: Path)
    requires Source(List(items)) && forall i :: 0 <= i < |items| ==> Source(items[i])
    ensures NewKeyDropped(path, List(items)) <==> forall i :: 0 <= i < |items| ==> Vanishes(path, items[i])
  {
    hide Source, ZeroValue, ListedDefault, Ascii;
  }

  /** One such list of each kind. */
  lemma ZeroWeightLostOrKept(key: Text, name: Text, path: Path)
    requires Trim(key) != [] && Trim(name) != []
    ensures var route := [Entry(key), Element(0), Entry(WEIGHT)];
            var alone, sibling := Pair(WEIGHT, ZERO_WEIGHT), Pair(name, SOMETHING);
            && Follow(MergeNode(EMPTY, Pair(key, List([alone])), path), route) == None
            && Holds(Follow(MergeNode(EMPTY, Pair(key, List([alone, sibling])), path), route), ZERO_WEIGHT)
  {
    hide Source, Vanishes, Follow, MergeNode, Holds, Trim, Pair, List, Ascii, KnownDefault;
    var alone, sibling := Pair(WEIGHT, ZERO_WEIGHT), Pair(name, SOMETHING);
    LoneWeightVanishes(path + [key]);
    SiblingHolds(name, path + [key]);
    assert [alone][0] == alone && [alone, sibling][0] == alone && [alone, sibling][1] == sibling;
    ZeroWeightInNewElement(key, [alone], path);
    ZeroWeightInNewElement(key, [alone, sibling], path);
  }

  lemma SiblingHolds(name: Text, path: Path)
    requires Trim(name) != []
    ensures Source(Pair(name, SOMETHING)) && !Vanishes(path, Pair(name, SOMETHING))
  {
    SomethingIsNoDefault(path);
    PairIsSource(name, SOMETHING);
    hide Source, Vanishes, Trim, Ascii;
    SomethingDoesNotVanish(path, Pair(name, SOMETHING), 0);
  }

  /** Whatever else stands under the new key, a weight is lost when a pair on the way is a known default. */
  lemma LostBelowPair(key: Text, value: Tree, outer: Text, inner: Tree, path: Path, rest: Route, w: Tree)
    requires Trim(key) != [] && Source(value) && Below(value, Entry(outer)) == Some(inner)
    requires WeightAt(path + [key] + [outer], inner, rest, w) && KnownDefault(path + [key] + [outer], inner)
    ensures Follow(MergeNode(EMPTY, Pair(key, value), path), [Entry(key)] + ([Entry(outer)] + rest)) == None
  {
    var childPath, route := path + [key], [Entry(outer)] + rest;
    hide Source, Below, Trim, KnownDefault, MergeNode, Holds, IsWeight;
    assert route[1..] == rest;
    WeightAtEntry(childPath, value, route, inner, w);
    assert !Undropped(childPath, value, route);
    hide Undropped, WeightAt, Follow;
    WeightUnderNewKey(key, value, path, route, w);
  }

  /** Something worth keeping beside the mapping that holds the zero weight does not save it. */
  lemma ZeroWeightBelowVanishingPair(key: Text, outer: Text, name: Text, path: Path)
    requires Trim(key) != [] && Trim(outer) != [] && Trim(name) != [] && outer != name
    ensures var value := WithPair(name, SOMETHING, Pair(outer, Pair(WEIGHT, ZERO_WEIGHT)));
            && Source(value) && !NewKeyDropped(path + [key], value)
            && Follow(MergeNode(EMPTY, Pair(key, value), path), [Entry(key), Entry(outer), Entry(WEIGHT)]) == None
  {
    var inner, childPath := Pair(WEIGHT, ZERO_WEIGHT), path + [key];
    var value := WithPair(name, SOMETHING, Pair(outer, inner));
    hide Source, Below, Vanishes, Trim, KnownDefault, NewKeyDropped, MergeNode, Follow, WeightAt, Undropped, Pair,
         WithPair, Ascii;
    OwnPairStays(childPath + [outer]);
    LoneWeightVanishes(childPath + [outer]);
    HeldBesides(name, outer, inner, childPath);
    assert [Entry(key)] + ([Entry(outer)] + [Entry(WEIGHT)]) == [Entry(key), Entry(outer), Entry(WEIGHT)];
    LostBelowPair(key, value, outer, inner, path, [Entry(WEIGHT)], ZERO_WEIGHT);
  }

  lemma HeldBesides(name: Text, outer: Text, inner: Tree, path: Path)
    requires Trim(outer) != [] && Trim(name) != [] && outer != name && Source(inner)
    ensures var value := WithPair(name, SOMETHING, Pair(outer, inner));
            Source(value) && Below(value, Entry(outer)) == Some(inner) && !NewKeyDropped(path, value)
  {
    hide Source, Vanishes, Trim, Ascii, Below, ZeroValue, ListedDefault;
    SomethingIsNoDefault(path);
    TwoPairs(name, SOMETHING, outer, inner);
    SomethingDoesNotVanish(path, WithPair(name, SOMETHING, Pair(outer, inner)), 0);
  }

  lemma TwoPairs(name: Text, something: Tree, outer: Text, inner: Tree)
    requires Trim(outer) != [] && Trim(name) != [] && outer != name && Source(something) && Source(inner)
    ensures var value := WithPair(name, something, Pair(outer, inner));
            Source(value) && Below(value, Entry(outer)) == Some(inner)
  {
    hide Trim;
    var value := WithPair(name, something, Pair(outer, inner));
    assert value.content == [Word(name), something, Word(outer), inner];
    assert Source(Word(name)) && Source(Word(outer));
    assert FindKeyFrom(value.content, outer, 2) == 2;
  }
}
