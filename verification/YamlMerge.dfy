// The in-place YAML merge (internal/config/config_yaml.go) on node objects: every operation changes the
// nodes of its destination only, and leaves it standing for what the tree functions say.
module YamlMerge {
  import opened Bytes
  import opened YamlTree
  import opened YamlAgreement
  import opened YamlDeletions
  import opened YamlNodes
  import T = YamlTree

  // ----- one tree of a forest has changed, or some were selected

  /** `out` holds the nodes at the selected positions; -1 stands for a nil. */
  predicate Chosen(content: seq<Node?>, sel: seq<int>, out: seq<Node?>) {
    |sel| == |out| && forall k :: 0 <= k < |sel| ==>
      -1 <= sel[k] < |content| && out[k] == if sel[k] == -1 then null else content[sel[k]]
  }

  /** Each node is selected at most once. */
  predicate Picked(content: seq<Node?>, sel: seq<int>, out: seq<Node?>) {
    Chosen(content, sel, out) && forall j, k :: 0 <= j < k < |sel| && sel[j] == sel[k] ==> sel[j] == -1
  }

  lemma ChosenNext(content: seq<Node?>, sel: seq<int>, out: seq<Node?>, idx: int)
    requires Chosen(content, sel, out) && -1 <= idx < |content|
    ensures Chosen(content, sel + [idx], out + [if idx >= 0 then content[idx] else null])
  {
  }

  lemma PickedForest(content: seq<Node?>, within: set<Node>, sel: seq<int>, out: seq<Node?>)
    requires Forest(content, within) && Picked(content, sel, out)
    ensures Forest(out, within)
  {
    forall j, k | 0 <= j < k < |out| && out[j] != null && out[k] != null
      ensures out[j] in within && out[k] in within && out[j].repr !! out[k].repr
    {
      if sel[j] < sel[k] {
        assert content[sel[j]].repr !! content[sel[k]].repr;
      } else {
        assert content[sel[k]].repr !! content[sel[j]].repr;
      }
    }
  }

  lemma TreesAre(content: seq<Node?>, within: set<Node>, trees: seq<Tree>)
    requires Members(content, within) && |trees| == |content| && forall i :: 0 <= i < |content| ==>
               trees[i] == TreeOf(content[i])
    ensures TreesOf(content, within) == trees
  {
  }

  // ----- copying

  /** copyNodeShallow: the node keeps its identity and takes over everything else. */
  method CopyNodeShallow(dst: Node, src: Node)
    requires dst.Valid() && src.Valid() && dst.repr !! src.repr
    modifies dst
    ensures dst.Valid() && fresh(dst.repr - {dst}) && dst.tree == src.tree && dst.kind == src.kind
  {
    hide Node.Valid, Forest, TreesOf;
    Parts(src);
    Parts(dst);
    dst.kind, dst.tag, dst.value := src.kind, src.tag, src.value;
    ghost var made;
    dst.content, made := DeepCopyAll(src.content, src.repr - {src});
    Assemble(dst, made);
  }

  // ----- pruning a new subtree

  method PruneKnownDefaults(path: Path, node: Node?)
    requires node != null ==> node.Valid()
    modifies ReprOf(node)
    ensures node != null ==> node.Valid() && node.repr == old(node.repr) && node.tree == Pruned(path, old(node.tree))
    decreases ReprOf(node), 1
  {
    if node == null { return; }
    hide Node.Valid;
    StandsFor(node);
    match node.kind {
      case Mapping => PrunePairs(path, node);
      case Sequence => PruneElements(path, node);
      case _ =>
    }
  }

  /** Prunes one tree of a forest in place; the others still stand for what they stood for. */
  method PruneChild(path: Path, content: seq<Node?>, ghost within: set<Node>, k: nat)
    requires Forest(content, within) && k < |content|
    modifies within
    ensures Forest(content, within)
    ensures TreeOf(content[k]) == Pruned(path, old(TreeOf(content[k])))
    ensures forall j :: 0 <= j < |content| && j != k ==> TreeOf(content[j]) == old(TreeOf(content[j]))
    decreases within, 2
  {
    PrunedNil(path);
    hide Pruned;
    PartWithin(content, within, k);
    PruneKnownDefaults(path, content[k]);
  }

  lemma PrunedNil(path: Path)
    ensures Pruned(path, Nil) == Nil
  {
  }

  lemma PrunedSequence(path: Path, t: Tree, trees: seq<Tree>)
    requires t.Tree? && t.kind.Sequence? && |trees| == |t.content| && forall i :: 0 <= i < |trees| ==>
               trees[i] == Pruned(path, t.content[i])
    ensures Pruned(path, t) == t.(content := trees)
  {
    assert Pruned(path, t).content == trees;
  }

  method PruneElements(path: Path, node: Node)
    requires node.Valid() && node.kind.Sequence?
    modifies node.repr
    ensures node.Valid() && node.repr == old(node.repr) && node.tree == Pruned(path, old(node.tree))
    decreases node.repr, 0
  {
    hide Node.Valid, Forest, TreesOf, Pruned;
    Parts(node);
    StandsFor(node);
    ghost var within, t := node.repr - {node}, node.tree;
    var content := node.content;
    for i := 0 to |content|
      invariant Forest(content, within)
      invariant forall j :: 0 <= j < i ==> TreeOf(content[j]) == Pruned(path, t.content[j])
      invariant forall j :: i <= j < |content| ==> TreeOf(content[j]) == t.content[j]
      modifies within
    {
      PruneChild(path, content, within, i);
    }
    Assemble(node, within);
    PrunedSequence(path, t, node.tree.content);
  }

  predicate Keeps(path: Path, key: Tree, value: Tree) {
    && key.Tree? && value.Tree? && !KnownDefault(path + [key.value], value)
    && !EmptyCollection(Pruned(path + [key.value], value))
  }

  /** Prunes the value of one pair, and says whether the pair stays. */
  method PrunePair(path: Path, content: seq<Node?>, ghost within: set<Node>, i: nat) returns (keep: bool)
    requires Forest(content, within) && i + 1 < |content|
    modifies within
    ensures Forest(content, within)
    ensures keep == Keeps(path, old(TreeOf(content[i])), old(TreeOf(content[i + 1])))
    ensures keep ==> TreeOf(content[i]).Tree? && content[i] != null && content[i + 1] != null &&
                     TreeOf(content[i + 1]) == Pruned(path + [TreeOf(content[i]).value], old(TreeOf(content[i + 1])))
    ensures forall j :: 0 <= j < |content| && j != i + 1 ==> TreeOf(content[j]) == old(TreeOf(content[j]))
    decreases within, 3
  {
    hide Node.Valid, Forest, Pruned, KnownDefault;
    var keyNode, valueNode := content[i], content[i + 1];
    PartWithin(content, within, i);
    PartWithin(content, within, i + 1);
    if keyNode == null || valueNode == null { return false; }
    StandsFor(keyNode);
    StandsFor(valueNode);
    var childPath := path + [keyNode.value];
    var known := IsKnownDefaultValue(childPath, valueNode);
    if known { return false; }
    PruneChild(childPath, content, within, i + 1);
    PartWithin(content, within, i + 1);
    StandsFor(valueNode);
    keep := !((valueNode.kind.Mapping? || valueNode.kind.Sequence?) && |valueNode.content| == 0);
  }

  /** The filter loop of pruneKnownDefaultsInNewNode, for a mapping that stands for `t`. */
  method FilterPairs(path: Path, content: seq<Node?>, ghost within: set<Node>, ghost t: Tree)
    returns (filtered: seq<Node?>, ghost sel: seq<int>)
    requires Forest(content, within) && t.Tree? && StandFor(content, t.content)
    modifies within
    ensures Forest(content, within) && Picked(content, sel, filtered)
    ensures |PrunedPairs(path, t, 0)| == |sel|
    ensures forall k :: 0 <= k < |sel| ==>
              0 <= sel[k] < |content| && PrunedPairs(path, t, 0)[k] == TreeOf(content[sel[k]])
    decreases within, 4
  {
    hide Node.Valid, Forest, Pruned, PrunedPairs, Keeps, Picked;
    ghost var trees: seq<Tree> := [];
    filtered, sel := [], [];
    PickedNone(content);
    assert [] + PrunedPairs(path, t, 0) == PrunedPairs(path, t, 0);
    var i := 0;
    while i + 1 < |content|
      invariant i <= |content| && Forest(content, within)
      invariant forall j :: i <= j < |content| ==> TreeOf(content[j]) == t.content[j]
      invariant Picked(content, sel, filtered) && |sel| == |trees| && forall k :: 0 <= k < |sel| ==> 0 <= sel[k] < i
      invariant forall k :: 0 <= k < |sel| ==> trees[k] == TreeOf(content[sel[k]])
      invariant PrunedPairs(path, t, 0) == trees + PrunedPairs(path, t, i)
      decreases |content| - i
    {
      PairStep(path, t, i);
      var keep := PrunePair(path, content, within, i);
      if keep {
        PickedTwo(content, sel, filtered, i);
        Regroup(trees, [TreeOf(content[i]), TreeOf(content[i + 1])], PrunedPairs(path, t, i + 2));
        filtered := filtered + [content[i], content[i + 1]];
        sel := sel + [i, i + 1];
        trees := trees + [TreeOf(content[i]), TreeOf(content[i + 1])];
      }
      i := i + 2;
    }
    PairStep(path, t, i);
    assert trees + [] == trees;
  }

  method PrunePairs(path: Path, node: Node)
    requires node.Valid() && node.kind.Mapping?
    modifies node.repr
    ensures node.Valid() && node.repr == old(node.repr) && node.tree == Pruned(path, old(node.tree))
    decreases node.repr, 0
  {
    hide Node.Valid, Forest, TreesOf, Pruned, PrunedPairs, Picked;
    Parts(node);
    StandsFor(node);
    ghost var within, t := node.repr - {node}, node.tree;
    var content := node.content;
    var filtered;
    ghost var sel;
    filtered, sel := FilterPairs(path, content, within, t);
    PickedForest(content, within, sel, filtered);
    ForestMembers(filtered, within);
    PickedTrees(content, sel, filtered, within, PrunedPairs(path, t, 0));
    node.content := filtered;
    Assemble(node, within);
    PrunedMapping(path, t);
  }

  lemma Regroup(a: seq<Tree>, b: seq<Tree>, c: seq<Tree>)
    ensures a + (b + c) == a + b + c
  {
  }

  lemma PickedNone(content: seq<Node?>)
    ensures Picked(content, [], [])
  {
  }

  lemma PickedTwo(content: seq<Node?>, sel: seq<int>, out: seq<Node?>, i: nat)
    requires Picked(content, sel, out) && i + 1 < |content| && forall k :: 0 <= k < |sel| ==> sel[k] < i
    ensures Picked(content, sel + [i, i + 1], out + [content[i], content[i + 1]])
  {
  }

  lemma PickedTrees(content: seq<Node?>, sel: seq<int>, out: seq<Node?>, within: set<Node>, trees: seq<Tree>)
    requires Picked(content, sel, out) && Members(out, within) && |trees| == |sel|
    requires forall k :: 0 <= k < |sel| ==> 0 <= sel[k] < |content| && trees[k] == TreeOf(content[sel[k]])
    ensures TreesOf(out, within) == trees
  {
    TreesAre(out, within, trees);
  }

  /** What the pair at `i` adds to the pruned pairs. */
  lemma PairStep(path: Path, t: Tree, i: nat)
    requires t.Tree?
    ensures i + 1 >= |t.content| ==> PrunedPairs(path, t, i) == []
    ensures i + 1 < |t.content| ==>
              var key, value := t.content[i], t.content[i + 1];
              PrunedPairs(path, t, i) ==
              if Keeps(path, key, value) then [key, Pruned(path + [key.value], value)] + PrunedPairs(path, t, i + 2)
              else PrunedPairs(path, t, i + 2)
  {
  }

  // ----- matching sequence elements

  function UsedSet(used: seq<bool>): set<nat> {
    set i: nat | i < |used| && used[i]
  }

  ghost predicate StandFor(content: seq<Node?>, trees: seq<Tree>)
    reads set i | 0 <= i < |content| && content[i] != null :: content[i]
  {
    |trees| == |content| && forall i :: 0 <= i < |content| ==>
      trees[i] == if content[i] == null then Nil else content[i].tree
  }

  method FirstByIdentity(original: seq<Node?>, ghost within: set<Node>, ghost trees: seq<Tree>, used: array<bool>,
          target: Node)
    returns (r: int)
    requires Forest(original, within) && StandFor(original, trees) && used.Length == |original| && target.Valid() &&
             target.kind.Mapping?
    ensures r == FirstUnused(trees, UsedSet(used[..]), BySameIdentity(target.tree), 0)
  {
    hide Node.Valid, Forest, Identity;
    StandsFor(target);
    var id := SequenceElementIdentity(target);
    ghost var u, p := UsedSet(used[..]), BySameIdentity(target.tree);
    if id == [] {
      NoneMatches(trees, u, p, 0);
      return -1;
    }
    for i := 0 to |original|
      invariant FirstUnused(trees, u, p, 0) == FirstUnused(trees, u, p, i)
    {
      PartWithin(original, within, i);
      assert i in u <==> used[i];
      if used[i] || original[i] == null || !original[i].kind.Mapping? {
        if original[i] != null { StandsFor(original[i]); }
        continue;
      }
      StandsFor(original[i]);
      var other := SequenceElementIdentity(original[i]);
      if other == id { return i; }
    }
    return -1;
  }

  lemma NoneMatches(trees: seq<Tree>, used: set<nat>, p: Tree -> bool, i: nat)
    requires forall t :: !p(t)
    ensures FirstUnused(trees, used, p, i) == -1
    decreases |trees| - i
  {
  }

  method FirstByValue(original: seq<Node?>, ghost within: set<Node>, ghost trees: seq<Tree>, used: array<bool>,
          target: Node)
    returns (r: int)
    requires Forest(original, within) && StandFor(original, trees) && used.Length == |original| && target.Valid() &&
             target.kind.Scalar?
    ensures r == FirstUnused(trees, UsedSet(used[..]), BySameIdentity(target.tree), 0)
  {
    hide Node.Valid, Forest, Trim;
    StandsFor(target);
    var val := Trim(target.value);
    ghost var u, p := UsedSet(used[..]), BySameIdentity(target.tree);
    if val == [] {
      NoneMatches(trees, u, p, 0);
      return -1;
    }
    for i := 0 to |original|
      invariant FirstUnused(trees, u, p, 0) == FirstUnused(trees, u, p, i)
    {
      PartWithin(original, within, i);
      assert i in u <==> used[i];
      if original[i] != null { StandsFor(original[i]); }
      if used[i] || original[i] == null || !original[i].kind.Scalar? { continue; }
      if Trim(original[i].value) == val { return i; }
    }
    return -1;
  }

  method FirstByStructure(original: seq<Node?>, ghost within: set<Node>, ghost trees: seq<Tree>, used: array<bool>,
          target: Node)
    returns (r: int)
    requires Forest(original, within) && StandFor(original, trees) && used.Length == |original| && target.Valid()
    ensures r == FirstUnused(trees, UsedSet(used[..]), ByStructure(target.tree), 0)
  {
    hide Node.Valid, Forest, StructurallyEqual;
    ghost var u, p := UsedSet(used[..]), ByStructure(target.tree);
    for i := 0 to |original|
      invariant FirstUnused(trees, u, p, 0) == FirstUnused(trees, u, p, i)
    {
      PartWithin(original, within, i);
      assert i in u <==> used[i];
      if original[i] != null { StandsFor(original[i]); }
      if used[i] || original[i] == null { continue; }
      var same := NodesStructurallyEqual(original[i], target);
      if same { return i; }
    }
    return -1;
  }

  method MatchSequenceElement(original: seq<Node?>, ghost within: set<Node>, ghost trees: seq<Tree>, used: array<bool>,
          target: Node?)
    returns (r: int)
    requires Forest(original, within) && StandFor(original, trees) && used.Length == |original|
    requires target != null ==> target.Valid()
    ensures r == MatchElement(trees, UsedSet(used[..]), TreeOf(target))
  {
    hide Node.Valid, Forest, FirstUnused, UsedSet;
    if target == null { return -1; }
    StandsFor(target);
    r := -1;
    match target.kind {
      case Mapping => r := FirstByIdentity(original, within, trees, used, target);
      case Scalar => r := FirstByValue(original, within, trees, used, target);
      case _ => NoIdentity(trees, UsedSet(used[..]), target.tree);
    }
    if r < 0 { r := FirstByStructure(original, within, trees, used, target); }
  }

  lemma NoIdentity(trees: seq<Tree>, used: set<nat>, target: Tree)
    requires target.Tree? && !target.kind.Mapping? && !target.kind.Scalar?
    ensures FirstUnused(trees, used, BySameIdentity(target), 0) == -1
  {
    NoneMatches(trees, used, BySameIdentity(target), 0);
  }

  /** The loop of reorderSequenceForMerge: each old element goes to at most one place. */
  method PickMatches(original: seq<Node?>, ghost within: set<Node>, ghost previous: seq<Tree>, src: Node)
    returns (ordered: seq<Node?>, ghost sel: seq<int>)
    requires Forest(original, within) && StandFor(original, previous) && src.Valid()
    ensures Picked(original, sel, ordered) && sel == Matches(previous, {}, src.tree.content) &&
            |ordered| == |src.tree.content|
  {
    hide Node.Valid, Forest, TreesOf, MatchElement, Matches, Chosen, UsedSet;
    StandsFor(src);
    ghost var targets := src.tree.content;
    var used := new bool[|original|](_ => false);
    ordered, sel := [], [];
    NothingUsed(used[..]);
    NothingChosen(original);
    assert targets[0..] == targets && [] + Matches(previous, {}, targets) == Matches(previous, {}, targets);
    for i := 0 to |src.content|
      invariant |ordered| == |sel| == i &&
                Matches(previous, {}, targets) == sel + Matches(previous, UsedSet(used[..]), targets[i..])
      invariant Chosen(original, sel, ordered)
      modifies used
    {
      Child(src, i);
      var idx := MatchSequenceElement(original, within, previous, used, src.content[i]);
      MatchedOne(previous, used[..], targets, sel, i, idx);
      ghost var before := used[..];
      if idx >= 0 {
        used[idx] := true;
        assert used[..] == before[idx := true];
      }
      ChosenNext(original, sel, ordered, idx);
      ordered := ordered + [if idx >= 0 then original[idx] else null];
      sel := sel + [idx];
    }
    AllMatched(previous, targets, sel, UsedSet(used[..]));
  }

  lemma NothingUsed(used: seq<bool>)
    requires forall i :: 0 <= i < |used| ==> !used[i]
    ensures UsedSet(used) == {}
  {
  }

  lemma NothingChosen(content: seq<Node?>)
    ensures Chosen(content, [], [])
  {
  }

  /** One more element is matched, and the old element it takes is used. */
  lemma MatchedOne(previous: seq<Tree>, used: seq<bool>, targets: seq<Tree>, sel: seq<int>, i: nat, idx: int)
    requires i < |targets| && |used| == |previous| && idx == MatchElement(previous, UsedSet(used), targets[i])
    requires Matches(previous, {}, targets) == sel + Matches(previous, UsedSet(used), targets[i..])
    ensures var now := if idx >= 0 then used[idx := true] else used;
            Matches(previous, {}, targets) == sel + [idx] + Matches(previous, UsedSet(now), targets[i + 1..])
  {
    hide Matches, MatchElement, UsedSet;
    var now := if idx >= 0 then used[idx := true] else used;
    MatchesNext(previous, UsedSet(used), targets, i);
    if idx >= 0 { UsedMore(used, idx); }
    assert sel + ([idx] + Matches(previous, UsedSet(now), targets[i + 1..])) ==
        sel + [idx] + Matches(previous, UsedSet(now), targets[i + 1..]);
  }

  /** Which node objects the reordering puts where: at each place the old node matched to it, with everything
      attached to that node, and a nil where nothing matches. */
  predicate NodesReordered(before: seq<Node?>, previous: seq<Tree>, targets: seq<Tree>, after: seq<Node?>) {
    if before == [] || targets == [] then after == before else Chosen(before, Matches(previous, {}, targets), after)
  }

  /** Every old node that a new element is matched to stands in that element's place. */
  predicate NodesReused(before: seq<Node?>, previous: seq<Tree>, targets: seq<Tree>, after: seq<Node?>) {
    var m := Matches(previous, {}, targets);
    |after| == |targets| && forall j :: 0 <= j < |after| && m[j] >= 0 ==> m[j] < |before| && after[j] == before[m[j]]
  }

  lemma ReorderedReused(before: seq<Node?>, previous: seq<Tree>, targets: seq<Tree>, ordered: seq<Node?>,
          after: seq<Node?>)
    requires NodesReordered(before, previous, targets, ordered) && |before| == |previous| && |after| == |targets|
    requires forall i :: 0 <= i < |before| && previous[i].Tree? ==> before[i] != null
    requires forall j :: 0 <= j < |after| && j < |ordered| && ordered[j] != null ==> after[j] == ordered[j]
    ensures NodesReused(before, previous, targets, after)
  {
    hide Matches;
    var m := Matches(previous, {}, targets);
    forall j | 0 <= j < |after| && m[j] >= 0 ensures m[j] < |before| && after[j] == before[m[j]] {
      assert previous[m[j]].Tree?;
    }
  }

  /** reorderSequenceForMerge. */
  method ReorderSequence(dst: Node, src: Node)
    requires dst.Valid() && src.Valid() && dst.repr !! src.repr
    modifies dst
    ensures dst.Valid() && dst.repr == old(dst.repr) && dst.kind == old(dst.kind)
    ensures dst.tree == old(dst.tree).(content := Reordered(old(dst.tree).content, src.tree.content))
    ensures NodesReordered(old(dst.content), old(dst.tree).content, src.tree.content, dst.content)
  {
    hide Node.Valid, Forest, TreesOf, Matches, Reordered, Chosen;
    Parts(dst);
    StandsFor(src);
    ghost var t := dst.tree;
    if |dst.content| == 0 || |src.content| == 0 {
      NothingReordered(t.content, src.tree.content);
      assert t == t.(content := t.content);
      return;
    }
    ghost var within, original := dst.repr - {dst}, dst.content;
    var ordered;
    ghost var sel;
    ordered, sel := PickMatches(dst.content, within, t.content, src);
    PickedForest(original, within, sel, ordered);
    dst.content := ordered;
    Assemble(dst, within);
    ReorderedAs(original, t.content, src.tree.content, sel, ordered, within);
  }

  lemma NothingReordered(previous: seq<Tree>, targets: seq<Tree>)
    requires previous == [] || targets == []
    ensures Reordered(previous, targets) == previous
  {
  }

  lemma UsedMore(used: seq<bool>, idx: nat)
    requires idx < |used|
    ensures UsedSet(used[idx := true]) == UsedSet(used) + {idx}
  {
  }

  lemma MatchesNext(previous: seq<Tree>, used: set<nat>, targets: seq<Tree>, i: nat)
    requires i < |targets|
    ensures var first := MatchElement(previous, used, targets[i]);
            Matches(previous, used, targets[i..]) ==
              [first] + Matches(previous, if first >= 0 then used + {first} else used, targets[i + 1..])
  {
    assert targets[i..][0] == targets[i] && targets[i..][1..] == targets[i + 1..];
  }

  lemma AllMatched(previous: seq<Tree>, targets: seq<Tree>, sel: seq<int>, used: set<nat>)
    requires |sel| == |targets| && Matches(previous, {}, targets) == sel + Matches(previous, used, targets[|targets|..])
    ensures Matches(previous, {}, targets) == sel
    ensures forall j, k :: 0 <= j < k < |sel| && sel[j] == sel[k] ==> sel[j] == -1
  {
    assert targets[|targets|..] == [] && Matches(previous, used, []) == [] && sel + [] == sel;
  }

  lemma ReorderedAs(original: seq<Node?>, previous: seq<Tree>, targets: seq<Tree>, sel: seq<int>, ordered: seq<Node?>,
          within: set<Node>)
    requires previous != [] && targets != [] && Matches(previous, {}, targets) == sel && Picked(original, sel, ordered)
    requires StandFor(original, previous) && Members(ordered, within)
    ensures TreesOf(ordered, within) == Reordered(previous, targets)
  {
  }

  // ----- removing keys

  method KeepSet(src: Node) returns (keep: set<Text>)
    requires src.Valid()
    ensures keep == TrimmedKeys(src.tree.content, 0)
  {
    hide Node.Valid, Trim;
    StandsFor(src);
    keep := {};
    var i := 0;
    while i + 1 < |src.content|
      invariant TrimmedKeys(src.tree.content, 0) == keep + TrimmedKeys(src.tree.content, i)
      decreases |src.content| - i
    {
      Child(src, i);
      if src.content[i] != null {
        var key := Trim(src.content[i].value);
        if key != [] { keep := keep + {key}; }
      }
      i := i + 2;
    }
  }

  /** The deletion loop of pruneMissingMapKeys. */
  method KeepListed(original: seq<Node?>, ghost within: set<Node>, ghost trees: seq<Tree>, keep: set<Text>)
    returns (content: seq<Node?>, ghost sel: seq<int>)
    requires Forest(original, within) && StandFor(original, trees)
    ensures Picked(original, sel, content) && |KeepKeys(trees, keep)| == |sel|
    ensures forall k :: 0 <= k < |sel| ==> 0 <= sel[k] && KeepKeys(trees, keep)[k] == trees[sel[k]]
    ensures sel == KeptFrom(trees, keep, 0)
  {
    hide Node.Valid, Forest, Trim, KeepKeys, Picked, KeptFrom;
    content, sel := original, [];
    ghost var n, kept: seq<Tree> := 0, [];
    PickedNone(original);
    assert trees[0..] == trees && original[0..] == original && [] + KeepKeys(trees, keep) == KeepKeys(trees, keep);
    var i := 0;
    while i + 1 < |content|
      invariant 0 <= i <= |content| && n <= |original| && content[i..] == original[n..]
      invariant Picked(original, sel, content[..i]) && |sel| == i && Selected(trees, sel, kept, n)
      invariant KeepKeys(trees, keep) == kept + KeepKeys(trees[n..], keep)
      invariant KeptFrom(trees, keep, 0) == sel + KeptFrom(trees, keep, n)
      decreases |content| - i
    {
      SamePair(content, i, original, n);
      PartWithin(original, within, n);
      KeepStep(trees, keep, n);
      KeptStep(trees, keep, n, sel);
      var keyNode := content[i];
      if keyNode != null { StandsFor(keyNode); }
      if keyNode == null || Trim(keyNode.value) in keep {
        PickedTwo(original, sel, content[..i], n);
        SelectedTwo(trees, sel, kept, n);
        KeepPair(content, i);
        Regroup(kept, trees[n..n + 2], KeepKeys(trees[n + 2..], keep));
        sel, kept := sel + [n, n + 1], kept + trees[n..n + 2];
        i := i + 2;
      } else {
        DropPair(content, i);
        content := content[..i] + content[i + 2..];
      }
      n := n + 2;
    }
    LastKept(original, trees, keep, n, sel, kept, content, i);
    KeptEnd(trees, keep, n, sel);
    if n < |original| {
      PickedOne(original, sel, content[..i], n);
      assert content == content[..i] + [original[n]];
      sel, kept := sel + [n], kept + [trees[n]];
    } else {
      assert content == content[..i];
    }
  }

  /** `kept` are the selected trees, all of them before `n`. */
  predicate Selected(trees: seq<Tree>, sel: seq<int>, kept: seq<Tree>, n: nat) {
    |sel| == |kept| && n <= |trees| && forall k :: 0 <= k < |sel| ==> 0 <= sel[k] < n && kept[k] == trees[sel[k]]
  }

  lemma SelectedTwo(trees: seq<Tree>, sel: seq<int>, kept: seq<Tree>, n: nat)
    requires Selected(trees, sel, kept, n) && n + 1 < |trees|
    ensures Selected(trees, sel + [n, n + 1], kept + trees[n..n + 2], n + 2)
  {
    assert trees[n..n + 2] == [trees[n], trees[n + 1]];
  }

  lemma SamePair(content: seq<Node?>, i: nat, original: seq<Node?>, n: nat)
    requires i + 1 < |content| && n <= |original| && content[i..] == original[n..]
    ensures n + 1 < |original| && content[i] == original[n] && content[i + 1] == original[n + 1] &&
            content[i + 2..] == original[n + 2..]
  {
    assert |content[i..]| == |original[n..]|;
    assert content[i] == content[i..][0] && content[i + 1] == content[i..][1];
    DropThenDrop(content, i, 2);
    DropThenDrop(original, n, 2);
  }

  lemma KeepPair(content: seq<Node?>, i: nat)
    requires i + 1 < |content|
    ensures content[..i + 2] == content[..i] + [content[i], content[i + 1]]
  {
  }

  lemma DropPair(content: seq<Node?>, i: nat)
    requires i + 1 < |content|
    ensures (content[..i] + content[i + 2..])[..i] == content[..i] &&
            (content[..i] + content[i + 2..])[i..] == content[i + 2..]
  {
  }

  lemma PickedOne(content: seq<Node?>, sel: seq<int>, out: seq<Node?>, i: nat)
    requires Picked(content, sel, out) && i < |content| && forall k :: 0 <= k < |sel| ==> sel[k] < i
    ensures Picked(content, sel + [i], out + [content[i]])
  {
  }

  lemma KeepStep(trees: seq<Tree>, keep: set<Text>, n: nat)
    requires n + 1 < |trees|
    ensures KeepKeys(trees[n..], keep) ==
            if trees[n].Nil? || Trim(trees[n].value) in keep then trees[n..n + 2] + KeepKeys(trees[n + 2..], keep)
            else KeepKeys(trees[n + 2..], keep)
  {
    assert trees[n..][2..] == trees[n + 2..] && trees[n..][..2] == trees[n..n + 2];
    hide Trim;
  }

  lemma KeptStep(trees: seq<Tree>, keep: set<Text>, n: nat, sel: seq<int>)
    requires n + 1 < |trees| && KeptFrom(trees, keep, 0) == sel + KeptFrom(trees, keep, n)
    ensures KeptFrom(trees, keep, 0) ==
            (if trees[n].Nil? || Trim(trees[n].value) in keep then sel + [n, n + 1] else sel) +
              KeptFrom(trees, keep, n + 2)
  {
    hide Trim;
    var rest := KeptFrom(trees, keep, n + 2);
    assert sel + ([n, n + 1] + rest) == sel + [n, n + 1] + rest && [] + rest == rest;
  }

  lemma KeptEnd(trees: seq<Tree>, keep: set<Text>, n: nat, sel: seq<int>)
    requires |trees| <= n + 1 && KeptFrom(trees, keep, 0) == sel + KeptFrom(trees, keep, n)
    ensures KeptFrom(trees, keep, 0) == if n < |trees| then sel + [n] else sel
  {
    assert KeptFrom(trees, keep, n) == if n < |trees| then [n] else [];
  }

  lemma LastKept(original: seq<Node?>, trees: seq<Tree>, keep: set<Text>, n: nat, sel: seq<int>, kept: seq<Tree>,
          content: seq<Node?>, i: nat)
    requires n <= |original| == |trees| && i <= |content| <= i + 1 && content[i..] == original[n..]
    requires KeepKeys(trees, keep) == kept + KeepKeys(trees[n..], keep)
    ensures KeepKeys(trees, keep) == kept + if n < |original| then [trees[n]] else []
    ensures |original| <= n + 1
  {
    assert |content[i..]| == |original[n..]|;
    assert KeepKeys(trees[n..], keep) == trees[n..];
    assert n < |trees| ==> trees[n..] == [trees[n]];
  }

  method PruneMissingMapKeys(dst: Node?, src: Node?)
    requires dst != null ==> dst.Valid()
    requires src != null ==> src.Valid()
    requires ReprOf(dst) !! ReprOf(src)
    modifies dst
    ensures dst != null ==> dst.Valid() && dst.repr == old(dst.repr)
    ensures dst != null ==> dst.tree == if src == null then old(dst.tree)
            else WithoutMissingKeys(old(dst.tree), src.tree)
    // of two mappings, exactly the nodes under keys that the source lacks are gone; the others are the same objects
    ensures dst != null && src != null && old(dst.kind).Mapping? && src.kind.Mapping? ==>
              exists sel: seq<nat> :: LeftOver(old(dst.tree).content, src.tree.content, sel, dst.tree.content) &&
                                      NodesLeft(old(dst.content), sel, dst.content)
  {
    hide Node.Valid, Forest, TreesOf, KeepKeys, TrimmedKeys, KeptFrom, LeftFrom, LeftOver;
    if dst == null || src == null { return; }
    Parts(dst);
    StandsFor(src);
    if !dst.kind.Mapping? || !src.kind.Mapping? { return; }
    ghost var within, t, original := dst.repr - {dst}, dst.tree, dst.content;
    var keep := KeepSet(src);
    var content;
    ghost var sel;
    content, sel := KeepListed(dst.content, within, t.content, keep);
    PickedForest(original, within, sel, content);
    dst.content := content;
    Assemble(dst, within);
    KeptTrees(original, sel, content, within, t.content, KeepKeys(t.content, keep));
    WithoutMissingLeaves(t, src.tree);
    assert NodesLeft(original, KeptFrom(t.content, keep, 0), content);
  }

  ghost predicate NodesLeft(before: seq<Node?>, sel: seq<nat>, after: seq<Node?>) {
    |after| == |sel| && forall k :: 0 <= k < |sel| ==> sel[k] < |before| && after[k] == before[sel[k]]
  }

  lemma KeptTrees(original: seq<Node?>, sel: seq<int>, content: seq<Node?>, within: set<Node>, trees: seq<Tree>,
          kept: seq<Tree>)
    requires Picked(original, sel, content) && StandFor(original, trees) && Members(content, within) && |kept| == |sel|
    requires forall k :: 0 <= k < |sel| ==> 0 <= sel[k] && kept[k] == trees[sel[k]]
    ensures TreesOf(content, within) == kept
  {
    TreesAre(content, within, kept);
  }

  // ----- the merge

  /** Merges one tree of a forest in place: no other tree is disturbed. */
  method MergeChild(content: seq<Node?>, ghost within: set<Node>, k: nat, src: Node?, path: Path)
    returns (ghost wider: set<Node>)
    requires Forest(content, within) && k < |content| && content[k] != null
    requires src != null ==> src.Valid()
    requires within !! ReprOf(src)
    modifies within
    ensures Forest(content, wider) && within <= wider && fresh(wider - within)
    ensures TreeOf(content[k]) == T.MergeNode(old(TreeOf(content[k])), TreeOf(src), path)
    ensures forall j :: 0 <= j < |content| && j != k ==> TreeOf(content[j]) == old(TreeOf(content[j]))
    decreases ReprOf(src), 6
  {
    hide T.MergeNode;
    PartWithin(content, within, k);
    MergeNodePreserve(content[k], src, path);
    wider := within + content[k].repr;
  }

  /** mergeNodePreserve. */
  method MergeNodePreserve(dst: Node?, src: Node?, path: Path)
    requires dst != null ==> dst.Valid()
    requires src != null ==> src.Valid()
    requires ReprOf(dst) !! ReprOf(src)
    modifies ReprOf(dst)
    ensures dst != null ==>
              dst.Valid() && fresh(dst.repr - old(dst.repr)) &&
              dst.tree == T.MergeNode(old(dst.tree), TreeOf(src), path)
    // the nodes of the old children stay: keys and values in place, elements where they are matched
    ensures dst != null && src != null && old(dst.kind).Mapping? && src.kind.Mapping? ==>
              old(dst.content) <= dst.content
    ensures dst != null && src != null && old(dst.kind).Sequence? && src.kind.Sequence? ==>
              NodesReused(old(dst.content), old(dst.tree).content, src.tree.content, dst.content)
    decreases ReprOf(src), 5
  {
    if dst == null || src == null { return; }
    hide Node.Valid, Forest, TreesOf, T.MergeMapping, T.MergePairs, T.MergeElements, Reordered, NodesReused, Matches;
    StandsFor(dst);
    StandsFor(src);
    match src.kind {
      case Mapping =>
        MergeMappingNode(dst, src, path);
      case Sequence =>
        if dst.kind.Scalar? && dst.tag == NULL && |src.content| == 0 { return; }
        MergeSequence(dst, src, path);
      case Scalar => TakeScalar(dst, src);
      case Alias => TakeScalar(dst, src);
      case Unset =>
      case Document => CopyNodeShallow(dst, src);
    }
  }

  /** A mapping replaces a node of another kind and is merged into a mapping. */
  method MergeMappingNode(dst: Node, src: Node, path: Path)
    requires dst.Valid() && src.Valid() && dst.repr !! src.repr && src.kind.Mapping? && dst.tree.Tree?
    modifies dst.repr
    ensures dst.Valid() && fresh(dst.repr - old(dst.repr)) && dst.tree == T.MergeNode(old(dst.tree), src.tree, path)
    ensures old(dst.kind).Mapping? ==> old(dst.content) <= dst.content
    decreases src.repr, 4
  {
    hide Node.Valid, Forest, TreesOf, T.MergeMapping;
    Parts(dst);
    Parts(src);
    StandsFor(dst);
    StandsFor(src);
    if !dst.kind.Mapping? { CopyNodeShallow(dst, src); }
    StandsFor(dst);
    MergeMappingPreserve(dst, src, path);
  }

  /** A scalar or alias takes over kind, tag and value; the content stays. */
  method TakeScalar(dst: Node, src: Node)
    requires dst.Valid() && src.Valid() && dst.repr !! src.repr
    modifies dst
    ensures dst.Valid() && dst.repr == old(dst.repr)
    ensures dst.tree == Tree(src.kind, src.tag, src.value, old(dst.tree).content)
  {
    hide Node.Valid, Forest, TreesOf;
    Parts(dst);
    ghost var within := dst.repr - {dst};
    dst.kind, dst.tag, dst.value := src.kind, src.tag, src.value;
    Assemble(dst, within);
  }

  /** mergeMappingPreserve. */
  method MergeMappingPreserve(dst: Node, src: Node, path: Path)
    requires dst.Valid() && src.Valid() && dst.repr !! src.repr
    modifies dst.repr
    ensures dst.Valid() && fresh(dst.repr - old(dst.repr)) && dst.tree == T.MergeMapping(old(dst.tree), src.tree, path)
    // existing key and value nodes stay in place, with everything attached to them
    ensures old(dst.kind).Mapping? && src.kind.Mapping? ==> old(dst.content) <= dst.content
    decreases src.repr, 3
  {
    hide Node.Valid, T.MergePair, T.MergePairs;
    StandsFor(dst);
    StandsFor(src);
    Parts(dst);
    Parts(src);
    ghost var t, s := dst.tree, src.tree;
    if !dst.kind.Mapping? || !src.kind.Mapping? {
      CopyNodeShallow(dst, src);
      return;
    }
    var i := 0;
    while i + 1 < |src.content|
      invariant dst.Valid() && src.Valid() && src.tree == s && |src.content| == |s.content| && src.repr == old(src.repr)
      invariant old(dst.content) <= dst.content
      invariant dst.kind.Mapping? && src in src.repr && dst.repr !! src.repr && fresh(dst.repr - old(dst.repr))
      invariant dst.tree.Tree? && T.MergePairs(t, s, 0, path) == T.MergePairs(dst.tree, s, i, path)
      decreases |src.content| - i
    {
      PairsStep(dst.tree, s, i, path);
      MergePair(dst, src, i, path);
      StandsFor(dst);
      StandsFor(src);
      i := i + 2;
    }
    PairsStep(dst.tree, s, i, path);
  }

  lemma PairsStep(dst: Tree, src: Tree, i: nat, path: Path)
    requires dst.Tree? && src.Tree?
    ensures T.MergePairs(dst, src, i, path) == if i + 1 >= |src.content| then dst
            else T.MergePairs(T.MergePair(dst, src, i, path), src, i + 2, path)
  {
    hide T.MergePair;
  }

  /** One pair of the source. A parsed source has no nil keys, on which the original would fail. */
  method MergePair(dst: Node, src: Node, i: nat, path: Path)
    requires dst.Valid() && src.Valid() && dst.repr !! src.repr && i + 1 < |src.content|
    requires dst.tree.Tree? && src.tree.Tree? && |src.tree.content| == |src.content| && dst.kind.Mapping?
    modifies dst.repr
    ensures dst.Valid() && fresh(dst.repr - old(dst.repr)) && dst.tree == T.MergePair(old(dst.tree), src.tree, i, path)
    ensures old(dst.content) <= dst.content
    decreases src.repr, 2
  {
    hide Node.Valid, T.MergePair, FindKeyFrom;
    Child(src, i);
    Child(src, i + 1);
    Parts(src);
    Parts(dst);
    StandsFor(dst);
    var sk, sv := src.content[i], src.content[i + 1];
    NilKey(dst.tree, src.tree, i, path);
    if sk == null { return; }
    var idx := FindMapKeyIndex(dst, sk.value);
    if idx >= 0 {
      MergeExisting(dst, sv, idx, path + [sk.value]);
    } else {
      AppendNew(dst, sk, sv, path + [sk.value]);
    }
  }

  lemma NilKey(dst: Tree, src: Tree, i: nat, path: Path)
    requires dst.Tree? && src.Tree? && i + 1 < |src.content|
    ensures var key, value := src.content[i], src.content[i + 1];
            T.MergePair(dst, src, i, path) ==
            if key.Nil? then dst
            else MergedPair(dst, key, value, FindKey(dst.content, key.value), path + [key.value])
  {
    hide T.MergeNode, KnownDefault, Pruned, FindKeyFrom;
  }

  function MergedPair(dst: Tree, key: Tree, value: Tree, at: int, childPath: Path): Tree
    requires dst.Tree? && (at == -1 || 0 <= at < |dst.content| - 1)
  {
    if at >= 0 then dst.(content := dst.content[at + 1 := T.MergeNode(dst.content[at + 1], value, childPath)])
    else
      var candidate := Pruned(childPath, value);
      if KnownDefault(childPath, candidate) then dst else dst.(content := dst.content + [key, candidate])
  }

  method MergeExisting(dst: Node, sv: Node?, at: nat, childPath: Path)
    requires dst.Valid() && at + 1 < |dst.content| && dst.tree.Tree? && |dst.tree.content| == |dst.content|
    requires sv != null ==> sv.Valid()
    requires dst.repr !! ReprOf(sv)
    modifies dst.repr
    ensures dst.Valid() && fresh(dst.repr - old(dst.repr)) && dst.content == old(dst.content)
    ensures var t := old(dst.tree);
            dst.tree == t.(content := t.content[at + 1 := T.MergeNode(t.content[at + 1], TreeOf(sv), childPath)])
    decreases ReprOf(sv), 7
  {
    hide Node.Valid, Forest, TreesOf, T.MergeNode;
    Parts(dst);
    if sv != null { Parts(sv); }
    NilNode(TreeOf(sv), childPath);
    ghost var within, t := dst.repr - {dst}, dst.tree;
    var content := dst.content;
    if content[at + 1] == null {
      assert t.content[at + 1 := Nil] == t.content;
      return;
    }
    assert StandFor(content, t.content);
    ghost var merged := T.MergeNode(t.content[at + 1], TreeOf(sv), childPath);
    ghost var wider := MergeChild(content, within, at + 1, sv, childPath);
    ForestMembers(content, wider);
    TreesAre(content, wider, t.content[at + 1 := merged]);
    Assemble(dst, wider);
  }

  lemma NilNode(src: Tree, path: Path)
    ensures T.MergeNode(Nil, src, path) == Nil
  {
  }

  method AppendNew(dst: Node, sk: Node, sv: Node?, childPath: Path)
    requires dst.Valid() && sk.Valid() && dst.tree.Tree?
    requires sv != null ==> sv.Valid()
    requires dst.repr !! sk.repr && dst.repr !! ReprOf(sv)
    modifies dst
    ensures dst.Valid() && fresh(dst.repr - old(dst.repr)) && old(dst.content) <= dst.content
    ensures var candidate := Pruned(childPath, TreeOf(sv));
            dst.tree == if KnownDefault(childPath, candidate) then old(dst.tree)
            else old(dst.tree).(content := old(dst.tree).content + [sk.tree, candidate])
  {
    hide Node.Valid, Forest, TreesOf, Pruned, KnownDefault;
    PrunedNil(childPath);
    Parts(dst);
    Parts(sk);
    if sv != null { Parts(sv); }
    var candidate := DeepCopy(sv);
    PruneKnownDefaults(childPath, candidate);
    var known := IsKnownDefaultValue(childPath, candidate);
    if known { return; }
    var key := DeepCopy(sk);
    AppendPair(dst, key, candidate);
  }

  method AppendPair(dst: Node, key: Node, candidate: Node?)
    requires dst.Valid() && key.Valid() && dst.tree.Tree?
    requires candidate != null ==> candidate.Valid()
    requires dst.repr !! key.repr && dst.repr !! ReprOf(candidate) && key.repr !! ReprOf(candidate)
    modifies dst
    ensures dst.Valid() && dst.repr == old(dst.repr) + key.repr + ReprOf(candidate) &&
            dst.content == old(dst.content) + [key, candidate]
    ensures dst.tree == old(dst.tree).(content := old(dst.tree).content + [key.tree, TreeOf(candidate)])
  {
    hide Node.Valid, Forest, TreesOf;
    Parts(dst);
    Parts(key);
    if candidate != null { Parts(candidate); }
    ghost var within, trees := dst.repr - {dst}, dst.tree.content + [key.tree, TreeOf(candidate)];
    assert StandFor(dst.content, dst.tree.content);
    Grown(dst.content, within, key, key.repr);
    Grown(dst.content + [key], within + key.repr, candidate, ReprOf(candidate));
    var content := dst.content + [key] + [candidate];
    assert content == dst.content + [key, candidate];
    ghost var wider := within + key.repr + ReprOf(candidate);
    ForestMembers(content, wider);
    TreesAre(content, wider, trees);
    dst.content := content;
    Assemble(dst, wider);
  }

  method MergeSequence(dst: Node, src: Node, path: Path)
    requires dst.Valid() && src.Valid() && dst.repr !! src.repr && src.tree.Tree? && dst.tree.Tree?
    modifies dst.repr
    ensures dst.Valid() && fresh(dst.repr - old(dst.repr))
    ensures var base := if old(dst.tree).kind.Sequence? then old(dst.tree)
            else old(dst.tree).(kind := Sequence, tag := SEQ, content := []);
            dst.tree == base.(content := T.MergeElements(Reordered(base.content, src.tree.content), src.tree, 0, path))
    ensures old(dst.kind).Sequence? ==>
              NodesReused(old(dst.content), old(dst.tree).content, src.tree.content, dst.content)
    decreases src.repr, 3
  {
    hide Node.Valid, Forest, TreesOf, T.MergeElements, Reordered, NodesReordered, NodesReused;
    Parts(dst);
    Parts(src);
    ghost var t, s := dst.tree, src.tree;
    ghost var before := dst.content;
    assert forall j :: 0 <= j < |before| && t.content[j].Tree? ==> before[j] != null;
    if !dst.kind.Sequence? {
      dst.kind, dst.tag, dst.content := Sequence, SEQ, [];
      EmptyForest();
      Assemble(dst, {});
    }
    ReorderSequence(dst, src);
    Parts(dst);
    ghost var within, previous, ordered := dst.repr - {dst}, dst.tree.content, dst.content;
    var content;
    ghost var wider;
    content, wider := MergeElementsInPlace(dst.content, within, previous, src, path);
    dst.content := content;
    Assemble(dst, wider);
    TreesAre(content, wider, T.MergeElements(previous, s, 0, path));
    if t.kind.Sequence? { ReorderedReused(before, t.content, s.content, ordered, content); }
  }

  lemma EmptyForest()
    ensures Forest([], {}) && Members([], {}) && TreesOf([], {}) == []
  {
  }

  /** The element loops of mergeNodePreserve: merge, append, truncate. */
  method MergeElementsInPlace(before: seq<Node?>, ghost within: set<Node>, ghost previous: seq<Tree>, src: Node,
          path: Path)
    returns (content: seq<Node?>, ghost wider: set<Node>)
    requires Forest(before, within) && StandFor(before, previous) && src.Valid() && src.tree.Tree? && within !! src.repr
    modifies within
    ensures Forest(content, wider) && within <= wider && fresh(wider - within) && |content| == |src.tree.content|
    ensures forall j :: 0 <= j < |content| ==> TreeOf(content[j]) == T.MergeElements(previous, src.tree, 0, path)[j]
    ensures forall j :: 0 <= j < |content| && j < |before| && before[j] != null ==> content[j] == before[j]
    decreases src.repr, 2
  {
    hide Node.Valid, Forest, T.MergeElements, T.MergeElement;
    Parts(src);
    StandsFor(src);
    ghost var s := src.tree;
    content, wider := before, within;
    var n := if |src.content| < |before| then |src.content| else |before|;
    for i := 0 to n
      invariant |content| == |before| && Forest(content, wider) && within <= wider && fresh(wider - within) &&
                wider !! src.repr
      invariant src.Valid() && src.tree == s && src.repr == old(src.repr) && |src.content| == |s.content|
      invariant forall j :: 0 <= j < i ==> TreeOf(content[j]) == T.MergeElement(previous[j], s, j, path)
      invariant forall j :: i <= j < |content| ==> TreeOf(content[j]) == previous[j]
      invariant forall j :: 0 <= j < |before| && before[j] != null ==> content[j] == before[j]
    {
      content, wider := MergeElementAt(content, wider, i, src, path);
    }
    while |content| < |src.content|
      invariant n <= |content| && Forest(content, wider) && within <= wider && fresh(wider - within) &&
                wider !! src.repr
      invariant |content| > |src.content| ==> n == |src.content|
      invariant src.Valid() && src.tree == s && src.repr == old(src.repr) && |src.content| == |s.content|
      invariant forall j :: 0 <= j < |content| && j < |s.content| ==>
                  TreeOf(content[j]) == T.MergeElement(if j < |previous| then previous[j] else Nil, s, j, path)
      invariant |before| <= |content| && forall j :: 0 <= j < |before| && before[j] != null ==> content[j] == before[j]
      decreases |src.content| - |content|
    {
      content, wider := AppendCopy(content, wider, |content|, src, path);
    }
    if |src.content| < |content| {
      PrefixForest(content, wider, |src.content|);
      content := content[..|src.content|];
    }
    forall j | 0 <= j < |content| ensures TreeOf(content[j]) == T.MergeElements(previous, s, 0, path)[j] {
      ElementAt(previous, s, 0, path, j);
    }
  }

  lemma PrefixForest(content: seq<Node?>, within: set<Node>, n: nat)
    requires Forest(content, within) && n <= |content|
    ensures Forest(content[..n], within)
  {
  }

  method MergeElementAt(before: seq<Node?>, ghost within: set<Node>, i: nat, src: Node, path: Path)
    returns (content: seq<Node?>, ghost wider: set<Node>)
    requires Forest(before, within) && i < |before| && src.Valid() && within !! src.repr
    requires src.tree.Tree? && i < |src.content| == |src.tree.content|
    modifies within
    ensures Forest(content, wider) && within <= wider && fresh(wider - within) && |content| == |before|
    ensures TreeOf(content[i]) == T.MergeElement(old(TreeOf(before[i])), src.tree, i, path)
    ensures before[i] != null ==> content[i] == before[i]
    ensures forall j :: 0 <= j < |content| && j != i ==>
              content[j] == before[j] && TreeOf(content[j]) == old(TreeOf(before[j]))
    decreases src.repr, 1
  {
    hide Node.Valid, Forest, T.MergeNode;
    Child(src, i);
    Parts(src);
    if src.content[i] != null { Parts(src.content[i]); }
    if before[i] == null {
      var cp := DeepCopy(src.content[i]);
      if cp != null { Parts(cp); }
      FilledForest(before, within, i, cp, ReprOf(cp));
      return before[i := cp], within + ReprOf(cp);
    }
    content := before;
    PartWithin(content, within, i);
    StandsFor(content[i]);
    wider := MergeChild(content, within, i, src.content[i], path);
    PartWithin(content, wider, i);
    StandsFor(content[i]);
    if src.content[i] != null && content[i].kind.Mapping? && src.content[i].kind.Mapping? {
      PruneChildKeys(content, wider, i, src.content[i]);
    }
  }

  lemma FilledForest(content: seq<Node?>, within: set<Node>, i: nat, cp: Node?, more: set<Node>)
    requires Forest(content, within) && i < |content| && within !! more
    requires cp != null ==> cp in more && cp.repr <= more && cp.Valid()
    ensures Forest(content[i := cp], within + more)
  {
  }

  method PruneChildKeys(content: seq<Node?>, ghost within: set<Node>, k: nat, src: Node)
    requires Forest(content, within) && k < |content| && content[k] != null && src.Valid() && within !! src.repr
    modifies within
    ensures Forest(content, within)
    ensures TreeOf(content[k]) == WithoutMissingKeys(old(TreeOf(content[k])), src.tree)
    ensures forall j :: 0 <= j < |content| && j != k ==> TreeOf(content[j]) == old(TreeOf(content[j]))
  {
    hide WithoutMissingKeys;
    PartWithin(content, within, k);
    PruneMissingMapKeys(content[k], src);
  }

  method AppendCopy(before: seq<Node?>, ghost within: set<Node>, i: nat, src: Node, path: Path)
    returns (content: seq<Node?>, ghost wider: set<Node>)
    requires Forest(before, within) && i == |before| && src.Valid() && within !! src.repr
    requires src.tree.Tree? && i < |src.content| == |src.tree.content|
    ensures Forest(content, wider) && within <= wider && fresh(wider - within) && |content| == |before| + 1
    ensures TreeOf(content[i]) == T.MergeElement(Nil, src.tree, i, path)
    ensures forall j :: 0 <= j < |before| ==> content[j] == before[j]
  {
    hide Node.Valid, Forest;
    Child(src, i);
    var cp := DeepCopy(src.content[i]);
    if cp != null { Parts(cp); }
    Grown(before, within, cp, ReprOf(cp));
    content, wider := before + [cp], within + ReprOf(cp);
  }

  /** The merge of a generated configuration into the one on disk: in place, and afterwards they agree. */
  method MergeGenerated(original: Node, generated: Node)
    requires original.Valid() && generated.Valid() && original.repr !! generated.repr
    requires original.kind.Mapping? && generated.kind.Mapping? && Target(original.tree) && Source(generated.tree)
    modifies original.repr
    ensures original.Valid() && generated.Valid() && generated.tree == old(generated.tree)
    ensures Agrees(original.tree, generated.tree, []) && old(original.content) <= original.content
    ensures NoStaleKeys(original.tree, generated.tree, false)
  {
    hide Node.Valid, Agrees, T.MergeMapping, Target, Source, NoStaleKeys;
    StandsFor(original);
    StandsFor(generated);
    Parts(generated);
    MergeAgrees(original.tree, generated.tree, []);
    MergeLeavesNoStaleKeys(original.tree, generated.tree, []);
    RootMerge(original.tree, generated.tree);
    MergeMappingPreserve(original, generated, []);
  }

  lemma RootMerge(dst: Tree, src: Tree)
    requires IsMapping(dst) && IsMapping(src)
    ensures T.MergeNode(dst, src, []) == T.MergeMapping(dst, src, [])
  {
    hide T.MergeMapping;
  }
}
