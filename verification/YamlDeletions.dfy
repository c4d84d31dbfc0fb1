// Keys that the generated configuration no longer has (pruneMissingMapKeys and its place in the merge,
// internal/config/config_yaml.go): list elements lose them, other mappings keep theirs.
module YamlDeletions {
  import opened Bytes
  import opened YamlTree
  import opened YamlAgreement
  import opened YamlWeights

  /** The trimmed text is that of a key, and not blank. */
  predicate HasKey(content: seq<Tree>, key: Text) {
    key != [] && exists i :: 0 <= i < |content| - 1 && i % 2 == 0 && content[i].Tree? && Trim(content[i].value) == key
  }

  // ----- what is left of a list of pairs

  /** The node at `i` stays: a nil key, a key the source has too, the value of such a key, or a last node
      without partner. */
  predicate Stays(before: seq<Tree>, src: seq<Tree>, i: nat)
    requires i < |before|
  {
    var k := i - i % 2;
    k + 1 >= |before| || before[k].Nil? || HasKey(src, Trim(before[k].value))
  }

  /** `after` consists of exactly the nodes from `n` on that stay, in order. */
  ghost predicate LeftFrom(before: seq<Tree>, src: seq<Tree>, n: nat, sel: seq<nat>, after: seq<Tree>) {
    && |after| == |sel|
    && (forall k :: 0 <= k < |sel| ==> n <= sel[k] < |before| && after[k] == before[sel[k]])
    && (forall j, k :: 0 <= j < k < |sel| ==> sel[j] < sel[k])
    && (forall i :: n <= i < |before| ==> (i in sel <==> Stays(before, src, i)))
  }

  ghost predicate LeftOver(before: seq<Tree>, src: seq<Tree>, sel: seq<nat>, after: seq<Tree>) {
    LeftFrom(before, src, 0, sel, after)
  }

  /** The positions that KeepKeys keeps. */
  function KeptFrom(before: seq<Tree>, keep: set<Text>, n: nat): seq<nat>
    decreases |before| - n
  {
    if n >= |before| then []
    else if n + 1 == |before| then [n]
    else (if before[n].Nil? || Trim(before[n].value) in keep then [n, n + 1] else []) + KeptFrom(before, keep, n + 2)
  }

  lemma {:induction false} TrimmedKeysAre(content: seq<Tree>, i: nat, key: Text)
    requires i % 2 == 0
    ensures key in TrimmedKeys(content, i) <==>
              key != [] && exists j :: i <= j < |content| - 1 && j % 2 == 0 && content[j].Tree? &&
                                       Trim(content[j].value) == key
    decreases |content| - i
  {
    hide Trim;
    if i + 1 < |content| {
      TrimmedKeysAre(content, i + 2, key);
      if j :| i <= j < |content| - 1 && j % 2 == 0 && content[j].Tree? && Trim(content[j].value) == key {
        assert j == i || j >= i + 2;
      }
    }
  }

  lemma KeyInSource(src: seq<Tree>, key: Text)
    ensures key in TrimmedKeys(src, 0) <==> HasKey(src, key)
  {
    hide Trim;
    TrimmedKeysAre(src, 0, key);
  }

  /** KeepKeys leaves exactly the nodes that stay. */
  lemma {:induction false} KeptAreLeft(before: seq<Tree>, src: seq<Tree>, n: nat)
    requires n % 2 == 0 && n <= |before|
    ensures var keep := TrimmedKeys(src, 0);
            LeftFrom(before, src, n, KeptFrom(before, keep, n), KeepKeys(before[n..], keep))
    decreases |before| - n
  {
    hide HasKey, TrimmedKeys, Trim;
    if n + 1 < |before| {
      hide LeftFrom, KeptFrom, KeepKeys, Stays;
      var keep := TrimmedKeys(src, 0);
      KeptAreLeft(before, src, n + 2);
      KeptUnfolds(before, src, n);
      var rest, after := KeptFrom(before, keep, n + 2), KeepKeys(before[n + 2..], keep);
      if Stays(before, src, n) {
        PairStays(before, src, n, rest, after);
      } else {
        PairGoes(before, src, n, rest, after);
      }
    }
  }

  lemma KeptUnfolds(before: seq<Tree>, src: seq<Tree>, n: nat)
    requires n % 2 == 0 && n + 1 < |before|
    ensures var keep := TrimmedKeys(src, 0);
            var rest, after := KeptFrom(before, keep, n + 2), KeepKeys(before[n + 2..], keep);
            && KeptFrom(before, keep, n) == (if Stays(before, src, n) then [n, n + 1] + rest else rest)
            && KeepKeys(before[n..], keep) ==
               if Stays(before, src, n) then [before[n], before[n + 1]] + after else after
  {
    hide HasKey, TrimmedKeys, Trim;
    var keep := TrimmedKeys(src, 0);
    var rest, after := KeptFrom(before, keep, n + 2), KeepKeys(before[n + 2..], keep);
    if before[n].Tree? { KeyInSource(src, Trim(before[n].value)); }
    assert before[n..][2..] == before[n + 2..] && before[n..][..2] == [before[n], before[n + 1]];
    assert [] + rest == rest && [] + after == after;
  }

  lemma PairGoes(before: seq<Tree>, src: seq<Tree>, n: nat, rest: seq<nat>, after: seq<Tree>)
    requires n % 2 == 0 && n + 1 < |before| && LeftFrom(before, src, n + 2, rest, after) && !Stays(before, src, n)
    ensures LeftFrom(before, src, n, rest, after)
  {
    hide Stays;
    SameForValue(before, src, n);
    forall i | n <= i < |before| ensures i in rest <==> Stays(before, src, i) {
      assert i == n || i == n + 1 || i >= n + 2;
    }
  }

  lemma PairStays(before: seq<Tree>, src: seq<Tree>, n: nat, rest: seq<nat>, after: seq<Tree>)
    requires n % 2 == 0 && n + 1 < |before| && LeftFrom(before, src, n + 2, rest, after) && Stays(before, src, n)
    ensures LeftFrom(before, src, n, [n, n + 1] + rest, [before[n], before[n + 1]] + after)
  {
    hide Stays;
    SameForValue(before, src, n);
    var sel, now := [n, n + 1] + rest, [before[n], before[n + 1]] + after;
    forall i | n <= i < |before| ensures i in sel <==> Stays(before, src, i) {
      assert i in sel <==> i == n || i == n + 1 || i in rest;
    }
    forall k | 0 <= k < |sel| ensures n <= sel[k] < |before| && now[k] == before[sel[k]] {
      if k >= 2 { assert sel[k] == rest[k - 2] && now[k] == after[k - 2]; }
    }
    forall j, k | 0 <= j < k < |sel| ensures sel[j] < sel[k] {
      if j >= 2 { assert sel[j] == rest[j - 2] && sel[k] == rest[k - 2]; }
    }
  }

  lemma SameForValue(before: seq<Tree>, src: seq<Tree>, n: nat)
    requires n % 2 == 0 && n + 1 < |before|
    ensures Stays(before, src, n + 1) <==> Stays(before, src, n)
  {
    hide Trim, HasKey;
  }

  /** What is removed is exactly what the source lacks. */
  lemma WithoutMissingLeaves(dst: Tree, src: Tree)
    requires IsMapping(dst) && IsMapping(src)
    ensures var r := WithoutMissingKeys(dst, src);
            LeftOver(dst.content, src.content, KeptFrom(dst.content, TrimmedKeys(src.content, 0), 0), r.content)
  {
    hide TrimmedKeys, KeepKeys, KeptFrom, LeftFrom;
    KeptAreLeft(dst.content, src.content, 0);
    assert dst.content[0..] == dst.content;
  }

  // ----- the law of the merge

  predicate OnlyKeysOf(content: seq<Tree>, src: seq<Tree>) {
    forall j :: 0 <= j < |content| - 1 && j % 2 == 0 && content[j].Tree? ==> HasKey(src, Trim(content[j].value))
  }

  /** No list element of `t` has a key that the element of the source in its place lacks, at any depth that the
      source reaches; `element`: whether `t` itself is such an element. */
  predicate NoStaleKeys(t: Tree, src: Tree, element: bool)
    requires Source(src)
    decreases src
  {
    t.Tree? && t.kind == src.kind ==>
    match src.kind
    case Sequence =>
      forall i :: 0 <= i < |src.content| && i < |t.content| ==> NoStaleKeys(t.content[i], src.content[i], true)
    case Mapping =>
      && (element ==> OnlyKeysOf(t.content, src.content))
      && forall i :: 0 <= i < |src.content| - 1 && i % 2 == 0 ==> PairNotStale(t.content, src, i)
    case _ => true
  }

  predicate PairNotStale(content: seq<Tree>, src: Tree, i: nat)
    requires Source(src) && i + 1 < |src.content|
    decreases src, 0
  {
    assert Source(src.content[i]) && Source(src.content[i + 1]);
    var at := FindKey(content, Key(src, i));
    at >= 0 ==> NoStaleKeys(content[at + 1], src.content[i + 1], false)
  }

  lemma MappingNotStale(t: Tree, src: Tree, element: bool)
    requires Source(src) && IsMapping(src) && IsMapping(t) && (element ==> OnlyKeysOf(t.content, src.content))
    requires forall i :: 0 <= i < |src.content| - 1 && i % 2 == 0 ==> PairNotStale(t.content, src, i)
    ensures NoStaleKeys(t, src, element)
  {
    hide UniqueKeys, OnlyKeysOf, PairNotStale;
  }

  lemma FoundNotStale(content: seq<Tree>, src: Tree, i: nat, present: bool, value: Tree)
    requires Source(src) && i + 1 < |src.content| && src.content[i].Tree? && Source(src.content[i + 1])
    requires Found(content, Key(src, i), present, value)
    requires present ==> NoStaleKeys(value, src.content[i + 1], false)
    ensures PairNotStale(content, src, i)
  {
    hide Source, FindKeyFrom, NoStaleKeys;
  }

  lemma OwnKeys(src: Tree)
    requires Source(src) && IsMapping(src)
    ensures OnlyKeysOf(src.content, src.content)
  {
    hide Trim;
    forall j | 0 <= j < |src.content| - 1 && j % 2 == 0 && src.content[j].Tree?
      ensures HasKey(src.content, Trim(src.content[j].value))
    {
      PairInSource(src, j);
    }
  }

  /** A source as it stands. */
  lemma {:induction false} SelfNotStale(src: Tree, element: bool)
    requires Source(src)
    ensures NoStaleKeys(src, src, element)
    decreases src, 1
  {
    if src.kind.Sequence? {
      hide UniqueKeys;
      forall i | 0 <= i < |src.content| ensures NoStaleKeys(src.content[i], src.content[i], true) {
        SelfNotStale(src.content[i], true);
      }
    } else if src.kind.Mapping? {
      hide Source, NoStaleKeys, PairNotStale, OnlyKeysOf;
      OwnKeys(src);
      forall i | 0 <= i < |src.content| - 1 && i % 2 == 0 ensures PairNotStale(src.content, src, i) {
        SelfPairNotStale(src, i);
      }
      MappingNotStale(src, src, element);
    }
  }

  lemma {:induction false} SelfPairNotStale(src: Tree, i: nat)
    requires Source(src) && IsMapping(src) && i % 2 == 0 && i + 1 < |src.content|
    ensures PairNotStale(src.content, src, i)
    decreases src, 0
  {
    PairInSource(src, i);
    FindOwnKey(src, i);
    hide Source, FindKeyFrom, NoStaleKeys;
    SelfNotStale(src.content[i + 1], false);
  }

  lemma {:induction false} PrunedKeysFrom(path: Path, src: Tree, i: nat)
    requires IsMapping(src) && Source(src) && i % 2 == 0 && i <= |src.content|
    ensures |PrunedPairs(path, src, i)| % 2 == 0 && OnlyKeysOf(PrunedPairs(path, src, i), src.content)
    decreases |src.content| - i
  {
    hide Source, PrunedPairs, Pruned, PairKept, OnlyKeysOf, Trim, KnownDefault, FindKey, FindKeyFrom;
    if i < |src.content| {
      PairInSource(src, i);
      PrunedKeysFrom(path, src, i + 2);
      PrunedPairsStep(path, src, i);
      KeyOfPair(src, i);
      if PairKept(path, src, i) {
        KeysBehind(src.content[i], Pruned(path + [Key(src, i)], src.content[i + 1]), PrunedPairs(path, src, i + 2),
          src.content);
      }
    } else {
      PrunedPairsEnd(path, src, i);
      NoKeys(src.content);
    }
  }

  lemma NoKeys(src: seq<Tree>)
    ensures OnlyKeysOf([], src)
  {
  }

  lemma KeyOfPair(src: Tree, i: nat)
    requires IsMapping(src) && Source(src) && i % 2 == 0 && i + 1 < |src.content|
    ensures src.content[i].Tree? && HasKey(src.content, Trim(src.content[i].value))
  {
    PairInSource(src, i);
    hide Source, Trim;
  }

  lemma KeysBehind(k: Tree, v: Tree, rest: seq<Tree>, src: seq<Tree>)
    requires k.Tree? && HasKey(src, Trim(k.value)) && OnlyKeysOf(rest, src)
    ensures OnlyKeysOf([k, v] + rest, src)
  {
    hide Trim, HasKey;
    var now := [k, v] + rest;
    forall j | 0 <= j < |now| - 1 && j % 2 == 0 && now[j].Tree? ensures HasKey(src, Trim(now[j].value)) {
      if j > 0 { assert now[j] == rest[j - 2] && (j - 2) % 2 == 0; }
    }
  }

  /** A pruned copy of a source. */
  lemma {:induction false} PrunedNotStale(path: Path, src: Tree, element: bool)
    requires Source(src)
    ensures NoStaleKeys(Pruned(path, src), src, element)
    decreases src, 1
  {
    if src.kind.Sequence? {
      hide UniqueKeys;
      forall i | 0 <= i < |src.content| ensures NoStaleKeys(Pruned(path, src).content[i], src.content[i], true) {
        PrunedNotStale(path, src.content[i], true);
        PrunedElement(path, src, i);
      }
    } else if src.kind.Mapping? {
      hide Source, NoStaleKeys, PairNotStale, OnlyKeysOf, PrunedPairs;
      PrunedMapping(path, src);
      PrunedKeysFrom(path, src, 0);
      hide Pruned;
      forall j | 0 <= j < |src.content| - 1 && j % 2 == 0 ensures PairNotStale(PrunedPairs(path, src, 0), src, j) {
        PrunedPairNotStale(path, src, j);
      }
      MappingNotStale(Pruned(path, src), src, element);
    }
  }

  lemma {:induction false} PrunedPairNotStale(path: Path, src: Tree, j: nat)
    requires IsMapping(src) && Source(src) && j % 2 == 0 && j + 1 < |src.content|
    ensures PairNotStale(PrunedPairs(path, src, 0), src, j)
    decreases src, 0
  {
    hide PairKept, PairNotStale, NoStaleKeys, PrunedPairs, Found, Pruned;
    PairInSource(src, j);
    PrunedFind(path, src, 0, j);
    PrunedNotStale(path + [Key(src, j)], src.content[j + 1], false);
    FoundNotStale(PrunedPairs(path, src, 0), src, j, PairKept(path, src, j),
      Pruned(path + [Key(src, j)], src.content[j + 1]));
  }

  /** Removing the keys that the source element lacks. */
  lemma TrimmedNotStale(t: Tree, src: Tree)
    requires Target(t) && Source(src) && NoStaleKeys(t, src, false)
    ensures NoStaleKeys(WithoutMissingKeys(t, src), src, true)
  {
    if IsMapping(t) && IsMapping(src) {
      var keep := TrimmedKeys(src.content, 0);
      var content := KeepKeys(t.content, keep);
      forall j | 0 <= j < |src.content| - 1 && j % 2 == 0 ensures PairNotStale(content, src, j) {
        assert PairNotStale(t.content, src, j);
        TrimmedPairNotStale(t, src, j);
      }
      LeftKeys(t, src);
      hide Source, Target, KeepKeys, TrimmedKeys, OnlyKeysOf, PairNotStale, NoStaleKeys;
      MappingNotStale(WithoutMissingKeys(t, src), src, true);
    } else {
      hide UniqueKeys;
    }
  }

  lemma TrimmedPairNotStale(t: Tree, src: Tree, j: nat)
    requires Target(t) && IsMapping(t) && Source(src) && IsMapping(src) && j % 2 == 0 && j + 1 < |src.content|
    requires PairNotStale(t.content, src, j)
    ensures PairNotStale(KeepKeys(t.content, TrimmedKeys(src.content, 0)), src, j)
  {
    hide FindKeyFrom, KeepKeys, TrimmedKeys, Found, Source, Target, NoStaleKeys, Trim;
    PairInSource(src, j);
    AllTrees(t);
    OwnKeyKept(src, 0, j);
    var key, at := Key(src, j), FindKey(t.content, Key(src, j));
    var present, value := at >= 0, if at >= 0 then t.content[at + 1] else Nil;
    FoundOf(t.content, key, present, value);
    KeepFind(t.content, TrimmedKeys(src.content, 0), key, present, value);
    FoundNotStale(KeepKeys(t.content, TrimmedKeys(src.content, 0)), src, j, present, value);
  }

  lemma LeftKeys(t: Tree, src: Tree)
    requires Target(t) && IsMapping(t) && src.Tree?
    ensures OnlyKeysOf(KeepKeys(t.content, TrimmedKeys(src.content, 0)), src.content)
  {
    AllTrees(t);
    KeptKeys(t.content, src.content);
  }

  lemma {:induction false} KeptKeys(content: seq<Tree>, src: seq<Tree>)
    requires |content| % 2 == 0 && forall i :: 0 <= i < |content| ==> content[i].Tree?
    ensures OnlyKeysOf(KeepKeys(content, TrimmedKeys(src, 0)), src)
    decreases |content|
  {
    hide Trim, TrimmedKeys, HasKey, OnlyKeysOf;
    NoKeys(src);
    if content != [] {
      KeptKeys(content[2..], src);
      KeyInSource(src, Trim(content[0].value));
      var rest := KeepKeys(content[2..], TrimmedKeys(src, 0));
      assert [] + rest == rest && content[..2] == [content[0], content[1]];
      if HasKey(src, Trim(content[0].value)) { KeysBehind(content[0], content[1], rest, src); }
    }
  }

  /** After a merge no list element has a key that its source element lacks: what the user has cleared in a list
      element leaves the file. */
  lemma {:induction false} MergeLeavesNoStaleKeys(dst: Tree, src: Tree, path: Path)
    requires Target(dst) && Source(src)
    ensures NoStaleKeys(MergeNode(dst, src, path), src, false)
    decreases src, 1
  {
    TargetIsTree(dst);
    if src.kind.Mapping? {
      forall j | 0 <= j < |src.content| - 1 && j % 2 == 0
        ensures PairNotStale(MergeNode(dst, src, path).content, src, j)
      {
        MergedPairNotStale(dst, src, path, j);
      }
      MergedIsMapping(dst, src, path);
      hide Source, Target, MergeNode, PairNotStale, NoStaleKeys, OnlyKeysOf;
      MappingNotStale(MergeNode(dst, src, path), src, false);
    } else if src.kind.Sequence? {
      hide UniqueKeys, MergeNode, Target;
      forall i | 0 <= i < |src.content| && i < |MergeNode(dst, src, path).content|
        ensures NoStaleKeys(MergeNode(dst, src, path).content[i], src.content[i], true)
      {
        MergedElement(dst, src, path, i);
        MergedElementNotStale(dst, src, path, i);
      }
    }
  }

  lemma MergedIsMapping(dst: Tree, src: Tree, path: Path)
    requires dst.Tree? && IsMapping(src)
    ensures IsMapping(MergeNode(dst, src, path))
  {
    MergedMapping(dst, src, path);
  }

  lemma {:induction false} MergedPairNotStale(dst: Tree, src: Tree, path: Path, j: nat)
    requires Target(dst) && Source(src) && IsMapping(src) && j % 2 == 0 && j + 1 < |src.content|
    ensures MergeNode(dst, src, path).Tree? && PairNotStale(MergeNode(dst, src, path).content, src, j)
    decreases src, 0
  {
    PairInSource(src, j);
    TargetIsTree(dst);
    hide Source, MergeNode, Pruned, KnownDefault, Found, FindKeyFrom, NoStaleKeys, PairNotStale;
    MergedKey(dst, src, path, j);
    var base, value, childPath := if IsMapping(dst) then dst else src, src.content[j + 1], path + [Key(src, j)];
    var r, at := MergeNode(dst, src, path), FindKey(base.content, Key(src, j));
    if at >= 0 {
      TargetChild(base, at + 1);
      MergeLeavesNoStaleKeys(base.content[at + 1], value, childPath);
      FoundNotStale(r.content, src, j, true, MergeNode(base.content[at + 1], value, childPath));
    } else {
      PrunedNotStale(childPath, value, false);
      FoundNotStale(r.content, src, j, !KnownDefault(childPath, Pruned(childPath, value)), Pruned(childPath, value));
    }
  }

  lemma {:induction false} MergedElementNotStale(dst: Tree, src: Tree, path: Path, i: nat)
    requires Target(dst) && Source(src) && src.kind.Sequence? && i < |src.content|
    ensures dst.Tree? && Source(src.content[i])
    ensures NoStaleKeys(MergeElement(OldElement(dst, src, i), src, i, path), src.content[i], true)
    decreases src, 0
  {
    TargetIsTree(dst);
    OldElementIsTarget(dst, src, i);
    var before, element := OldElement(dst, src, i), src.content[i];
    assert Source(element);
    hide Source, Target, MergeNode, OldElement, WithoutMissingKeys, NoStaleKeys;
    if before.Tree? {
      MergeLeavesNoStaleKeys(before, element, path);
      MergeAgrees(before, element, path);
      TrimmedNotStale(MergeNode(before, element, path), element);
    } else {
      SelfNotStale(element, true);
    }
  }
}
