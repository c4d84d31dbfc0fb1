// After a merge the configuration tree says what the source says: every scalar is in its place, every
// sequence has the source's elements in order, and only zero or listed default values may be missing.
module YamlAgreement {
  import opened Bytes
  import opened YamlTree

  function Key(t: Tree, i: nat): Text
    requires t.Tree? && i < |t.content| && t.content[i].Tree?
  {
    t.content[i].value
  }

  /** A parsed source: no nil nodes, no aliases, mappings of pairs with unique non-blank keys. */
  predicate Source(t: Tree)
    decreases t
  {
    && t.Tree? && (t.kind.Scalar? || t.kind.Sequence? || t.kind.Mapping?)
    && (forall i :: 0 <= i < |t.content| ==> Source(t.content[i]))
    && (t.kind.Mapping? ==> UniqueKeys(t))
  }

  predicate UniqueKeys(t: Tree)
    requires t.Tree?
  {
    && |t.content| % 2 == 0
    && (forall i :: 0 <= i < |t.content| && i % 2 == 0 ==> t.content[i].Tree? && Trim(Key(t, i)) != [])
    && (forall i, j ::
          0 <= i < j < |t.content| && i % 2 == 0 && j % 2 == 0 && t.content[i].Tree? && t.content[j].Tree? ==>
            Key(t, i) != Key(t, j))
  }

  /** A destination: no nil nodes, and mappings of pairs. Its keys may repeat, and its nodes may be of any kind. */
  predicate Target(t: Tree)
    decreases t
  {
    && t.Tree?
    && (forall i :: 0 <= i < |t.content| ==> Target(t.content[i]))
    && (t.kind.Mapping? ==> |t.content| % 2 == 0)
  }

  lemma {:induction false} SourceIsTarget(t: Tree)
    requires Source(t)
    ensures Target(t)
    decreases t
  {
    forall i | 0 <= i < |t.content| ensures Target(t.content[i]) {
      SourceIsTarget(t.content[i]);
    }
  }

  /** Every leaf of the source subtree is a zero or a listed default at its path. */
  predicate Omittable(path: Path, src: Tree)
    requires Source(src)
    decreases src
  {
    match src.kind
    case Scalar => ZeroValue(src) || ListedDefault(path, src)
    case Sequence => forall i :: 0 <= i < |src.content| ==> Omittable(path, src.content[i])
    case Mapping => forall i :: 0 <= i < |src.content| - 1 && i % 2 == 0 ==>
      Omittable(path + [Key(src, i)], src.content[i + 1])
    case _ => false
  }

  /** `t` says what `src` says at `path`. */
  predicate Agrees(t: Tree, src: Tree, path: Path)
    requires Source(src)
    decreases src
  {
    t.Tree? &&
    match src.kind
    case Scalar => t.kind.Scalar? && t.tag == src.tag && t.value == src.value
    case Sequence =>
      || (src.content == [] && IsNull(t))
      || (t.kind.Sequence? && |t.content| == |src.content| &&
          forall i :: 0 <= i < |src.content| ==> Agrees(t.content[i], src.content[i], path))
    case Mapping =>
      t.kind.Mapping? && forall i :: 0 <= i < |src.content| - 1 && i % 2 == 0 ==> PairAgrees(t.content, src, i, path)
    case _ => false
  }

  /** The pair at `i` is present with an agreeing value, or may be omitted. */
  predicate PairAgrees(content: seq<Tree>, src: Tree, i: nat, path: Path)
    requires Source(src) && i + 1 < |src.content|
    decreases src, 0
  {
    assert Source(src.content[i]) && Source(src.content[i + 1]);
    var at := FindKey(content, Key(src, i));
    if at >= 0 then Agrees(content[at + 1], src.content[i + 1], path + [Key(src, i)])
    else Omittable(path + [Key(src, i)], src.content[i + 1])
  }

  // ----- finding keys

  lemma FindUnique(content: seq<Tree>, key: Text, i: nat)
    requires i % 2 == 0 && i + 1 < |content| && content[i].Tree? && content[i].value == key
    requires forall j :: 0 <= j < i && j % 2 == 0 ==> !(content[j].Tree? && content[j].value == key)
    ensures FindKey(content, key) == i
  {
    var r := FindKeyFrom(content, key, 0);
    assert (i - 0) % 2 == 0;
  }

  lemma {:induction false} FindFromUpdate(content: seq<Tree>, key: Text, from: nat, at: nat, t: Tree)
    requires at < |content| && at % 2 == 1 && from % 2 == 0
    ensures FindKeyFrom(content[at := t], key, from) == FindKeyFrom(content, key, from)
    decreases |content| - from
  {
    if from + 1 < |content| { FindFromUpdate(content, key, from + 2, at, t); }
  }

  lemma {:induction false} FindFromAppend(content: seq<Tree>, key: Text, from: nat, k: Tree, v: Tree)
    requires |content| % 2 == 0 && from % 2 == 0 && from <= |content| && k.Tree?
    ensures var r := FindKeyFrom(content, key, from);
            FindKeyFrom(content + [k, v], key, from) ==
            if r >= 0 then r else if k.value == key then |content| else -1
    decreases |content| - from
  {
    var c := content + [k, v];
    if from + 1 < |content| {
      assert c[from] == content[from];
      FindFromAppend(content, key, from + 2, k, v);
    } else {
      assert from == |content| && c[from] == k;
      assert FindKeyFrom(c, key, from + 2) == -1;
    }
  }

  // ----- pruned copies agree

  lemma {:induction false} ZeroIsOmittable(path: Path, src: Tree)
    requires Source(src) && ZeroValue(src)
    ensures Omittable(path, src)
    decreases src, 1
  {
    hide ZeroScalar, ListedDefault, UniqueKeys;
    if src.kind.Sequence? {
      forall i | 0 <= i < |src.content| ensures Omittable(path, src.content[i]) {
        ZeroIsOmittable(path, src.content[i]);
      }
    } else if src.kind.Mapping? {
      ZeroPairsOmittable(path, src);
    }
  }

  lemma {:induction false} ZeroPairsOmittable(path: Path, src: Tree)
    requires Source(src) && IsMapping(src) && ZeroValue(src)
    ensures Omittable(path, src)
    decreases src, 0
  {
    hide ZeroScalar, ListedDefault, UniqueKeys;
    forall i | 0 <= i < |src.content| - 1 && i % 2 == 0 ensures Omittable(path + [Key(src, i)], src.content[i + 1]) {
      assert (i + 1) % 2 == 1;
      ZeroIsOmittable(path + [Key(src, i)], src.content[i + 1]);
    }
  }

  lemma DefaultIsOmittable(path: Path, src: Tree)
    requires Source(src) && KnownDefault(path, src)
    ensures Omittable(path, src)
  {
    if ZeroValue(src) { ZeroIsOmittable(path, src); }
  }

  /** What the pruned pairs from `i` on hold: pairs of a key and its pruned value, in source order. */
  predicate PairKept(path: Path, src: Tree, j: nat)
    requires Source(src) && j + 1 < |src.content|
  {
    assert Source(src.content[j]);
    var childPath := path + [Key(src, j)];
    !KnownDefault(childPath, src.content[j + 1]) && !EmptyCollection(Pruned(childPath, src.content[j + 1]))
  }

  /** Whether `key` is found among the pairs, and with which value. */
  predicate Found(pairs: seq<Tree>, key: Text, present: bool, value: Tree) {
    var at := FindKey(pairs, key);
    |pairs| % 2 == 0 && (at >= 0 <==> present) && (at >= 0 ==> pairs[at + 1] == value)
  }

  lemma FoundCons(k: Tree, v: Tree, rest: seq<Tree>, key: Text, present: bool, value: Tree)
    requires k.Tree? && Found(rest, key, present, value)
    ensures Found([k, v] + rest, key, present || k.value == key, if k.value == key then v else value)
  {
    hide FindKeyFrom;
    FindFromCons(k, v, rest, key);
  }

  /** One pair more, or one pair skipped, in front of the pairs searched so far. */
  lemma FoundNext(kept: bool, k: Tree, v: Tree, rest: seq<Tree>, pairs: seq<Tree>, key: Text, present: bool,
          value: Tree, now: bool)
    requires k.Tree? && pairs == (if kept then [k, v] + rest else rest) && Found(rest, key, present, value)
    requires if k.value == key then !present && now == kept && v == value else now == present
    ensures Found(pairs, key, now, value)
  {
    hide Found;
    if kept {
      FoundCons(k, v, rest, key, present, value);
      if k.value == key { assert now == true; } else { assert now == present; }
    }
  }

  lemma FoundNothing(key: Text, value: Tree)
    ensures Found([], key, false, value)
  {
  }

  /** The pruned pairs from `i` on have the pruned value of pair `j`, or nothing under its key. */
  lemma {:induction false} PrunedFind(path: Path, src: Tree, i: nat, j: nat)
    requires IsMapping(src) && Source(src) && i % 2 == 0 && j % 2 == 0 && j + 1 < |src.content| && i <= |src.content|
    ensures src.content[j].Tree?
    ensures var present, value := j >= i && PairKept(path, src, j), Pruned(path + [Key(src, j)], src.content[j + 1]);
            Found(PrunedPairs(path, src, i), Key(src, j), present, value)
    decreases |src.content| - i
  {
    hide Found, PairKept, Pruned, PrunedPairs, Source, FindKey, FindKeyFrom, KnownDefault, ZeroValue, Trim;
    PairInSource(src, j);
    var value := Pruned(path + [Key(src, j)], src.content[j + 1]);
    if i < |src.content| {
      PairInSource(src, i);
      PrunedFind(path, src, i + 2, j);
      PrunedPairsStep(path, src, i);
      var k, v, rest := src.content[i], Pruned(path + [Key(src, i)], src.content[i + 1]), PrunedPairs(path, src, i + 2);
      if i == j {
        FoundNext(PairKept(path, src, i), k, v, rest, PrunedPairs(path, src, i), Key(src, j), false, value,
          PairKept(path, src, i));
      } else {
        KeysDiffer(src, i, j);
        var present := j >= i + 2 && PairKept(path, src, j);
        FoundNext(PairKept(path, src, i), k, v, rest, PrunedPairs(path, src, i), Key(src, j), present, value, present);
      }
    } else {
      PrunedPairsEnd(path, src, i);
      FoundNothing(Key(src, j), value);
    }
  }

  lemma PairInSource(src: Tree, i: nat)
    requires IsMapping(src) && Source(src) && i % 2 == 0 && i < |src.content|
    ensures i + 1 < |src.content| && src.content[i].Tree? && Source(src.content[i]) && Source(src.content[i + 1]) &&
            Trim(Key(src, i)) != []
  {
  }

  lemma KeysDiffer(src: Tree, i: nat, j: nat)
    requires IsMapping(src) && Source(src) && i % 2 == 0 && j % 2 == 0 && i < |src.content| && j < |src.content| &&
             i != j
    ensures src.content[i].Tree? && src.content[j].Tree? && Key(src, i) != Key(src, j)
  {
    PairInSource(src, i);
    PairInSource(src, j);
    if i < j { assert Key(src, i) != Key(src, j); } else { assert Key(src, j) != Key(src, i); }
  }

  lemma PrunedPairsStep(path: Path, src: Tree, i: nat)
    requires IsMapping(src) && Source(src) && i % 2 == 0 && i < |src.content| && i + 1 < |src.content| &&
             src.content[i].Tree?
    ensures PrunedPairs(path, src, i) ==
            if PairKept(path, src, i)
            then [src.content[i], Pruned(path + [Key(src, i)], src.content[i + 1])] + PrunedPairs(path, src, i + 2)
            else PrunedPairs(path, src, i + 2)
  {
    PairInSource(src, i);
  }

  lemma {:induction false} FindFromShift(k: Tree, v: Tree, rest: seq<Tree>, key: Text, from: nat)
    ensures var r := FindKeyFrom(rest, key, from);
            FindKeyFrom([k, v] + rest, key, from + 2) == if r >= 0 then r + 2 else -1
    decreases |rest| - from
  {
    if from + 1 < |rest| { FindFromShift(k, v, rest, key, from + 2); }
  }

  /** The value found under a key in front of more pairs. */
  lemma FindFromCons(k: Tree, v: Tree, rest: seq<Tree>, key: Text)
    requires k.Tree?
    ensures var pairs, at, r := [k, v] + rest, FindKeyFrom([k, v] + rest, key, 0), FindKeyFrom(rest, key, 0);
            && at == (if k.value == key then 0 else if r >= 0 then r + 2 else -1)
            && (at >= 0 ==> pairs[at + 1] == if k.value == key then v else rest[r + 1])
  {
    FindFromShift(k, v, rest, key, 0);
  }

  lemma FoundValueZero(t: Tree, key: Text, value: Tree)
    requires t.Tree? && t.kind.Mapping? && ZeroValue(t) && Found(t.content, key, true, value)
    ensures ZeroValue(value)
  {
    hide FindKeyFrom;
    var at := FindKey(t.content, key);
    assert (at + 1) % 2 == 1;
  }

  lemma PrunedValueZero(path: Path, src: Tree, j: nat)
    requires IsMapping(src) && Source(src) && j % 2 == 0 && j + 1 < |src.content| && src.content[j].Tree?
    requires ZeroValue(Pruned(path, src)) && PairKept(path, src, j)
    ensures ZeroValue(Pruned(path + [Key(src, j)], src.content[j + 1]))
  {
    hide PairKept, Found, PrunedPairs, ZeroValue;
    PrunedFind(path, src, 0, j);
    assert Pruned(path, src) == src.(content := PrunedPairs(path, src, 0));
    FoundValueZero(Pruned(path, src), Key(src, j), Pruned(path + [Key(src, j)], src.content[j + 1]));
  }

  /** A pruned copy that is zero comes from a source with nothing but zeros and defaults. */
  lemma {:induction false} PrunedZero(path: Path, src: Tree)
    requires Source(src) && ZeroValue(Pruned(path, src))
    ensures Omittable(path, src)
    decreases src, 0
  {
    hide PairKept, KnownDefault, EmptyCollection;
    if src.kind.Sequence? {
      forall i | 0 <= i < |src.content| ensures Omittable(path, src.content[i]) {
        assert Pruned(path, src).content[i] == Pruned(path, src.content[i]);
        PrunedZero(path, src.content[i]);
      }
    } else if src.kind.Mapping? {
      forall j | 0 <= j < |src.content| - 1 && j % 2 == 0 ensures Omittable(path + [Key(src, j)], src.content[j + 1]) {
        PairInSource(src, j);
        if PairKept(path, src, j) {
          PrunedValueZero(path, src, j);
          PrunedZero(path + [Key(src, j)], src.content[j + 1]);
        } else {
          NotKept(path, src, j);
          OmittedIsOmittable(path + [Key(src, j)], src.content[j + 1]);
        }
      }
    }
  }

  lemma NotKept(path: Path, src: Tree, j: nat)
    requires Source(src) && j + 1 < |src.content| && src.content[j].Tree? && !PairKept(path, src, j)
    ensures var childPath := path + [Key(src, j)];
            KnownDefault(childPath, src.content[j + 1]) || EmptyCollection(Pruned(childPath, src.content[j + 1]))
  {
  }

  lemma {:induction false} OmittedIsOmittable(path: Path, src: Tree)
    requires Source(src) && (KnownDefault(path, src) || EmptyCollection(Pruned(path, src)))
    ensures Omittable(path, src)
    decreases src, 1
  {
    if KnownDefault(path, src) { DefaultIsOmittable(path, src); } else { PrunedZero(path, src); }
  }

  lemma {:induction false} PrunedAgrees(path: Path, src: Tree)
    requires Source(src)
    ensures Agrees(Pruned(path, src), src, path)
    decreases src, 1
  {
    hide PairKept;
    if src.kind.Sequence? {
      forall i | 0 <= i < |src.content| ensures Agrees(Pruned(path, src).content[i], src.content[i], path) {
        assert Pruned(path, src).content[i] == Pruned(path, src.content[i]);
        PrunedAgrees(path, src.content[i]);
      }
    } else if src.kind.Mapping? {
      forall j | 0 <= j < |src.content| - 1 && j % 2 == 0 ensures PairAgrees(Pruned(path, src).content, src, j, path) {
        PrunedPairAgrees(path, src, j);
      }
      PairsAgree(Pruned(path, src), src, path);
    }
  }

  lemma PrunedMapping(path: Path, t: Tree)
    requires IsMapping(t)
    ensures Pruned(path, t) == t.(content := PrunedPairs(path, t, 0))
  {
  }

  lemma PrunedPairAgrees(path: Path, src: Tree, j: nat)
    requires IsMapping(src) && Source(src) && j % 2 == 0 && j + 1 < |src.content|
    ensures PairAgrees(Pruned(path, src).content, src, j, path)
    decreases src, 0
  {
    hide PairKept, PairAgrees, Agrees, PrunedPairs, Found;
    PairInSource(src, j);
    PrunedFind(path, src, 0, j);
    PrunedAgrees(path + [Key(src, j)], src.content[j + 1]);
    if !PairKept(path, src, j) {
      NotKept(path, src, j);
      OmittedIsOmittable(path + [Key(src, j)], src.content[j + 1]);
    }
    FoundAgrees(PrunedPairs(path, src, 0), src, j, path, PairKept(path, src, j),
      Pruned(path + [Key(src, j)], src.content[j + 1]));
  }

  lemma FoundAgrees(content: seq<Tree>, src: Tree, j: nat, path: Path, present: bool, value: Tree)
    requires Source(src) && j + 1 < |src.content| && src.content[j].Tree? && Source(src.content[j + 1])
    requires Found(content, Key(src, j), present, value)
    requires if present then Agrees(value, src.content[j + 1], path + [Key(src, j)])
             else Omittable(path + [Key(src, j)], src.content[j + 1])
    ensures PairAgrees(content, src, j, path)
  {
    hide Agrees, Omittable;
  }

  lemma PairsAgree(t: Tree, src: Tree, path: Path)
    requires IsMapping(src) && Source(src) && IsMapping(t)
    requires forall j :: 0 <= j < |src.content| - 1 && j % 2 == 0 ==> PairAgrees(t.content, src, j, path)
    ensures Agrees(t, src, path)
  {
  }

  /** A new key is left out only when everything below it is a zero or a default. */
  lemma SkippedIsOmittable(path: Path, src: Tree)
    requires Source(src) && KnownDefault(path, Pruned(path, src))
    ensures Omittable(path, src)
  {
    if ZeroValue(Pruned(path, src)) { PrunedZero(path, src); }
  }

  lemma {:induction false} SelfAgrees(src: Tree, path: Path)
    requires Source(src)
    ensures Agrees(src, src, path)
    decreases src, 1
  {
    if src.kind.Sequence? {
      forall i | 0 <= i < |src.content| ensures Agrees(src.content[i], src.content[i], path) {
        SelfAgrees(src.content[i], path);
      }
    } else if src.kind.Mapping? {
      forall j | 0 <= j < |src.content| - 1 && j % 2 == 0 ensures PairAgrees(src.content, src, j, path) {
        SelfPairAgrees(src, j, path);
      }
      PairsAgree(src, src, path);
    }
  }

  lemma SelfPairAgrees(src: Tree, j: nat, path: Path)
    requires IsMapping(src) && Source(src) && j % 2 == 0 && j + 1 < |src.content|
    ensures PairAgrees(src.content, src, j, path)
    decreases src, 0
  {
    hide Agrees, Source, FindKeyFrom;
    FindOwnKey(src, j);
    PairInSource(src, j);
    SelfAgrees(src.content[j + 1], path + [Key(src, j)]);
  }

  lemma FindOwnKey(src: Tree, j: nat)
    requires IsMapping(src) && Source(src) && j % 2 == 0 && j + 1 < |src.content|
    ensures src.content[j].Tree? && FindKey(src.content, Key(src, j)) == j
  {
    hide FindKeyFrom, Source;
    PairInSource(src, j);
    forall i | 0 <= i < j && i % 2 == 0 ensures !(src.content[i].Tree? && src.content[i].value == Key(src, j)) {
      KeysDiffer(src, i, j);
    }
    FindUnique(src.content, Key(src, j), j);
  }

  // ----- merging pairs

  lemma OtherPairKept(content: seq<Tree>, after: seq<Tree>, src: Tree, j: nat, path: Path)
    requires Source(src) && j + 1 < |src.content| && src.content[j].Tree? && PairAgrees(content, src, j, path)
    requires var at := FindKey(content, Key(src, j));
             FindKey(after, Key(src, j)) == at && (at >= 0 ==> after[at + 1] == content[at + 1])
    ensures PairAgrees(after, src, j, path)
  {
  }

  lemma KeptByUpdate(content: seq<Tree>, at: nat, merged: Tree, src: Tree, j: nat, path: Path)
    requires IsMapping(src) && Source(src) && j + 1 < |src.content| && src.content[j].Tree? &&
             PairAgrees(content, src, j, path)
    requires at % 2 == 0 && at + 1 < |content| && content[at].Tree? && content[at].value != Key(src, j)
    ensures PairAgrees(content[at + 1 := merged], src, j, path)
  {
    hide PairAgrees, FindKeyFrom, Source;
    FindFromUpdate(content, Key(src, j), 0, at + 1, merged);
    OtherPairKept(content, content[at + 1 := merged], src, j, path);
  }

  lemma KeptByAppend(content: seq<Tree>, k: Tree, v: Tree, src: Tree, j: nat, path: Path)
    requires IsMapping(src) && Source(src) && j + 1 < |src.content| && src.content[j].Tree? &&
             PairAgrees(content, src, j, path)
    requires |content| % 2 == 0 && k.Tree? && k.value != Key(src, j)
    ensures PairAgrees(content + [k, v], src, j, path)
  {
    hide PairAgrees, FindKeyFrom, Source;
    FindFromAppend(content, Key(src, j), 0, k, v);
    OtherPairKept(content, content + [k, v], src, j, path);
  }

  /** Updating the value of one key, or adding one key, leaves the agreement of every other pair. */
  lemma OtherPairsKept(dst: Tree, src: Tree, i: nat, j: nat, path: Path)
    requires Target(dst) && IsMapping(dst) && IsMapping(src) && Source(src)
    requires i % 2 == 0 && j % 2 == 0 && i + 1 < |src.content| && j + 1 < |src.content| && i != j
    requires PairAgrees(dst.content, src, j, path)
    ensures PairAgrees(MergePair(dst, src, i, path).content, src, j, path)
  {
    hide PairAgrees, MergeNode, Pruned, KnownDefault, FindKeyFrom, Source;
    TargetIsEven(dst);
    hide Target;
    PairInSource(src, i);
    PairInSource(src, j);
    KeysDiffer(src, i, j);
    var key, value := src.content[i], src.content[i + 1];
    var at := FindKey(dst.content, key.value);
    if at >= 0 {
      KeptByUpdate(dst.content, at, MergeNode(dst.content[at + 1], value, path + [key.value]), src, j, path);
    } else {
      KeptByAppend(dst.content, key, Pruned(path + [key.value], value), src, j, path);
    }
  }

  lemma {:induction false} PrunedIsTarget(path: Path, src: Tree)
    requires Source(src)
    ensures Target(Pruned(path, src))
    decreases src, 1
  {
    hide KnownDefault;
    if src.kind.Sequence? {
      forall i | 0 <= i < |src.content| ensures Target(Pruned(path, src).content[i]) {
        PrunedIsTarget(path, src.content[i]);
      }
    } else if src.kind.Mapping? {
      PrunedPairsAreTargets(path, src, 0);
    } else {
      SourceIsTarget(src);
    }
  }

  lemma {:induction false} PrunedPairsAreTargets(path: Path, src: Tree, i: nat)
    requires IsMapping(src) && Source(src) && i % 2 == 0 && i <= |src.content|
    ensures var pairs := PrunedPairs(path, src, i); |pairs| % 2 == 0 && forall t :: t in pairs ==> Target(t)
    decreases src, 0, |src.content| - i
  {
    hide PairKept, Target, Pruned, PrunedPairs, Source;
    if i < |src.content| {
      PairInSource(src, i);
      SourceIsTarget(src.content[i]);
      PrunedIsTarget(path + [Key(src, i)], src.content[i + 1]);
      PrunedPairsAreTargets(path, src, i + 2);
      PrunedPairsStep(path, src, i);
      TargetsNext(src.content[i], Pruned(path + [Key(src, i)], src.content[i + 1]), PrunedPairs(path, src, i + 2));
    } else {
      PrunedPairsEnd(path, src, i);
    }
  }

  lemma TargetsNext(k: Tree, v: Tree, rest: seq<Tree>)
    requires Target(k) && Target(v) && |rest| % 2 == 0 && forall t :: t in rest ==> Target(t)
    ensures |[k, v] + rest| % 2 == 0 && forall t :: t in [k, v] + rest ==> Target(t)
  {
    hide Target;
  }

  lemma PrunedPairsEnd(path: Path, src: Tree, i: nat)
    requires src.Tree? && i >= |src.content|
    ensures PrunedPairs(path, src, i) == []
  {
  }

  lemma TargetUpdate(dst: Tree, at: nat, t: Tree)
    requires Target(dst) && at < |dst.content| && Target(t)
    ensures Target(dst.(content := dst.content[at := t]))
  {
  }

  lemma TargetAppend(dst: Tree, k: Tree, v: Tree)
    requires Target(dst) && Target(k) && Target(v)
    ensures Target(dst.(content := dst.content + [k, v]))
  {
  }

  lemma TargetChild(dst: Tree, at: nat)
    requires Target(dst) && at < |dst.content|
    ensures Target(dst.content[at])
  {
  }

  /** Merging pair `i` makes it agree and keeps the destination a target. */
  lemma {:induction false} MergePairAgrees(dst: Tree, src: Tree, i: nat, path: Path)
    requires Target(dst) && IsMapping(dst) && IsMapping(src) && Source(src) && i % 2 == 0 && i + 1 < |src.content|
    ensures var r := MergePair(dst, src, i, path); Target(r) && PairAgrees(r.content, src, i, path)
    decreases src, 0, 0
  {
    hide Agrees, Omittable, Pruned, KnownDefault, FindKeyFrom, MergeNode, Target;
    PairInSource(src, i);
    var key, value := src.content[i], src.content[i + 1];
    var childPath := path + [key.value];
    var at := FindKey(dst.content, key.value);
    if at >= 0 {
      TargetChild(dst, at + 1);
      var merged := MergeNode(dst.content[at + 1], value, childPath);
      MergeAgrees(dst.content[at + 1], value, childPath);
      TargetUpdate(dst, at + 1, merged);
      FindFromUpdate(dst.content, key.value, 0, at + 1, merged);
    } else if KnownDefault(childPath, Pruned(childPath, value)) {
      SkippedIsOmittable(childPath, value);
    } else {
      PrunedAgrees(childPath, value);
      PrunedIsTarget(childPath, value);
      SourceIsTarget(key);
      TargetAppend(dst, key, Pruned(childPath, value));
      TargetIsEven(dst);
      FindFromAppend(dst.content, key.value, 0, key, Pruned(childPath, value));
    }
  }

  lemma TargetIsEven(dst: Tree)
    requires Target(dst) && IsMapping(dst)
    ensures |dst.content| % 2 == 0
  {
  }

  lemma {:induction false} MergePairsAgree(dst: Tree, src: Tree, i: nat, path: Path)
    requires Target(dst) && IsMapping(dst) && IsMapping(src) && Source(src) && i % 2 == 0 && i <= |src.content|
    requires forall j :: 0 <= j < i && j % 2 == 0 && j + 1 < |src.content| ==> PairAgrees(dst.content, src, j, path)
    ensures var r := MergePairs(dst, src, i, path); Target(r) && IsMapping(r) && Agrees(r, src, path)
    decreases src, 0, |src.content| - i
  {
    hide Target, Agrees, PairAgrees, MergePair;
    if i + 1 < |src.content| {
      MergePairAgrees(dst, src, i, path);
      forall j | 0 <= j < i + 2 && j % 2 == 0 && j + 1 < |src.content|
        ensures PairAgrees(MergePair(dst, src, i, path).content, src, j, path)
      {
        if j != i { OtherPairsKept(dst, src, i, j, path); }
      }
      MergePairsAgree(MergePair(dst, src, i, path), src, i + 2, path);
    } else {
      PairsAgree(dst, src, path);
    }
  }

  // ----- merging elements

  lemma {:induction false} KeepFind(content: seq<Tree>, keep: set<Text>, key: Text, present: bool, value: Tree)
    requires Trim(key) in keep && Found(content, key, present, value)
    requires forall i :: 0 <= i < |content| ==> content[i].Tree?
    ensures Found(KeepKeys(content, keep), key, present, value)
    decreases |content|
  {
    hide Found, FindKeyFrom, KeepKeys;
    FoundEven(content, key, present, value);
    if |content| >= 2 {
      var rest := content[2..];
      var r := FindKey(rest, key);
      var found, under := r >= 0, if r >= 0 then rest[r + 1] else value;
      FoundOf(rest, key, found, under);
      KeepFind(rest, keep, key, found, under);
      assert content == [content[0], content[1]] + rest;
      FoundCons(content[0], content[1], rest, key, found, under);
      FoundSame(content, key, present, value, found || content[0].value == key,
        if content[0].value == key then content[1] else under);
      KeepKeysCons(content, keep);
      FoundCons(content[0], content[1], KeepKeys(rest, keep), key, found, under);
      FoundAny(KeepKeys(content, keep), key, present, value, if content[0].value == key then content[1] else under);
    } else {
      KeepKeysShort(content, keep);
    }
  }

  lemma FoundEven(content: seq<Tree>, key: Text, present: bool, value: Tree)
    requires Found(content, key, present, value)
    ensures |content| % 2 == 0
  {
  }

  lemma FoundOf(content: seq<Tree>, key: Text, present: bool, value: Tree)
    requires |content| % 2 == 0
    requires var at := FindKey(content, key); present == (at >= 0) && (at >= 0 ==> value == content[at + 1])
    ensures Found(content, key, present, value)
  {
  }

  lemma FoundSame(content: seq<Tree>, key: Text, present: bool, value: Tree, present': bool, value': Tree)
    requires Found(content, key, present, value) && Found(content, key, present', value')
    ensures present == present' && (present ==> value == value')
  {
  }

  lemma FoundAny(content: seq<Tree>, key: Text, present: bool, value: Tree, value': Tree)
    requires Found(content, key, present, value') && (present ==> value == value')
    ensures Found(content, key, present, value)
  {
  }

  lemma KeepKeysShort(content: seq<Tree>, keep: set<Text>)
    requires |content| < 2
    ensures KeepKeys(content, keep) == content
  {
  }

  lemma KeepKeysCons(content: seq<Tree>, keep: set<Text>)
    requires |content| >= 2 && content[0].Tree?
    ensures KeepKeys(content, keep) ==
            if Trim(content[0].value) in keep then [content[0], content[1]] + KeepKeys(content[2..], keep)
            else KeepKeys(content[2..], keep)
  {
    assert content[..2] == [content[0], content[1]];
  }

  lemma {:induction false} KeepKeysEven(content: seq<Tree>, keep: set<Text>)
    requires |content| % 2 == 0 && forall i :: 0 <= i < |content| ==> content[i].Tree?
    ensures |KeepKeys(content, keep)| % 2 == 0
    decreases |content|
  {
    hide KeepKeys;
    if |content| >= 2 {
      KeepKeysEven(content[2..], keep);
      KeepKeysCons(content, keep);
    } else {
      KeepKeysShort(content, keep);
    }
  }

  lemma {:induction false} KeepKeysSubset(content: seq<Tree>, keep: set<Text>, t: Tree)
    requires t in KeepKeys(content, keep)
    ensures t in content
    decreases |content|
  {
    if |content| >= 2 {
      if t in KeepKeys(content[2..], keep) {
        KeepKeysSubset(content[2..], keep, t);
      } else {
        assert t in content[..2];
      }
    }
  }

  lemma {:induction false} OwnKeyKept(src: Tree, i: nat, j: nat)
    requires IsMapping(src) && Source(src) && i % 2 == 0 && j % 2 == 0 && i <= j && j + 1 < |src.content|
    ensures src.content[j].Tree? && Trim(Key(src, j)) in TrimmedKeys(src.content, i)
    decreases |src.content| - i
  {
    hide Source;
    PairInSource(src, j);
    PairInSource(src, i);
    if i < j { OwnKeyKept(src, i + 2, j); }
  }

  lemma AllTrees(t: Tree)
    requires Target(t)
    ensures forall i :: 0 <= i < |t.content| ==> t.content[i].Tree?
    ensures t.kind.Mapping? ==> |t.content| % 2 == 0
  {
  }

  lemma KeptPairAgrees(t: Tree, src: Tree, j: nat, keep: set<Text>, path: Path)
    requires Target(t) && IsMapping(t) && IsMapping(src) && Source(src) && Agrees(t, src, path)
    requires j % 2 == 0 && j + 1 < |src.content| && src.content[j].Tree? && Trim(Key(src, j)) in keep
    ensures PairAgrees(KeepKeys(t.content, keep), src, j, path)
  {
    assert PairAgrees(t.content, src, j, path);
    PairInSource(src, j);
    AllTrees(t);
    hide FindKeyFrom, KeepKeys, Found, Agrees, Omittable, Source, Target;
    var at := FindKey(t.content, Key(src, j));
    var present, value := at >= 0, if at >= 0 then t.content[at + 1] else Nil;
    FoundOf(t.content, Key(src, j), present, value);
    KeepFind(t.content, keep, Key(src, j), present, value);
    FoundAgrees(KeepKeys(t.content, keep), src, j, path, present, value);
  }

  /** Removing the keys the source lacks keeps agreement. */
  lemma {:induction false} WithoutMissingAgrees(t: Tree, src: Tree, path: Path)
    requires Target(t) && Source(src) && Agrees(t, src, path)
    ensures var r := WithoutMissingKeys(t, src); Target(r) && Agrees(r, src, path)
  {
    hide KeepKeys, TrimmedKeys, FindKeyFrom;
    if IsMapping(t) && IsMapping(src) {
      var keep := TrimmedKeys(src.content, 0);
      var r := WithoutMissingKeys(t, src);
      KeepKeysEven(t.content, keep);
      forall j | 0 <= j < |src.content| - 1 && j % 2 == 0 ensures PairAgrees(r.content, src, j, path) {
        OwnKeyKept(src, 0, j);
        KeptPairAgrees(t, src, j, keep, path);
      }
      PairsAgree(r, src, path);
      forall i | 0 <= i < |r.content| ensures Target(r.content[i]) {
        KeepKeysSubset(t.content, keep, r.content[i]);
      }
    }
  }

  predicate ElementsAgree(r: seq<Tree>, src: Tree, i: nat, path: Path)
    requires Source(src)
  {
    && |r| + i == |src.content|
    && forall j :: 0 <= j < |r| ==> Target(r[j]) && Agrees(r[j], src.content[i + j], path)
  }

  lemma ElementsAgreeCons(first: Tree, rest: seq<Tree>, src: Tree, i: nat, path: Path)
    requires Source(src) && i < |src.content| && ElementsAgree(rest, src, i + 1, path)
    requires Source(src.content[i]) && Target(first) && Agrees(first, src.content[i], path)
    ensures ElementsAgree([first] + rest, src, i, path)
  {
    hide Target, Agrees;
    var r := [first] + rest;
    forall j | 0 <= j < |r| ensures Target(r[j]) && Agrees(r[j], src.content[i + j], path) {
      if j > 0 { assert r[j] == rest[j - 1]; }
    }
  }

  lemma SequenceAgrees(t: Tree, src: Tree, path: Path)
    requires Source(src) && src.kind.Sequence? && t.Tree? && t.kind.Sequence? && ElementsAgree(t.content, src, 0, path)
    ensures Target(t) && Agrees(t, src, path)
  {
  }

  lemma {:induction false} MergeElementsAgree(previous: seq<Tree>, src: Tree, i: nat, path: Path)
    requires Source(src) && src.kind.Sequence? && i <= |src.content|
    requires forall j :: 0 <= j < |previous| && previous[j].Tree? ==> Target(previous[j])
    ensures ElementsAgree(MergeElements(previous, src, i, path), src, i, path)
    decreases src, 1, |src.content| - i
  {
    hide Target, Agrees, MergeNode, WithoutMissingKeys, ElementsAgree;
    if i < |src.content| {
      assert Source(src.content[i]);
      var before := if i < |previous| then previous[i] else Nil;
      if before.Nil? {
        SourceIsTarget(src.content[i]);
        SelfAgrees(src.content[i], path);
      } else {
        MergeAgrees(before, src.content[i], path);
        WithoutMissingAgrees(MergeNode(before, src.content[i], path), src.content[i], path);
      }
      MergeElementsAgree(previous, src, i + 1, path);
      ElementsAgreeCons(MergeElement(before, src, i, path), MergeElements(previous, src, i + 1, path), src, i, path);
    } else {
      NoElements(src, path);
    }
  }

  lemma NoElements(src: Tree, path: Path)
    requires Source(src)
    ensures ElementsAgree([], src, |src.content|, path)
  {
  }

  /** The merged element at a place. */
  lemma ElementAt(previous: seq<Tree>, src: Tree, i: nat, path: Path, j: nat)
    requires src.Tree? && i <= j < |src.content|
    ensures MergeElements(previous, src, i, path)[j - i] ==
              MergeElement(if j < |previous| then previous[j] else Nil, src, j, path)
    decreases j - i
  {
    hide MergeElement;
    if j > i { ElementAt(previous, src, i + 1, path, j); }
  }

  /** The merge makes any destination agree with any source, whichever old elements the heuristics reuse. */
  lemma {:induction false} MergeAgrees(dst: Tree, src: Tree, path: Path)
    requires Target(dst) && Source(src)
    ensures var r := MergeNode(dst, src, path); Target(r) && Agrees(r, src, path)
    decreases src, 2
  {
    match src.kind {
      case Scalar =>
      case Sequence =>
        if !(IsNull(dst) && src.content == []) { MergeSequenceAgrees(dst, src, path); }
      case Mapping =>
        SourceIsTarget(src);
        MergePairsAgree(if dst.kind.Mapping? then dst else src, src, 0, path);
      case _ =>
    }
  }

  lemma {:induction false} MergeSequenceAgrees(dst: Tree, src: Tree, path: Path)
    requires Target(dst) && Source(src) && src.kind.Sequence? && !(IsNull(dst) && src.content == [])
    ensures var r := MergeNode(dst, src, path); Target(r) && Agrees(r, src, path)
    decreases src, 1, |src.content| + 1
  {
    hide Matches, MergeElements, ElementsAgree;
    var base := if dst.kind.Sequence? then dst else dst.(kind := Sequence, tag := SEQ, content := []);
    var previous := Reordered(base.content, src.content);
    forall j | 0 <= j < |previous| && previous[j].Tree? ensures Target(previous[j]) {
      ReorderedFrom(base.content, src.content, j);
    }
    MergeElementsAgree(previous, src, 0, path);
    var r := base.(content := MergeElements(previous, src, 0, path));
    assert MergeNode(dst, src, path) == r;
    SequenceAgrees(r, src, path);
  }

  /** A reordered element is an old element or a gap. */
  lemma ReorderedFrom(previous: seq<Tree>, targets: seq<Tree>, j: nat)
    requires j < |Reordered(previous, targets)|
    ensures Reordered(previous, targets)[j].Nil? || Reordered(previous, targets)[j] in previous
  {
  }

  // ----- what the destination keeps

  predicate Mentions(src: Tree, key: Text)
    requires src.Tree?
  {
    exists i :: 0 <= i < |src.content| - 1 && i % 2 == 0 && src.content[i].Tree? && src.content[i].value == key
  }

  /** Existing keys stay where they are, and a value whose key the source does not mention is not touched. */
  lemma {:induction false} ExistingKeysStay(dst: Tree, src: Tree, i: nat, path: Path)
    requires dst.Tree? && src.Tree? && i % 2 == 0
    ensures var r := MergePairs(dst, src, i, path);
            && |dst.content| <= |r.content|
            && (forall j :: 0 <= j < |dst.content| && j % 2 == 0 ==> r.content[j] == dst.content[j])
            && (forall j ::
                  0 <= j < |dst.content| - 1 && j % 2 == 0 && dst.content[j].Tree? &&
                  !Mentions(src, dst.content[j].value) ==>
                    r.content[j + 1] == dst.content[j + 1])
    decreases |src.content| - i
  {
    hide MergePair, Mentions;
    if i + 1 < |src.content| {
      PairKeepsKeys(dst, src, i, path);
      ExistingKeysStay(MergePair(dst, src, i, path), src, i + 2, path);
    }
  }

  lemma PairKeepsKeys(dst: Tree, src: Tree, i: nat, path: Path)
    requires dst.Tree? && src.Tree? && i % 2 == 0 && i + 1 < |src.content|
    ensures var r := MergePair(dst, src, i, path);
            && |dst.content| <= |r.content|
            && (forall j :: 0 <= j < |dst.content| && j % 2 == 0 ==> r.content[j] == dst.content[j])
            && (forall j ::
                  0 <= j < |dst.content| - 1 && j % 2 == 0 && dst.content[j].Tree? &&
                  !Mentions(src, dst.content[j].value) ==>
                    r.content[j + 1] == dst.content[j + 1])
  {
    hide MergeNode, Pruned, KnownDefault;
    var key := src.content[i];
    if key.Tree? {
      assert Mentions(src, key.value);
      var at := FindKey(dst.content, key.value);
      if at >= 0 { assert dst.content[at].value == key.value; }
    }
  }
}
