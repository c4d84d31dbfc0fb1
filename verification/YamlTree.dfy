// The YAML merge of internal/config/config_yaml.go as functions on trees.
module YamlTree {
  import opened Bytes

  type Text = Bytes
  type Path = seq<Text>

  datatype Kind = Unset | Document | Sequence | Mapping | Scalar | Alias

  /** A node with everything below it; Nil is a nil pointer. The content of a mapping alternates keys and values. */
  datatype Tree = Nil | Tree(kind: Kind, tag: Text, value: Text, content: seq<Tree>)

  const BOOL := Ascii("!!bool")
  const INT := Ascii("!!int")
  const FLOAT := Ascii("!!float")
  const STR := Ascii("!!str")
  const NULL := Ascii("!!null")
  const SEQ := Ascii("!!seq")
  const DOT := Ascii(".")

  predicate IsMapping(t: Tree) {
    t.Tree? && t.kind.Mapping?
  }

  predicate IsScalar(t: Tree) {
    t.Tree? && t.kind.Scalar?
  }

  predicate IsNull(t: Tree) {
    IsScalar(t) && t.tag == NULL
  }

  /** Index of the first key node with this value; -1 when there is none. */
  function FindKeyFrom(content: seq<Tree>, key: Text, i: nat): (r: int)
    ensures r == -1 || (i <= r < |content| - 1 && (r - i) % 2 == 0 && content[r].Tree? && content[r].value == key)
    ensures forall j {:trigger content[j]} :: i <= j < |content| - 1 && (j - i) % 2 == 0 && (r == -1 || j < r) ==>
              !(content[j].Tree? && content[j].value == key)
    decreases |content| - i
  {
    if i + 1 >= |content| then -1
    else if content[i].Tree? && content[i].value == key then i
    else FindKeyFrom(content, key, i + 2)
  }

  function FindKey(content: seq<Tree>, key: Text): (r: int)
    ensures r == -1 || (0 <= r < |content| - 1 && r % 2 == 0 && content[r].Tree? && content[r].value == key)
  {
    FindKeyFrom(content, key, 0)
  }

  // ----- zero values and known defaults

  predicate ZeroScalar(tag: Text, value: Text) {
    if tag == BOOL then value == Ascii("false")
    else if tag == INT || tag == FLOAT then value == Ascii("0") || value == Ascii("0.0")
    else if tag == STR then value == []
    else tag == NULL
  }

  predicate ZeroValue(t: Tree)
    decreases t
  {
    t.Nil? ||
    match t.kind
    case Scalar => ZeroScalar(t.tag, t.value)
    case Sequence => forall i :: 0 <= i < |t.content| ==> ZeroValue(t.content[i])
    case Mapping => forall i :: 0 <= i < |t.content| && i % 2 == 1 ==> ZeroValue(t.content[i])
    case _ => false
  }

  /** The strings left out at these paths. */
  predicate ListedText(full: Text, value: Text) {
    || (full == Ascii("pprof.addr") && value == Ascii("127.0.0.1:8316"))
    || (full == Ascii("remote-management.panel-github-repository") &&
        value == Ascii("https://github.com/router-for-me/Cli-Proxy-API-Management-Center"))
    || (full == Ascii("plugins.dir") && value == Ascii("plugins"))
    || (full == Ascii("routing.strategy") && value == Ascii("round-robin"))
  }

  predicate ListedDefault(path: Path, t: Tree) {
    && IsScalar(t) && path != []
    && var full := Join(path, DOT);
       || (t.tag == STR && ListedText(full, t.value))
       || (t.tag == INT && full == Ascii("error-logs-max-files") && t.value == Ascii("10"))
  }

  /** An integer under a key named "weight", which is kept even when zero. */
  predicate IsWeight(path: Path, t: Tree) {
    path != [] && path[|path| - 1] == Ascii("weight") && IsScalar(t) && t.tag == INT
  }

  predicate KnownDefault(path: Path, t: Tree) {
    !IsWeight(path, t) && (ZeroValue(t) || ListedDefault(path, t))
  }

  predicate EmptyCollection(t: Tree) {
    t.Tree? && (t.kind.Mapping? || t.kind.Sequence?) && t.content == []
  }

  /** A new subtree without its default-valued descendants. */
  function Pruned(path: Path, t: Tree): (r: Tree)
    ensures t.Tree? ==> r.Tree? && r.kind == t.kind && r.tag == t.tag && r.value == t.value
    ensures t.Tree? && !t.kind.Mapping? && !t.kind.Sequence? ==> r == t
    decreases t, 0
  {
    if t.Nil? then t
    else
      match t.kind
      case Mapping => t.(content := PrunedPairs(path, t, 0))
      case Sequence => t.(content := seq(|t.content|, i requires 0 <= i < |t.content| => Pruned(path, t.content[i])))
      case _ => t
  }

  function PrunedPairs(path: Path, t: Tree, i: nat): seq<Tree>
    requires t.Tree?
    decreases t, 0, |t.content| - i
  {
    if i + 1 >= |t.content| then []
    else
      var key, value := t.content[i], t.content[i + 1];
      var rest := PrunedPairs(path, t, i + 2);
      if key.Nil? || value.Nil? || KnownDefault(path + [key.value], value) then rest
      else
        var pruned := Pruned(path + [key.value], value);
        if EmptyCollection(pruned) then rest else [key, pruned] + rest
  }

  // ----- matching of sequence elements

  function ToLower(s: Text): Text {
    seq(|s|, i requires 0 <= i < |s| => if 65 <= s[i] <= 90 then s[i] + 32 else s[i])
  }

  /** The trimmed scalar under the first key that equals `key` up to case and white space. */
  function ScalarUnder(content: seq<Tree>, key: Text, i: nat): Text
    decreases |content| - i
  {
    if i + 1 >= |content| then []
    else if content[i].Tree? && IsScalar(content[i + 1]) && ToLower(Trim(content[i].value)) == key
    then Trim(content[i + 1].value)
    else ScalarUnder(content, key, i + 2)
  }

  function FirstScalar(content: seq<Tree>, i: nat): Text
    decreases |content| - i
  {
    if i + 1 >= |content| then []
    else if content[i].Tree? && IsScalar(content[i + 1]) && Trim(content[i + 1].value) != [] then
      ToLower(Trim(content[i].value)) + Ascii("=") + Trim(content[i + 1].value)
    else FirstScalar(content, i + 2)
  }

  const IDENTITY_KEYS: seq<Text> :=
    [Ascii("id"), Ascii("name"), Ascii("alias"), Ascii("api-key"), Ascii("api_key"), Ascii("apikey"), Ascii("key"),
      Ascii("provider"), Ascii("model")]

  function IdentityFrom(content: seq<Tree>, keys: seq<Text>): Text {
    if keys == [] then FirstScalar(content, 0)
    else
      var v := ScalarUnder(content, keys[0], 0);
      if v != [] then keys[0] + Ascii("=") + v else IdentityFrom(content, keys[1..])
  }

  function Identity(t: Tree): Text {
    if IsMapping(t) then IdentityFrom(t.content, IDENTITY_KEYS) else []
  }

  predicate StructurallyEqual(a: Tree, b: Tree)
    decreases a
  {
    if a.Nil? || b.Nil? then a.Nil? && b.Nil?
    else if a.kind != b.kind then false
    else
      match a.kind
      case Mapping =>
        |a.content| == |b.content| &&
        forall i :: 0 <= i < |a.content| / 2 * 2 ==> StructurallyEqual(a.content[i], b.content[i])
      case Sequence =>
        |a.content| == |b.content| && forall i :: 0 <= i < |a.content| ==> StructurallyEqual(a.content[i], b.content[i])
      case _ => Trim(a.value) == Trim(b.value)
  }

  predicate SameIdentity(candidate: Tree, target: Tree)
    requires target.Tree?
  {
    match target.kind
    case Mapping => IsMapping(candidate) && Identity(target) != [] && Identity(candidate) == Identity(target)
    case Scalar => IsScalar(candidate) && Trim(target.value) != [] && Trim(candidate.value) == Trim(target.value)
    case _ => false
  }

  function FirstUnused(original: seq<Tree>, used: set<nat>, p: Tree -> bool, i: nat): (r: int)
    ensures r == -1 || (i <= r < |original| && r !in used && original[r].Tree?)
    decreases |original| - i
  {
    if i >= |original| then -1
    else if i !in used && original[i].Tree? && p(original[i]) then i
    else FirstUnused(original, used, p, i + 1)
  }

  function BySameIdentity(target: Tree): Tree -> bool
  {
    candidate => target.Tree? && SameIdentity(candidate, target)
  }

  function ByStructure(target: Tree): Tree -> bool {
    candidate => StructurallyEqual(candidate, target)
  }

  /** The unused old element that a new element stands for, or -1. */
  function MatchElement(original: seq<Tree>, used: set<nat>, target: Tree): (r: int)
    ensures r == -1 || (0 <= r < |original| && r !in used && original[r].Tree?)
  {
    if target.Nil? then -1
    else
      var byIdentity := FirstUnused(original, used, BySameIdentity(target), 0);
      if byIdentity >= 0 then byIdentity else FirstUnused(original, used, ByStructure(target), 0)
  }

  /** For each new element the old element it reuses. */
  function Matches(original: seq<Tree>, used: set<nat>, targets: seq<Tree>): (r: seq<int>)
    ensures |r| == |targets|
    ensures forall i :: 0 <= i < |r| ==> r[i] == -1 || (0 <= r[i] < |original| && r[i] !in used && original[r[i]].Tree?)
    ensures forall i, j :: 0 <= i < j < |r| && r[i] == r[j] ==> r[i] == -1
    decreases |targets|
  {
    if targets == [] then []
    else
      var first := MatchElement(original, used, targets[0]);
      [first] + Matches(original, if first >= 0 then used + {first} else used, targets[1..])
  }

  function Reordered(previous: seq<Tree>, targets: seq<Tree>): (r: seq<Tree>)
    ensures previous == [] || targets == [] ==> r == previous
    ensures previous != [] && targets != [] ==> |r| == |targets|
  {
    if previous == [] || targets == [] then previous
    else
      var m := Matches(previous, {}, targets);
      seq(|targets|, i requires 0 <= i < |targets| => if m[i] >= 0 then previous[m[i]] else Nil)
  }

  // ----- removal of keys the source does not have

  function TrimmedKeys(content: seq<Tree>, i: nat): set<Text>
    decreases |content| - i
  {
    if i + 1 >= |content| then {}
    else
      var more := TrimmedKeys(content, i + 2);
      (if content[i].Tree? && Trim(content[i].value) != [] then {Trim(content[i].value)} else {}) + more
  }

  function KeepKeys(content: seq<Tree>, keep: set<Text>): seq<Tree> {
    if |content| < 2 then content
    else (if content[0].Nil? || Trim(content[0].value) in keep then content[..2] else []) + KeepKeys(content[2..], keep)
  }

  function WithoutMissingKeys(dst: Tree, src: Tree): Tree {
    if IsMapping(dst) && IsMapping(src) then dst.(content := KeepKeys(dst.content, TrimmedKeys(src.content, 0)))
    else dst
  }

  // ----- the merge (a node whose type, tag, value and content are copied over becomes the source tree)

  function MergeMapping(dst: Tree, src: Tree, path: Path): (r: Tree)
    ensures dst.Tree? ==> r.Tree?
    decreases src, 1
  {
    if dst.Nil? || src.Nil? then dst
    else if !dst.kind.Mapping? || !src.kind.Mapping? then src
    else MergePairs(dst, src, 0, path)
  }

  /** The pairs of `src` from `i` on, merged one after the other into the mapping `dst`. */
  function MergePairs(dst: Tree, src: Tree, i: nat, path: Path): (r: Tree)
    requires dst.Tree? && src.Tree?
    ensures r.Tree? && r.kind == dst.kind && r.tag == dst.tag && r.value == dst.value
    decreases src, 0, |src.content| - i
  {
    if i + 1 >= |src.content| then dst else MergePairs(MergePair(dst, src, i, path), src, i + 2, path)
  }

  function MergePair(dst: Tree, src: Tree, i: nat, path: Path): (r: Tree)
    requires dst.Tree? && src.Tree? && i + 1 < |src.content|
    ensures r.Tree? && r.kind == dst.kind && r.tag == dst.tag && r.value == dst.value
    decreases src, 0, 0
  {
    var key, value := src.content[i], src.content[i + 1];
    if key.Nil? then dst
    else
      var childPath := path + [key.value];
      var at := FindKey(dst.content, key.value);
      if at >= 0 then dst.(content := dst.content[at + 1 := MergeNode(dst.content[at + 1], value, childPath)])
      else
        var candidate := Pruned(childPath, value);
        if KnownDefault(childPath, candidate) then dst else dst.(content := dst.content + [key, candidate])
  }

  function MergeNode(dst: Tree, src: Tree, path: Path): (r: Tree)
    ensures dst.Tree? ==> r.Tree?
    decreases src, 2
  {
    if dst.Nil? || src.Nil? then dst
    else
      match src.kind
      case Mapping => MergeMapping(if dst.kind.Mapping? then dst else src, src, path)
      case Sequence =>
        if IsNull(dst) && src.content == [] then dst
        else
          var base := if dst.kind.Sequence? then dst else dst.(kind := Sequence, tag := SEQ, content := []);
          base.(content := MergeElements(Reordered(base.content, src.content), src, 0, path))
      case Scalar => Tree(Scalar, src.tag, src.value, dst.content)
      case Alias => Tree(Alias, src.tag, src.value, dst.content)
      case Unset => dst
      case Document => src
  }

  /** The merged elements from `i` on: exactly as many as the source has. */
  function MergeElements(previous: seq<Tree>, src: Tree, i: nat, path: Path): (r: seq<Tree>)
    requires src.Tree? && i <= |src.content|
    ensures |r| == |src.content| - i
    decreases src, 1, |src.content| - i
  {
    if i == |src.content| then []
    else
      var before := if i < |previous| then previous[i] else Nil;
      [MergeElement(before, src, i, path)] + MergeElements(previous, src, i + 1, path)
  }

  function MergeElement(previous: Tree, src: Tree, i: nat, path: Path): Tree
    requires src.Tree? && i < |src.content|
    decreases src, 1, 0
  {
    if previous.Nil? then src.content[i]
    else WithoutMissingKeys(MergeNode(previous, src.content[i], path), src.content[i])
  }
}
