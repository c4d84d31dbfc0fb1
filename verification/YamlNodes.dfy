// YAML nodes as objects (internal/config/config_yaml.go): alias-free trees, with the value each node stands for.
module YamlNodes {
  import opened Bytes
  import opened YamlTree

  class Node {
    var kind: Kind
    var tag: Text
    var value: Text
    var content: seq<Node?>
    ghost var tree: Tree
    ghost var repr: set<Node>

    constructor (kind: Kind, tag: Text, value: Text, content: seq<Node?>, ghost within: set<Node>)
      requires Forest(content, within)
      ensures Valid() && repr == {this} + within && fresh(this)
      ensures this.kind == kind && this.tag == tag && this.value == value && this.content == content
      ensures Members(content, within) && tree == Tree(kind, tag, value, TreesOf(content, within))
    {
      this.kind, this.tag, this.value, this.content := kind, tag, value, content;
      ForestMembers(content, within);
      tree := Tree(kind, tag, value, TreesOf(content, within));
      repr := {this} + within;
      new;
      assert repr - {this} == within;
    }

    /** The node owns everything below it, and `tree` is what it stands for. */
    ghost predicate Valid()
      reads this, repr
      decreases repr, 0
    {
      && this in repr && Forest(content, repr - {this})
      && tree == Tree(kind, tag, value, TreesOf(content, repr - {this}))
    }
  }

  ghost function TreeOf(n: Node?): Tree
    reads n
  {
    if n == null then Nil else n.tree
  }

  ghost function ReprOf(n: Node?): set<Node>
    reads n
  {
    if n == null then {} else n.repr
  }

  /** The nodes stand for separate trees inside `within`. */
  ghost predicate Forest(content: seq<Node?>, within: set<Node>)
    reads within
    decreases within, 1
  {
    && (forall i :: 0 <= i < |content| && content[i] != null ==>
         content[i] in within && content[i].repr <= within && content[i].Valid())
    && (forall i, j :: 0 <= i < j < |content| && content[i] != null && content[j] != null ==>
          content[i] in within && content[j] in within && content[i].repr !! content[j].repr)
  }

  ghost predicate Members(content: seq<Node?>, within: set<Node>) {
    forall i :: 0 <= i < |content| && content[i] != null ==> content[i] in within
  }

  ghost function TreesOf(content: seq<Node?>, within: set<Node>): (trees: seq<Tree>)
    requires Members(content, within)
    reads within
    ensures |trees| == |content| && forall i :: 0 <= i < |content| ==> trees[i] == TreeOf(content[i])
  {
    if content == [] then [] else TreesOf(content[..|content| - 1], within) + [TreeOf(content[|content| - 1])]
  }

  lemma ForestMembers(content: seq<Node?>, within: set<Node>)
    requires Forest(content, within)
    ensures Members(content, within)
  {
  }

  lemma Parts(n: Node)
    requires n.Valid()
    ensures n in n.repr && n !in n.repr - {n} && Forest(n.content, n.repr - {n}) && Members(n.content, n.repr - {n})
    ensures n.tree == Tree(n.kind, n.tag, n.value, TreesOf(n.content, n.repr - {n}))
  {
  }

  /** Makes a node stand for its fields, once its content is a forest. */
  ghost method Assemble(n: Node, within: set<Node>)
    requires n !in within && Forest(n.content, within)
    modifies n`tree, n`repr
    ensures n.Valid() && n.repr == {n} + within
    ensures Members(n.content, within) && n.tree == Tree(n.kind, n.tag, n.value, TreesOf(n.content, within))
  {
    ForestMembers(n.content, within);
    n.repr := {n} + within;
    n.tree := Tree(n.kind, n.tag, n.value, TreesOf(n.content, within));
    assert n.repr - {n} == within;
  }

  lemma PartWithin(content: seq<Node?>, within: set<Node>, i: nat)
    requires Forest(content, within) && i < |content|
    ensures ReprOf(content[i]) == within || ReprOf(content[i]) < within
    ensures content[i] != null ==> content[i] in within && content[i] in content[i].repr && content[i].Valid()
  {
  }

  lemma Grown(content: seq<Node?>, within: set<Node>, next: Node?, more: set<Node>)
    requires Forest(content, within) && within !! more
    requires next != null ==> next in more && next.repr <= more && next.Valid()
    ensures Forest(content + [next], within + more)
  {
  }

  /** deepCopyNode, on a tree. */
  method DeepCopy(n: Node?) returns (cp: Node?)
    requires n != null ==> n.Valid()
    ensures n == null <==> cp == null
    ensures cp != null ==> cp.Valid() && fresh(cp.repr) && cp.tree == n.tree
    decreases ReprOf(n), 0
  {
    if n == null { return null; }
    hide Node.Valid, Forest, TreesOf;
    Parts(n);
    ghost var within := n.repr - {n};
    var content, made := DeepCopyAll(n.content, within);
    cp := new Node(n.kind, n.tag, n.value, content, made);
  }

  method DeepCopyAll(content: seq<Node?>, ghost within: set<Node>) returns (copies: seq<Node?>, ghost made: set<Node>)
    requires Forest(content, within)
    ensures Forest(copies, made) && fresh(made) && |copies| == |content|
    ensures Members(content, within) && Members(copies, made) && TreesOf(copies, made) == TreesOf(content, within)
    decreases within, 1
  {
    copies, made := [], {};
    for i := 0 to |content|
      invariant Forest(copies, made) && fresh(made) && |copies| == i
      invariant forall j :: 0 <= j < i ==> TreeOf(copies[j]) == TreeOf(content[j])
    {
      PartWithin(content, within, i);
      var cp := DeepCopy(content[i]);
      Grown(copies, made, cp, ReprOf(cp));
      copies, made := copies + [cp], made + ReprOf(cp);
    }
    ForestMembers(content, within);
    ForestMembers(copies, made);
  }

  // ----- reading

  /** A node stands for its fields and its children's trees. */
  lemma Child(n: Node, i: nat)
    requires n.Valid() && i < |n.content|
    ensures |n.tree.content| == |n.content| && n.tree.content[i] == TreeOf(n.content[i])
    ensures ReprOf(n.content[i]) < n.repr
    ensures n.content[i] != null ==> n.content[i].Valid() && n.content[i] in n.repr
    ensures n.content[i] != null ==> Stands(n.content[i])
  {
    PartWithin(n.content, n.repr - {n}, i);
  }

  ghost predicate Stands(n: Node)
    reads n
  {
    n.tree.Tree? && n.tree.kind == n.kind && n.tree.tag == n.tag && n.tree.value == n.value &&
    |n.tree.content| == |n.content|
  }

  lemma StandsFor(n: Node)
    requires n.Valid()
    ensures Stands(n)
  {
  }

  method FindMapKeyIndex(mapNode: Node?, key: Text) returns (r: int)
    requires mapNode != null ==> mapNode.Valid()
    ensures r == if mapNode == null || !mapNode.kind.Mapping? then -1 else FindKey(mapNode.tree.content, key)
  {
    if mapNode == null || !mapNode.kind.Mapping? { return -1; }
    hide Node.Valid;
    StandsFor(mapNode);
    var i := 0;
    while i + 1 < |mapNode.content|
      invariant FindKey(mapNode.tree.content, key) == FindKeyFrom(mapNode.tree.content, key, i)
      decreases |mapNode.content| - i
    {
      Child(mapNode, i);
      if mapNode.content[i] != null && mapNode.content[i].value == key { return i; }
      i := i + 2;
    }
    return -1;
  }

  method IsZeroScalar(tag: Text, value: Text) returns (zero: bool)
    ensures zero == ZeroScalar(tag, value)
  {
    hide Ascii;
    if tag == BOOL { return value == Ascii("false"); }
    if tag == INT || tag == FLOAT { return value == Ascii("0") || value == Ascii("0.0"); }
    if tag == STR { return value == []; }
    return tag == NULL;
  }

  method IsZeroValueNode(n: Node?) returns (zero: bool)
    requires n != null ==> n.Valid()
    ensures zero == ZeroValue(TreeOf(n))
    decreases ReprOf(n), 1
  {
    if n == null { return true; }
    hide Node.Valid, ZeroScalar;
    StandsFor(n);
    match n.kind {
      case Scalar => zero := IsZeroScalar(n.tag, n.value);
      case Sequence => zero := ElementsAreZero(n);
      case Mapping => zero := ValuesAreZero(n);
      case _ => zero := false;
    }
  }

  method ElementsAreZero(n: Node) returns (zero: bool)
    requires n.Valid()
    ensures zero <==> forall j :: 0 <= j < |n.tree.content| ==> ZeroValue(n.tree.content[j])
    decreases n.repr, 0
  {
    hide Node.Valid, ZeroValue;
    StandsFor(n);
    for i := 0 to |n.content|
      invariant forall j :: 0 <= j < i ==> ZeroValue(n.tree.content[j])
    {
      Child(n, i);
      var z := IsZeroValueNode(n.content[i]);
      if !z { return false; }
    }
    return true;
  }

  method ValuesAreZero(n: Node) returns (zero: bool)
    requires n.Valid()
    ensures zero <==> forall j :: 0 <= j < |n.tree.content| && j % 2 == 1 ==> ZeroValue(n.tree.content[j])
    decreases n.repr, 0
  {
    hide Node.Valid, ZeroValue;
    StandsFor(n);
    var i := 1;
    while i < |n.content|
      invariant i % 2 == 1 && forall j :: 0 <= j < i && j < |n.content| && j % 2 == 1 ==> ZeroValue(n.tree.content[j])
      decreases |n.content| - i
    {
      Child(n, i);
      var z := IsZeroValueNode(n.content[i]);
      if !z { return false; }
      i := i + 2;
    }
    return true;
  }

  method IsKnownDefaultValue(path: Path, n: Node?) returns (known: bool)
    requires n != null ==> n.Valid()
    ensures known == KnownDefault(path, TreeOf(n))
  {
    hide Node.Valid, ZeroValue, ListedDefault, Ascii;
    if n != null { StandsFor(n); }
    if |path| > 0 && path[|path| - 1] == Ascii("weight") && n != null && n.kind.Scalar? && n.tag == INT {
      return false;
    }
    known := IsZeroValueNode(n);
    if known { return; }
    known := IsListedDefault(path, n);
  }

  method IsListedDefault(path: Path, n: Node?) returns (listed: bool)
    requires n != null ==> n.Valid()
    ensures listed == ListedDefault(path, TreeOf(n))
  {
    hide Node.Valid, Ascii, Join, ListedText;
    if n != null { StandsFor(n); }
    if |path| == 0 || n == null || !n.kind.Scalar? { return false; }
    var fullPath := Join(path, DOT);
    if n.tag == STR {
      listed := ListedText(fullPath, n.value);
      if listed { return; }
    }
    listed := n.tag == INT && fullPath == Ascii("error-logs-max-files") && n.value == Ascii("10");
  }

  method NodesStructurallyEqual(a: Node?, b: Node?) returns (equal: bool)
    requires a != null ==> a.Valid()
    requires b != null ==> b.Valid()
    ensures equal == StructurallyEqual(TreeOf(a), TreeOf(b))
    decreases ReprOf(a)
  {
    hide Node.Valid;
    if a != null { StandsFor(a); }
    if b != null { StandsFor(b); }
    if a == null || b == null { return a == null && b == null; }
    if a.kind != b.kind { return false; }
    if !a.kind.Mapping? && !a.kind.Sequence? { return Trim(a.value) == Trim(b.value); }
    if |a.content| != |b.content| { return false; }
    // a mapping is compared pair by pair
    var end := if a.kind.Mapping? then |a.content| / 2 * 2 else |a.content|;
    for i := 0 to end
      invariant forall j :: 0 <= j < i ==> StructurallyEqual(a.tree.content[j], b.tree.content[j])
    {
      Child(a, i);
      Child(b, i);
      var same := NodesStructurallyEqual(a.content[i], b.content[i]);
      if !same { return false; }
    }
    return true;
  }

  method MappingScalarValue(n: Node, key: Text) returns (v: Text)
    requires n.Valid() && n.kind.Mapping?
    ensures v == ScalarUnder(n.tree.content, key, 0)
  {
    hide Node.Valid, Trim, ToLower;
    StandsFor(n);
    var i := 0;
    while i + 1 < |n.content|
      invariant ScalarUnder(n.tree.content, key, 0) == ScalarUnder(n.tree.content, key, i)
      decreases |n.content| - i
    {
      Child(n, i);
      Child(n, i + 1);
      var k, w := n.content[i], n.content[i + 1];
      if k != null && w != null && w.kind.Scalar? && ToLower(Trim(k.value)) == key { return Trim(w.value); }
      i := i + 2;
    }
    return [];
  }

  method SequenceElementIdentity(n: Node?) returns (id: Text)
    requires n != null ==> n.Valid()
    ensures n != null ==> id == Identity(n.tree)
    ensures n == null ==> id == []
  {
    if n == null { return []; }
    hide Node.Valid, IdentityFrom;
    StandsFor(n);
    if !n.kind.Mapping? { return []; }
    id := IdentityUnder(n, IDENTITY_KEYS);
  }

  method IdentityUnder(n: Node, keys: seq<Text>) returns (id: Text)
    requires n.Valid() && n.kind.Mapping?
    ensures id == IdentityFrom(n.tree.content, keys)
  {
    hide Node.Valid, Trim, ToLower, ScalarUnder, FirstScalar, Ascii;
    StandsFor(n);
    assert keys[0..] == keys;
    for k := 0 to |keys|
      invariant IdentityFrom(n.tree.content, keys) == IdentityFrom(n.tree.content, keys[k..])
    {
      assert keys[k..][0] == keys[k] && keys[k..][1..] == keys[k + 1..];
      var v := MappingScalarValue(n, keys[k]);
      if v != [] { return keys[k] + Ascii("=") + v; }
    }
    id := FirstScalarEntry(n);
  }

  /** The first entry with a non-blank scalar. */
  method FirstScalarEntry(n: Node) returns (id: Text)
    requires n.Valid()
    ensures id == FirstScalar(n.tree.content, 0)
  {
    hide Node.Valid, Trim, ToLower, Ascii;
    StandsFor(n);
    var i := 0;
    while i + 1 < |n.content|
      invariant FirstScalar(n.tree.content, 0) == FirstScalar(n.tree.content, i)
      decreases |n.content| - i
    {
      Child(n, i);
      Child(n, i + 1);
      var k, w := n.content[i], n.content[i + 1];
      if k != null && w != null && w.kind.Scalar? && Trim(w.value) != [] {
        return ToLower(Trim(k.value)) + Ascii("=") + Trim(w.value);
      }
      i := i + 2;
    }
    return [];
  }
}
