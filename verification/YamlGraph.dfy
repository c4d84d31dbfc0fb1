// deepCopyNode of internal/config/config_yaml.go on node graphs, which aliases may make cyclic.
module YamlGraph {
  import opened YamlTree

  class Node {
    var kind: Kind
    var tag: Text
    var value: Text
    var alias: Node?
    var content: seq<Node?>

    /** A copy of the fields, as a struct assignment makes it. */
    constructor Of(n: Node)
      ensures kind == n.kind && tag == n.tag && value == n.value && alias == n.alias && content == n.content
    {
      kind, tag, value, alias, content := n.kind, n.tag, n.value, n.alias, n.content;
    }
  }

  predicate LeadsInto(n: Node, graph: set<Node>)
    reads n
  {
    && (n.alias != null ==> n.alias in graph)
    && forall i :: 0 <= i < |n.content| && n.content[i] != null ==> n.content[i] in graph
  }

  /** No pointer leads out of the graph. */
  predicate Closed(graph: set<Node>)
    reads graph
  {
    forall n :: n in graph ==> LeadsInto(n, graph)
  }

  predicate ImageOf(copies: map<Node, Node>, p: Node?, q: Node?) {
    if p == null then q == null else p in copies && q == copies[p]
  }

  predicate ImagesOf(copies: map<Node, Node>, ps: seq<Node?>, qs: seq<Node?>) {
    |ps| == |qs| && forall i :: 0 <= i < |ps| ==> ImageOf(copies, ps[i], qs[i])
  }

  /** `c` is `n` with every pointer replaced by its image. */
  predicate IsCopy(copies: map<Node, Node>, n: Node, c: Node)
    reads n, c
  {
    && c.kind == n.kind && c.tag == n.tag && c.value == n.value
    && ImageOf(copies, n.alias, c.alias)
    && ImagesOf(copies, n.content, c.content)
  }

  predicate Injective(copies: map<Node, Node>) {
    forall a, b :: a in copies && b in copies && copies[a] == copies[b] ==> a == b
  }

  predicate Extends(copies: map<Node, Node>, copies': map<Node, Node>) {
    forall n :: n in copies ==> n in copies' && copies'[n] == copies[n]
  }

  lemma ImageKept(copies: map<Node, Node>, copies': map<Node, Node>, p: Node?, q: Node?)
    requires Extends(copies, copies') && ImageOf(copies, p, q)
    ensures ImageOf(copies', p, q)
  {
  }

  lemma CopyKept(copies: map<Node, Node>, copies': map<Node, Node>, n: Node, c: Node)
    requires Extends(copies, copies') && IsCopy(copies, n, c)
    ensures IsCopy(copies', n, c)
  {
    hide Extends;
    ImageKept(copies, copies', n.alias, c.alias);
    forall i | 0 <= i < |n.content| ensures ImageOf(copies', n.content[i], c.content[i]) {
      ImageKept(copies, copies', n.content[i], c.content[i]);
    }
  }

  /** Every source node that has a copy lies in the graph, and no copy does. */
  predicate Within(copies: map<Node, Node>, graph: set<Node>) {
    Injective(copies) && copies.Keys <= graph && forall n :: n in copies ==> copies[n] !in graph
  }

  /** One more node has its copy. */
  lemma WithinOneMore(seen: map<Node, Node>, graph: set<Node>, n: Node, c: Node)
    requires Within(seen, graph) && n in graph && n !in seen && c !in graph && forall k :: k in seen ==> seen[k] != c
    ensures Within(seen[n := c], graph) && Extends(seen, seen[n := c])
    ensures |graph - seen[n := c].Keys| < |graph - seen.Keys|
  {
    assert graph - seen.Keys == (graph - (seen.Keys + {n})) + {n};
    assert seen[n := c].Keys == seen.Keys + {n};
  }

  /** deepCopyNodeSeen: `seen` may hold nodes whose copies are still being filled in. It terminates on any
      finite graph, and nothing that existed before the call changes. */
  method DeepCopySeen(n: Node?, seen: map<Node, Node>, ghost graph: set<Node>)
    returns (r: Node?, copies: map<Node, Node>)
    requires Closed(graph) && (n != null ==> n in graph) && Within(seen, graph)
    ensures Extends(seen, copies) && Within(copies, graph) && ImageOf(copies, n, r)
    ensures forall k :: k in copies && k !in seen ==> fresh(copies[k]) && IsCopy(copies, k, copies[k])
    decreases |graph - seen.Keys|, 1
  {
    hide Within, Closed, IsCopy, Extends;
    SelfExtends(seen);
    if n == null { return null, seen; }
    if n in seen { return seen[n], seen; }
    var cp := new Node.Of(n);
    WithinOneMore(seen, graph, n, cp);
    var alias, content;
    var started := seen[n := cp];
    alias, content, copies := CopyPointers(n, started, graph);
    label filled:
    cp.alias, cp.content := alias, content;
    CopyOf(started, copies, graph, n);
    Extended(seen, started, copies);
    forall k | k in copies && k !in seen ensures IsCopy(copies, k, copies[k]) {
      if k != n {
        Apart(copies, graph, k, n);
        assert old@filled(IsCopy(copies, k, copies[k]));
      } else {
        CopiedFields(copies, n, cp);
      }
    }
    return cp, copies;
  }

  /** The copies of the pointers of a node. */
  method CopyPointers(n: Node, seen: map<Node, Node>, ghost graph: set<Node>)
    returns (alias: Node?, content: seq<Node?>, copies: map<Node, Node>)
    requires Closed(graph) && n in graph && Within(seen, graph)
    ensures Extends(seen, copies) && Within(copies, graph)
    ensures ImageOf(copies, n.alias, alias) && ImagesOf(copies, n.content, content)
    ensures forall k :: k in copies && k !in seen ==> fresh(copies[k]) && IsCopy(copies, k, copies[k])
    decreases |graph - seen.Keys|, 2
  {
    hide Within, IsCopy, Extends, ImageOf, ImagesOf;
    assert LeadsInto(n, graph);
    hide Closed;
    alias, copies := DeepCopySeen(n.alias, seen, graph);
    content := [];
    NoImages(copies, n.content);
    for i := 0 to |n.content|
      invariant Extends(seen, copies) && Within(copies, graph)
      invariant ImageOf(copies, n.alias, alias) && ImagesOf(copies, n.content[..i], content)
      invariant forall k :: k in copies && k !in seen ==> fresh(copies[k]) && IsCopy(copies, k, copies[k])
    {
      ghost var before := copies;
      Fewer(graph, seen, copies);
      var c;
      c, copies := DeepCopySeen(n.content[i], copies, graph);
      Extended(seen, before, copies);
      ImageKept(before, copies, n.alias, alias);
      NextImage(before, copies, n.content, i, content, c);
      forall k | k in copies && k !in seen ensures fresh(copies[k]) && IsCopy(copies, k, copies[k]) {
        if k in before {
          AtKey(before, copies, k);
          CopyKept(before, copies, k, before[k]);
        }
      }
      content := content + [c];
    }
    assert n.content[..|n.content|] == n.content;
  }

  lemma NoImages(copies: map<Node, Node>, ps: seq<Node?>)
    ensures ImagesOf(copies, ps[..0], [])
  {
  }

  lemma NextImage(before: map<Node, Node>, copies: map<Node, Node>, ps: seq<Node?>, i: nat, qs: seq<Node?>, q: Node?)
    requires i < |ps| && Extends(before, copies) && ImagesOf(before, ps[..i], qs) && ImageOf(copies, ps[i], q)
    ensures ImagesOf(copies, ps[..i + 1], qs + [q])
  {
    forall j | 0 <= j < i ensures ImageOf(copies, ps[j], qs[j]) {
      assert ps[..i][j] == ps[j];
      ImageKept(before, copies, ps[j], qs[j]);
    }
  }

  lemma SelfExtends(copies: map<Node, Node>)
    ensures Extends(copies, copies)
  {
  }

  lemma Extended(a: map<Node, Node>, b: map<Node, Node>, c: map<Node, Node>)
    requires Extends(a, b) && Extends(b, c)
    ensures Extends(a, c)
  {
  }

  lemma AtKey(a: map<Node, Node>, b: map<Node, Node>, k: Node)
    requires Extends(a, b) && k in a
    ensures k in b && b[k] == a[k]
  {
  }

  lemma Fewer(graph: set<Node>, a: map<Node, Node>, b: map<Node, Node>)
    requires Extends(a, b)
    ensures |graph - b.Keys| <= |graph - a.Keys|
  {
    assert graph - a.Keys == (graph - b.Keys) + (graph - a.Keys) * b.Keys;
  }

  lemma CopyOf(started: map<Node, Node>, copies: map<Node, Node>, graph: set<Node>, n: Node)
    requires Extends(started, copies) && n in started
    ensures n in copies && copies[n] == started[n]
  {
  }

  lemma Apart(copies: map<Node, Node>, graph: set<Node>, k: Node, n: Node)
    requires Within(copies, graph) && k in copies && n in copies && k != n
    ensures copies[k] != copies[n] && k != copies[n]
  {
  }

  lemma CopiedFields(copies: map<Node, Node>, n: Node, c: Node)
    requires c.kind == n.kind && c.tag == n.tag && c.value == n.value && ImageOf(copies, n.alias, c.alias)
    requires ImagesOf(copies, n.content, c.content)
    ensures IsCopy(copies, n, c)
  {
  }

  /** The nodes that can be reached from `n`: the least closed graph around it. */
  ghost predicate ReachableFrom(n: Node, graph: set<Node>)
    reads graph
  {
    n in graph && Closed(graph) && forall part: set<Node> :: part <= graph && n in part && Closed(part) ==>
      part == graph
  }

  /** deepCopyNode: a graph of new nodes, isomorphic to what can be reached from `n`. Cycles and sharing are
      kept: two pointers to the same node become two pointers to the same copy. */
  method DeepCopyNode(n: Node, ghost graph: set<Node>) returns (r: Node, ghost copies: map<Node, Node>)
    requires ReachableFrom(n, graph)
    ensures copies.Keys == graph && Injective(copies) && r == copies[n]
    ensures forall k :: k in graph ==> fresh(copies[k]) && IsCopy(copies, k, copies[k])
  {
    var cp, made := DeepCopySeen(n, map[], graph);
    copies := made;
    CopiedIsClosed(copies);
    assert copies.Keys == graph;
    return cp, copies;
  }

  lemma CopiedIsClosed(copies: map<Node, Node>)
    requires forall k :: k in copies ==> IsCopy(copies, k, copies[k])
    ensures Closed(copies.Keys)
  {
    forall k | k in copies ensures LeadsInto(k, copies.Keys) {
      assert IsCopy(copies, k, copies[k]);
      forall i | 0 <= i < |k.content| && k.content[i] != null ensures k.content[i] in copies {
        assert ImageOf(copies, k.content[i], copies[k].content[i]);
      }
    }
  }
}
