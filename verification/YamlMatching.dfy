// Which old list element a new one stands for (matchSequenceElement, sequenceElementIdentity and
// nodesStructurallyEqual in internal/config/config_yaml.go), and which plain values count as zero.
module YamlMatching {
  import opened Bytes
  import opened YamlTree

  /** The old element at `i` is still free and satisfies the test. */
  predicate Free(original: seq<Tree>, used: set<nat>, p: Tree -> bool, i: nat) {
    i < |original| && i !in used && original[i].Tree? && p(original[i])
  }

  ghost predicate FirstFree(original: seq<Tree>, used: set<nat>, p: Tree -> bool, r: int) {
    if r >= 0 then Free(original, used, p, r) && forall i: nat :: i < r ==> !Free(original, used, p, i)
    else forall i: nat :: !Free(original, used, p, i)
  }

  lemma {:induction false} FirstUnusedIsFirst(original: seq<Tree>, used: set<nat>, p: Tree -> bool, from: nat)
    requires forall i: nat :: i < from ==> !Free(original, used, p, i)
    ensures FirstFree(original, used, p, FirstUnused(original, used, p, from))
    decreases |original| - from
  {
    if from < |original| && !Free(original, used, p, from) {
      FirstUnusedIsFirst(original, used, p, from + 1);
    }
  }

  /** A new element takes the first free old element with its identity; when there is none, the first free one
      of the same structure; and when there is none either, none. */
  lemma MatchIsFirst(original: seq<Tree>, used: set<nat>, target: Tree)
    requires target.Tree?
    ensures var r, same, equal := MatchElement(original, used, target), BySameIdentity(target), ByStructure(target);
            if exists i: nat :: Free(original, used, same, i) then FirstFree(original, used, same, r) && r >= 0
            else FirstFree(original, used, equal, r)
  {
    hide FirstUnused, StructurallyEqual, SameIdentity;
    FirstUnusedIsFirst(original, used, BySameIdentity(target), 0);
    FirstUnusedIsFirst(original, used, ByStructure(target), 0);
    var byIdentity := FirstUnused(original, used, BySameIdentity(target), 0);
    if byIdentity >= 0 { assert Free(original, used, BySameIdentity(target), byIdentity); }
  }

  lemma {:induction false} EqualToItself(t: Tree)
    ensures StructurallyEqual(t, t)
    decreases t
  {
    hide Trim;
    if t.Tree? {
      forall i | 0 <= i < |t.content| ensures StructurallyEqual(t.content[i], t.content[i]) {
        EqualToItself(t.content[i]);
      }
    }
  }

  /** An element that has not changed always finds an old one while its own is free. */
  lemma UnchangedIsMatched(original: seq<Tree>, used: set<nat>, i: nat)
    requires i < |original| && i !in used && original[i].Tree?
    ensures MatchElement(original, used, original[i]) >= 0
  {
    hide StructurallyEqual, SameIdentity, MatchElement;
    MatchIsFirst(original, used, original[i]);
    EqualToItself(original[i]);
    assert Free(original, used, ByStructure(original[i]), i);
  }

  /** The identity of a mapping is its first preferred key that has a value, with that value. */
  lemma {:induction false} PreferredIdentity(content: seq<Tree>, keys: seq<Text>, k: nat)
    requires k < |keys| && ScalarUnder(content, keys[k], 0) != []
    requires forall j :: 0 <= j < k ==> ScalarUnder(content, keys[j], 0) == []
    ensures IdentityFrom(content, keys) == keys[k] + Ascii("=") + ScalarUnder(content, keys[k], 0)
  {
    hide ScalarUnder;
    if k > 0 { PreferredIdentity(content, keys[1..], k - 1); }
  }

  /** The value of a key: that of its first scalar pair whose trimmed key is this one up to case. */
  lemma {:induction false} ValueUnder(content: seq<Tree>, key: Text, i: nat, j: nat)
    requires i <= j && (j - i) % 2 == 0 && j + 1 < |content| && content[j].Tree? && IsScalar(content[j + 1])
    requires ToLower(Trim(content[j].value)) == key
    requires forall m :: i <= m < j && (m - i) % 2 == 0 && content[m].Tree? && IsScalar(content[m + 1]) ==>
               ToLower(Trim(content[m].value)) != key
    ensures ScalarUnder(content, key, i) == Trim(content[j + 1].value)
    decreases j - i
  {
    hide Trim, ToLower;
    if i < j { ValueUnder(content, key, i + 2, j); }
  }

  function Plain(tag: Text, value: string): Tree {
    Tree(Scalar, tag, Ascii(value), [])
  }

  lemma TagsDiffer()
    ensures BOOL != INT && BOOL != FLOAT && BOOL != STR && BOOL != NULL && INT != FLOAT && INT != STR && INT != NULL
    ensures FLOAT != STR && FLOAT != NULL && STR != NULL
  {
    assert INT[2] == 105 && STR[2] == 115 && BOOL[2] == 98 && NULL[2] == 110;
    assert |BOOL| == 6 && |INT| == 5 && |FLOAT| == 7 && |STR| == 5 && |NULL| == 6;
  }

  /** False, zero, the empty string and null are zero; other values are not. */
  lemma PlainZeros()
    ensures ZeroValue(Plain(BOOL, "false")) && !ZeroValue(Plain(BOOL, "true"))
    ensures ZeroValue(Plain(INT, "0")) && !ZeroValue(Plain(INT, "8")) && !ZeroValue(Plain(INT, "10"))
    ensures ZeroValue(Plain(FLOAT, "0.0")) && !ZeroValue(Plain(FLOAT, "0.5"))
    ensures ZeroValue(Plain(STR, "")) && !ZeroValue(Plain(STR, "0")) && ZeroValue(Plain(NULL, "null"))
  {
    TagsDiffer();
    assert |Ascii("true")| == 4 && |Ascii("false")| == 5 && |Ascii("0")| == 1 && |Ascii("0.0")| == 3;
    assert Ascii("8")[0] == 56 && Ascii("0")[0] == 48 && |Ascii("10")| == 2;
    assert Ascii("0.5")[2] == 53 && Ascii("0.0")[2] == 48;
  }

  /** The values left out at their paths, and only there. */
  lemma PlainDefaults(path: Path)
    ensures ListedDefault([Ascii("plugins"), Ascii("dir")], Plain(STR, "plugins"))
    ensures ListedDefault([Ascii("routing"), Ascii("strategy")], Plain(STR, "round-robin"))
    ensures ListedDefault([Ascii("error-logs-max-files")], Plain(INT, "10"))
    ensures !ListedDefault(path, Plain(STR, "y")) && !ListedDefault(path, Plain(INT, "8"))
    ensures !ListedDefault([Ascii("plugins")], Plain(STR, "plugins"))
  {
    TagsDiffer();
    JoinTwo(Ascii("plugins"), Ascii("dir"));
    JoinTwo(Ascii("routing"), Ascii("strategy"));
    assert Ascii("plugins") + DOT + Ascii("dir") == Ascii("plugins.dir");
    assert Ascii("routing") + DOT + Ascii("strategy") == Ascii("routing.strategy");
    assert Join([Ascii("error-logs-max-files")], DOT) == Ascii("error-logs-max-files");
    assert Join([Ascii("plugins")], DOT) == Ascii("plugins");
    assert |Ascii("plugins")| == 7 && |Ascii("pprof.addr")| == 10 && |Ascii("plugins.dir")| == 11;
    assert |Ascii("routing.strategy")| == 16 && |Ascii("remote-management.panel-github-repository")| == 41;
    hide Join;
    assert |Ascii("y")| == 1 && |Ascii("8")| == 1 && |Ascii("10")| == 2;
  }

  lemma JoinTwo(a: Bytes, b: Bytes)
    ensures Join([a, b], DOT) == a + DOT + b
  {
    assert [a, b][1..] == [b];
  }
}
