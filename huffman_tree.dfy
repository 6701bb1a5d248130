/** The tree builder: parents created by merge wait in lists keyed by their frequency until
    the queue hands their pair back, and the code generator walks a finished tree. */
module HuffmanTrees {
  import opened Wrappers
  import opened Pairs
  import opened Bits
  import opened Bags
  import opened Trees

  /** nodesByFrequency: for each frequency, the parent nodes created with it, oldest first. */
  type Lists = map<int, seq<TreeNode>>

  /** The list held for a frequency; a frequency without a list has none stored. */
  function ListAt(L: Lists, f: int): seq<TreeNode> {
    if f in L then L[f] else []
  }

  /** Every stored node is an internal node whose pair is (INTERNAL, its key). */
  ghost predicate WellStored(L: Lists) {
    forall f, i :: f in L && 0 <= i < |L[f]| ==> L[f][i].Node? && L[f][i].data == CharFrequencyPair(INTERNAL, f)
  }

  /** How many stored nodes of frequency f taking the pair p uses up: one for an internal
      pair of that frequency, none otherwise. */
  function Needed(p: CharFrequencyPair, f: int): int {
    if p.character == INTERNAL && p.frequency == f then 1 else 0
  }

  /** There are stored nodes for the internal pairs among left and right (two when both are
      internal with the same frequency). */
  ghost predicate Available(L: Lists, a: CharFrequencyPair, b: CharFrequencyPair) {
    forall f :: Needed(a, f) + Needed(b, f) <= |ListAt(L, f)|
  }

  /** The subtree merge uses for a pair: the first stored node of its frequency, which is
      then removed from its list, for an internal pair; a fresh leaf otherwise. */
  function Take(L: Lists, p: CharFrequencyPair): (TreeNode, Lists)
    requires p.character == INTERNAL ==> |ListAt(L, p.frequency)| > 0
  {
    if p.character == INTERNAL then (L[p.frequency][0], L[p.frequency := L[p.frequency][1..]])
    else (Leaf(p), L)
  }

  /** The parent merge builds and the lists after it took its children. A leaf left pair
      with an internal right pair is the one case where the children are swapped: the stored
      node goes left and the leaf right. */
  function Merged(L: Lists, a: CharFrequencyPair, b: CharFrequencyPair): (TreeNode, Lists)
    requires Available(L, a, b)
  {
    var pp := CharFrequencyPair(INTERNAL, a.frequency + b.frequency);
    assert Needed(a, a.frequency) + Needed(b, a.frequency) <= |ListAt(L, a.frequency)|;
    assert Needed(a, b.frequency) + Needed(b, b.frequency) <= |ListAt(L, b.frequency)|;
    if a.character != INTERNAL && b.character == INTERNAL then
      var t := Take(L, b);
      (Node(pp, t.0, Leaf(a)), t.1)
    else
      var t1 := Take(L, a);
      var t2 := Take(t1.1, b);
      (Node(pp, t1.0, t2.0), t2.1)
  }

  /** Appends a parent to the list of its frequency, creating the list when needed. */
  function Store(L: Lists, t: TreeNode): Lists {
    L[t.data.frequency := ListAt(L, t.data.frequency) + [t]]
  }

  /** The lists after merge(a, b). */
  function AfterMerge(L: Lists, a: CharFrequencyPair, b: CharFrequencyPair): Lists
    requires Available(L, a, b)
  {
    var m := Merged(L, a, b);
    Store(m.1, m.0)
  }

  /** The parent merge builds has the pair (INTERNAL, a + b) and the children the source
      chooses in each of its four cases. */
  lemma {:induction false} MergedParent(L: Lists, a: CharFrequencyPair, b: CharFrequencyPair)
    requires Available(L, a, b)
    ensures var n := Merged(L, a, b).0;
      && n.Node? && n.data == CharFrequencyPair(INTERNAL, a.frequency + b.frequency)
      && (a.character != INTERNAL && b.character != INTERNAL ==> n.left == Leaf(a) && n.right == Leaf(b))
      && (a.character == INTERNAL && b.character != INTERNAL ==>
            n.left == ListAt(L, a.frequency)[0] && n.right == Leaf(b))
      && (a.character != INTERNAL && b.character == INTERNAL ==>
            n.left == ListAt(L, b.frequency)[0] && n.right == Leaf(a))
      && (a.character == INTERNAL && b.character == INTERNAL ==>
            && n.left == ListAt(L, a.frequency)[0]
            && n.right == (if a.frequency == b.frequency then ListAt(L, a.frequency)[1] else ListAt(L, b.frequency)[0]))
  {
    assert Needed(a, a.frequency) + Needed(b, a.frequency) <= |ListAt(L, a.frequency)|;
    assert Needed(a, b.frequency) + Needed(b, b.frequency) <= |ListAt(L, b.frequency)|;
  }

  /** merge drops exactly the first stored node for each internal argument from the front of
      its list, appends the parent at the end of the list for the sum, and changes no other
      list. */
  lemma {:induction false} MergedLists(L: Lists, a: CharFrequencyPair, b: CharFrequencyPair, f: int)
    requires Available(L, a, b)
    ensures Needed(a, f) + Needed(b, f) <= |ListAt(L, f)|
    ensures ListAt(AfterMerge(L, a, b), f)
         == ListAt(L, f)[Needed(a, f) + Needed(b, f)..]
            + (if f == a.frequency + b.frequency then [Merged(L, a, b).0] else [])
  {
    assert Needed(a, f) + Needed(b, f) <= |ListAt(L, f)|;
    assert Needed(a, a.frequency) + Needed(b, a.frequency) <= |ListAt(L, a.frequency)|;
    assert Needed(a, b.frequency) + Needed(b, b.frequency) <= |ListAt(L, b.frequency)|;
    MergedParent(L, a, b);
    var s := ListAt(L, f);
    if a.character == INTERNAL && b.character == INTERNAL && a.frequency == f && b.frequency == f {
      assert s[1..][1..] == s[2..];
    }
  }

  /** The number of stored nodes per frequency after merge. */
  lemma {:induction false} MergedCounts(L: Lists, a: CharFrequencyPair, b: CharFrequencyPair, f: int)
    requires Available(L, a, b)
    ensures |ListAt(AfterMerge(L, a, b), f)|
         == |ListAt(L, f)| - Needed(a, f) - Needed(b, f) + (if f == a.frequency + b.frequency then 1 else 0)
  {
    MergedLists(L, a, b, f);
  }

  /** merge keeps every stored node internal and filed under its own frequency. */
  lemma {:induction false} MergedWellStored(L: Lists, a: CharFrequencyPair, b: CharFrequencyPair)
    requires WellStored(L) && Available(L, a, b)
    ensures WellStored(AfterMerge(L, a, b))
  {
    var L': Lists := AfterMerge(L, a, b);
    MergedParent(L, a, b);
    forall f, i | f in L' && 0 <= i < |L'[f]|
      ensures L'[f][i].Node? && L'[f][i].data == CharFrequencyPair(INTERNAL, f)
    {
      MergedLists(L, a, b, f);
      assert L'[f] == ListAt(L', f);
      var k := Needed(a, f) + Needed(b, f);
      if i < |ListAt(L, f)| - k {
        assert L'[f][i] == ListAt(L, f)[k + i];
        assert f in L;
      }
    }
  }

  /** Some key of a non-empty map of lists. */
  ghost function PickKey(L: Lists): int
    requires |L| > 0
  {
    HasKey(L);
    var k :| k in L; k
  }

  lemma {:induction false} HasKey(L: Lists)
    requires |L| > 0
    ensures exists k :: k in L
  {
    if forall k :: k !in L {
      assert false;
    }
  }

  /** All stored nodes, counted with multiplicity. */
  ghost function Forest(L: Lists): multiset<TreeNode>
    decreases |L.Keys|
  {
    if |L| == 0 then multiset{}
    else
      var k := PickKey(L);
      assert L.Keys == (L - {k}).Keys + {k};
      multiset(L[k]) + Forest(L - {k})
  }

  /** The forest does not depend on the order in which the keys are visited. */
  lemma {:induction false} ForestRemove(L: Lists, k: int)
    requires k in L
    ensures Forest(L) == multiset(L[k]) + Forest(L - {k})
    decreases |L.Keys|
  {
    var j := PickKey(L);
    assert L.Keys == (L - {j}).Keys + {j};
    if j != k {
      var Lj, Lk := L - {j}, L - {k};
      assert Lk.Keys == (Lk - {j}).Keys + {j};
      var rest := Lj - {k};
      assert rest == Lk - {j};
      ForestRemove(Lj, k);
      ForestRemove(Lk, j);
      assert Forest(L) == multiset(L[j]) + (multiset(L[k]) + Forest(rest));
      assert Forest(Lk) == multiset(L[j]) + Forest(rest);
      Swap(multiset(L[j]), multiset(L[k]), Forest(rest));
    }
  }

  lemma {:induction false} RemoveUpdated(L: Lists, k: int, s: seq<TreeNode>)
    ensures L[k := s] - {k} == L - {k}
    ensures k !in L ==> L - {k} == L
  {
  }

  /** Replacing one list changes the forest by exactly the nodes of the two lists. */
  lemma {:induction false} ForestUpdate(L: Lists, k: int, s: seq<TreeNode>)
    ensures Forest(L[k := s]) + multiset(ListAt(L, k)) == Forest(L) + multiset(s)
  {
    RemoveUpdated(L, k, s);
    ForestRemove(L[k := s], k);
    if k in L {
      ForestRemove(L, k);
    }
  }

  /** A map whose lists are all empty stores no node. */
  lemma {:induction false} ForestEmpty(L: Lists)
    requires forall k :: k in L ==> L[k] == []
    ensures Forest(L) == multiset{}
    decreases |L.Keys|
  {
    if |L| > 0 {
      var k := PickKey(L);
      assert L.Keys == (L - {k}).Keys + {k};
      ForestEmpty(L - {k});
    }
  }

  /** A map with a single stored node stores just that node. */
  lemma {:induction false} ForestSingle(L: Lists, f: int)
    requires forall k :: |ListAt(L, k)| == (if k == f then 1 else 0)
    ensures Forest(L) == multiset{ListAt(L, f)[0]}
  {
    assert |ListAt(L, f)| == 1;
    ForestRemove(L, f);
    forall k | k in L - {f} ensures (L - {f})[k] == [] {
      assert |ListAt(L, k)| == 0;
    }
    ForestEmpty(L - {f});
    assert L[f] == [L[f][0]];
  }

  /** The leaf characters of one tree. */
  function TreeSymbols(t: TreeNode): multiset<int> {
    multiset(Symbols(t))
  }

  /** The leaf characters of a multiset of trees. */
  ghost function LeafSymbols(m: multiset<TreeNode>): multiset<int> {
    Bag(m, TreeSymbols)
  }

  /** The character a queue pair contributes as a leaf: its own for a leaf pair, none for an
      internal one (whose leaves are in the stored node). */
  function LeafPart(p: CharFrequencyPair): multiset<int> {
    if p.character == INTERNAL then multiset{} else multiset{p.character}
  }

  /** Taking a pair's subtree moves its leaf characters from the pair (or the stored node)
      into the taken tree. */
  lemma {:induction false} TakeLeaves(L: Lists, p: CharFrequencyPair)
    requires p.character == INTERNAL ==> |ListAt(L, p.frequency)| > 0
    ensures LeafSymbols(Forest(L)) + LeafPart(p)
         == LeafSymbols(Forest(Take(L, p).1)) + TreeSymbols(Take(L, p).0)
  {
    if p.character == INTERNAL {
      var s := L[p.frequency];
      assert ListAt(L, p.frequency) == s;
      ForestUpdate(L, p.frequency, s[1..]);
      assert s == [s[0]] + s[1..];
      assert multiset(s) == multiset{s[0]} + multiset(s[1..]);
      var F' := Forest(Take(L, p).1);
      assert (F' + multiset{s[0]}) + multiset(s[1..]) == Forest(L) + multiset(s[1..]);
      Cancel(F' + multiset{s[0]}, Forest(L), multiset(s[1..]));
      BagAdd(F', TreeSymbols, s[0]);
    }
  }

  /** Filing a parent adds its leaf characters to the stored ones. */
  lemma {:induction false} StoreLeaves(L: Lists, n: TreeNode)
    ensures LeafSymbols(Forest(Store(L, n))) == LeafSymbols(Forest(L)) + TreeSymbols(n)
  {
    var k := n.data.frequency;
    ForestUpdate(L, k, ListAt(L, k) + [n]);
    assert multiset(ListAt(L, k) + [n]) == multiset(ListAt(L, k)) + multiset{n};
    Cancel(Forest(Store(L, n)), Forest(L) + multiset{n}, multiset(ListAt(L, k)));
    BagAdd(Forest(L), TreeSymbols, n);
  }

  /** The leaf-characters bookkeeping of merge when the leaf left pair goes right. */
  lemma {:induction false} SwappedLeaves(L: Lists, a: CharFrequencyPair, b: CharFrequencyPair, pp: CharFrequencyPair)
    requires a.character != INTERNAL && b.character == INTERNAL && |ListAt(L, b.frequency)| > 0
    ensures var (l, L2) := Take(L, b);
      LeafSymbols(Forest(Store(L2, Node(pp, l, Leaf(a))))) == LeafSymbols(Forest(L)) + LeafPart(a) + LeafPart(b)
  {
    var (l, L2) := Take(L, b);
    var n := Node(pp, l, Leaf(a));
    StoreLeaves(L2, n);
    TakeLeaves(L, b);
    assert TreeSymbols(n) == TreeSymbols(l) + LeafPart(a) by {
      assert Symbols(n) == Symbols(l) + [a.character];
    }
    // the leaf a passes from the queue straight into the new parent
    Regroup(LeafSymbols(Forest(Store(L2, n))), LeafSymbols(Forest(L)), LeafSymbols(Forest(L2)),
            LeafSymbols(Forest(L2)), TreeSymbols(n), TreeSymbols(l), LeafPart(a), LeafPart(b), LeafPart(a));
  }

  /** The leaf-characters bookkeeping of merge when the children keep their order. */
  lemma {:induction false} InOrderLeaves(L: Lists, a: CharFrequencyPair, b: CharFrequencyPair, pp: CharFrequencyPair)
    requires a.character == INTERNAL ==> |ListAt(L, a.frequency)| > 0
    requires b.character == INTERNAL ==> |ListAt(Take(L, a).1, b.frequency)| > 0
    ensures var (l, L1) := Take(L, a);
      var (r, L2) := Take(L1, b);
      LeafSymbols(Forest(Store(L2, Node(pp, l, r)))) == LeafSymbols(Forest(L)) + LeafPart(a) + LeafPart(b)
  {
    var (l, L1) := Take(L, a);
    var (r, L2) := Take(L1, b);
    var n := Node(pp, l, r);
    StoreLeaves(L2, n);
    TakeLeaves(L, a);
    TakeLeaves(L1, b);
    assert TreeSymbols(n) == TreeSymbols(l) + TreeSymbols(r) by {
      assert Symbols(n) == Symbols(l) + Symbols(r);
    }
    Regroup(LeafSymbols(Forest(Store(L2, n))), LeafSymbols(Forest(L)), LeafSymbols(Forest(L1)),
            LeafSymbols(Forest(L2)), TreeSymbols(n), TreeSymbols(l), TreeSymbols(r), LeafPart(a), LeafPart(b));
  }

  /** merge keeps the leaf characters: those of the two pairs and of all stored nodes before
      are those of all stored nodes after. */
  lemma {:induction false} MergedLeaves(L: Lists, a: CharFrequencyPair, b: CharFrequencyPair)
    requires Available(L, a, b)
    ensures LeafSymbols(Forest(AfterMerge(L, a, b))) == LeafSymbols(Forest(L)) + LeafPart(a) + LeafPart(b)
  {
    assert Needed(a, a.frequency) + Needed(b, a.frequency) <= |ListAt(L, a.frequency)|;
    assert Needed(a, b.frequency) + Needed(b, b.frequency) <= |ListAt(L, b.frequency)|;
    var pp := CharFrequencyPair(INTERNAL, a.frequency + b.frequency);
    if a.character != INTERNAL && b.character == INTERNAL {
      assert AfterMerge(L, a, b) == Store(Take(L, b).1, Node(pp, Take(L, b).0, Leaf(a)));
      SwappedLeaves(L, a, b, pp);
    } else {
      var t1 := Take(L, a);
      var t2 := Take(t1.1, b);
      assert AfterMerge(L, a, b) == Store(t2.1, Node(pp, t1.0, t2.0));
      InOrderLeaves(L, a, b, pp);
    }
  }

  /** Setting the next slot of the code path extends the path's characters by one bit. */
  lemma {:induction false} PathExtend(s: seq<bool>, d: nat, b: bool)
    requires d + 1 < |s|
    ensures ToChars(s[d + 1 := b][1..d + 2]) == ToChars(s[1..d + 1]) + [BitChar(b)]
  {
    assert s[d + 1 := b][1..d + 2] == s[1..d + 1] + [b];
  }

  /** Paths read from arrays that agree on their first k slots are equal. */
  lemma {:induction false} PathPrefix(s: seq<bool>, s': seq<bool>, k: nat)
    requires 1 <= k <= |s| && k <= |s'| && s[..k] == s'[..k]
    ensures ToChars(s[1..k]) == ToChars(s'[1..k])
  {
    assert s[1..k] == s[..k][1..] && s'[1..k] == s'[..k][1..];
  }

  /** The code paths of the two children of the node at depth d: the node's own path and
      one bit more. `here` is the path array at the node, `mid` after the left subtree,
      `last` after the right one; each agrees with the bit set for it up to its depth. */
  lemma {:induction false} ChildPaths(here: seq<bool>, mid: seq<bool>, last: seq<bool>, d: nat)
    requires d + 1 < |here| && |mid| == |here| && |last| == |here|
    requires mid[..d + 2] == here[d + 1 := false][..d + 2]
    requires last[..d + 2] == mid[d + 1 := true][..d + 2]
    ensures ToChars(here[d + 1 := false][1..d + 2]) == ToChars(here[1..d + 1]) + "0"
    ensures ToChars(mid[d + 1 := true][1..d + 2]) == ToChars(here[1..d + 1]) + "1"
    ensures last[..d + 1] == here[..d + 1]
  {
    PathExtend(here, d, false);
    assert mid[..d + 1] == here[..d + 1];
    PathPrefix(mid, here, d + 1);
    PathExtend(mid, d, true);
  }

  /** The tree being built; its only state is nodesByFrequency. */
  class HuffmanTree {
    var nodesByFrequency: Lists

    ghost predicate Valid()
      reads this
    {
      WellStored(nodesByFrequency)
    }

    constructor ()
      ensures Valid() && nodesByFrequency == map[]
    {
      nodesByFrequency := map[];
    }

    /** The first stored node for the pair's frequency: an internal node of that frequency. */
    function GetRoot(pair: CharFrequencyPair): (t: TreeNode)
      reads this
      requires Valid() && |ListAt(nodesByFrequency, pair.frequency)| > 0
      ensures t.Node? && t.data == CharFrequencyPair(INTERNAL, pair.frequency)
      ensures t in Forest(nodesByFrequency)
    {
      ForestRemove(nodesByFrequency, pair.frequency);
      nodesByFrequency[pair.frequency][0]
    }

    /** Builds the parent of two pairs, files it under its frequency and returns its pair. */
    method Merge(left: CharFrequencyPair, right: CharFrequencyPair) returns (parentPair: CharFrequencyPair)
      requires Valid() && Available(nodesByFrequency, left, right)
      modifies this
      ensures Valid()
      ensures parentPair == CharFrequencyPair(INTERNAL, left.frequency + right.frequency)
      ensures nodesByFrequency == AfterMerge(old(nodesByFrequency), left, right)
    {
      ghost var L := nodesByFrequency;
      assert Needed(left, left.frequency) + Needed(right, left.frequency) <= |ListAt(L, left.frequency)|;
      assert Needed(left, right.frequency) + Needed(right, right.frequency) <= |ListAt(L, right.frequency)|;
      parentPair := CharFrequencyPair(INTERNAL, left.frequency + right.frequency);
      var l, r;
      var nodeList: seq<TreeNode>;
      if left.character == INTERNAL && right.character == INTERNAL {
        nodeList := nodesByFrequency[left.frequency];
        l := nodeList[0];
        nodesByFrequency := nodesByFrequency[left.frequency := nodeList[1..]];
        nodeList := nodesByFrequency[right.frequency];
        r := nodeList[0];
        nodesByFrequency := nodesByFrequency[right.frequency := nodeList[1..]];
      } else if left.character == INTERNAL {
        nodeList := nodesByFrequency[left.frequency];
        l := nodeList[0];
        nodesByFrequency := nodesByFrequency[left.frequency := nodeList[1..]];
        r := Leaf(right);
      } else if right.character == INTERNAL {
        nodeList := nodesByFrequency[right.frequency];
        l := nodeList[0];
        nodesByFrequency := nodesByFrequency[right.frequency := nodeList[1..]];
        r := Leaf(left);
      } else {
        l := Leaf(left);
        r := Leaf(right);
      }
      var parentNode := Node(parentPair, l, r);
      assert (parentNode, nodesByFrequency) == Merged(L, left, right);
      ghost var L1 := nodesByFrequency;
      var frequency := parentNode.data.frequency;
      if frequency in nodesByFrequency {
        nodeList := nodesByFrequency[frequency];
        nodesByFrequency := nodesByFrequency[frequency := nodeList + [parentNode]];
      } else {
        assert ListAt(L1, frequency) + [parentNode] == [parentNode];
        nodesByFrequency := nodesByFrequency[frequency := [parentNode]];
      }
      assert nodesByFrequency == Store(L1, parentNode);
      MergedWellStored(L, left, right);
    }

    /** The code of a leaf at the given depth: '1' or '0' for each of codePath[1..depth]. */
    static method CodeString(codePath: array<bool>, depth: int) returns (code: string)
      requires 0 <= depth < codePath.Length
      ensures code == ToChars(codePath[1..depth + 1])
    {
      code := "";
      var j := 1;
      while j <= depth
        invariant 1 <= j <= depth + 1
        invariant code == ToChars(codePath[1..j])
      {
        code := code + [if codePath[j] then '1' else '0'];
        assert codePath[1..j + 1] == codePath[1..j] + [codePath[j]];
        j := j + 1;
      }
    }

    /** Walks the tree below root. codePath[1..depth] holds the bits of the path from the
        top-level root to root's parent; root's own bit goes to codePath[depth]; every leaf
        is recorded under the bits codePath[1..depth] of its path, the top-level root's bit
        at index 0 being left out. The maps are returned instead of being updated in place. */
    method GenerateCodes(root: Option<TreeNode>, encodingMap: map<int, string>, decodingMap: map<string, int>,
                         depth: int, codePath: array<bool>, bit: bool)
      returns (enc: map<int, string>, dec: map<string, int>)
      requires 0 <= depth
      requires root.Some? ==> depth + Height(root.value) < codePath.Length
      modifies codePath
      ensures root.None? ==> enc == encodingMap && dec == decodingMap && codePath[..] == old(codePath[..])
      ensures root.Some? ==>
        var path := ToChars(old(codePath[..])[depth := bit][1..depth + 1]);
        && enc == PutEncoding(encodingMap, LeafCodes(root.value, path))
        && dec == PutDecoding(decodingMap, LeafCodes(root.value, path))
        && codePath[..depth + 1] == old(codePath[..])[depth := bit][..depth + 1]
      decreases if root.Some? then 1 + Height(root.value) else 0
    {
      if root.None? {
        return encodingMap, decodingMap;
      }
      var t := root.value;
      ghost var before := codePath[..];
      codePath[depth] := bit;
      ghost var here := codePath[..];
      ghost var path := ToChars(here[1..depth + 1]);
      enc, dec := encodingMap, decodingMap;
      if LeftChild(t).None? && RightChild(t).None? {
        var code := CodeString(codePath, depth);
        enc := enc[t.data.character := code];
        dec := dec[code := t.data.character];
        assert code == path;
      }
      enc, dec := GenerateCodes(LeftChild(t), enc, dec, depth + 1, codePath, false);
      ghost var afterLeft := codePath[..];
      enc, dec := GenerateCodes(RightChild(t), enc, dec, depth + 1, codePath, true);
      if t.Node? {
        PutEncodingAppend(encodingMap, LeafCodes(t.left, path + "0"), LeafCodes(t.right, path + "1"));
        PutDecodingAppend(decodingMap, LeafCodes(t.left, path + "0"), LeafCodes(t.right, path + "1"));
        ChildPaths(here, afterLeft, codePath[..], depth);
      }
    }
  }
}
