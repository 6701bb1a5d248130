/** Huffman tree nodes and the code table read off a tree.

    The Java TreeNode has a data pair and nullable left/right children. Its setters are
    called only on parent nodes that merge has just created, before the node is shared, so
    a tree is a value here: a Leaf has both children null, a Node has both set. */
module Trees {
  import opened Wrappers
  import opened Pairs
  import opened Bits
  import opened Bags

  datatype TreeNode =
    | Leaf(data: CharFrequencyPair)
    | Node(data: CharFrequencyPair, left: TreeNode, right: TreeNode)

  /** getLeft: the left child, null for a leaf. */
  function LeftChild(t: TreeNode): (c: Option<TreeNode>)
    ensures c.None? <==> t.Leaf?
  {
    if t.Node? then Some(t.left) else None
  }

  /** getRight: the right child, null for a leaf. */
  function RightChild(t: TreeNode): (c: Option<TreeNode>)
    ensures c.None? <==> t.Leaf?
  {
    if t.Node? then Some(t.right) else None
  }

  /** The characters of the leaves, left to right. */
  function Symbols(t: TreeNode): (s: seq<int>)
    ensures |s| >= 1
  {
    match t
    case Leaf(p) => [p.character]
    case Node(_, l, r) => Symbols(l) + Symbols(r)
  }

  /** Number of edges on the longest root-to-leaf path. */
  function Height(t: TreeNode): nat {
    match t
    case Leaf(_) => 0
    case Node(_, l, r) => 1 + (if Height(l) < Height(r) then Height(r) else Height(l))
  }

  /** A strictly binary tree with k leaves is at most k - 1 deep. */
  lemma {:induction false} HeightBelowLeaves(t: TreeNode)
    ensures Height(t) < |Symbols(t)|
  {
    if t.Node? {
      HeightBelowLeaves(t.left);
      HeightBelowLeaves(t.right);
    }
  }

  /** The (character, code) pairs that a depth-first walk records, in the order it records
      them: a leaf's code is `path` followed by its path below t, '0' for every step to a
      left child and '1' for every step to a right child. */
  function LeafCodes(t: TreeNode, path: string): seq<(int, string)> {
    match t
    case Leaf(p) => [(p.character, path)]
    case Node(_, l, r) => LeafCodes(l, path + "0") + LeafCodes(r, path + "1")
  }

  /** Descends from t along a bit string: '0' to the left child, '1' to the right one. */
  function Walk(t: TreeNode, bits: string): Option<TreeNode> {
    if bits == [] then Some(t)
    else match t
      case Leaf(_) => None
      case Node(_, l, r) =>
        if bits[0] == '0' then Walk(l, bits[1..])
        else if bits[0] == '1' then Walk(r, bits[1..])
        else None
  }

  /** Shape of the recorded pairs: one per leaf with that leaf's character, every code extends
      `path` by at most Height(t) further bits, and by at least one when t is not a leaf. */
  lemma {:induction false} LeafCodesShape(t: TreeNode, path: string)
    ensures var es := LeafCodes(t, path);
      && |es| == |Symbols(t)|
      && forall i :: 0 <= i < |es| ==>
           && es[i].0 == Symbols(t)[i]
           && path <= es[i].1
           && IsBinary(es[i].1[|path|..])
           && |es[i].1| <= |path| + Height(t)
           && (t.Node? ==> |es[i].1| > |path|)
  {
    match t
    case Leaf(_) =>
    case Node(_, l, r) =>
      LeafCodesShape(l, path + "0");
      LeafCodesShape(r, path + "1");
      var es, el, er := LeafCodes(t, path), LeafCodes(l, path + "0"), LeafCodes(r, path + "1");
      forall i | 0 <= i < |es|
        ensures es[i].0 == Symbols(t)[i] && path <= es[i].1 && IsBinary(es[i].1[|path|..])
        ensures |path| < |es[i].1| <= |path| + Height(t)
      {
        var p' := if i < |el| then path + "0" else path + "1";
        var c := es[i].1;
        if i < |el| { assert es[i] == el[i]; } else { assert es[i] == er[i - |el|]; }
        assert p' <= c;
        assert c[|path|..] == [c[|path|]] + c[|p'|..];
      }
  }

  /** The codes walk from the root to their leaves: following a recorded code below t ends
      at a leaf carrying the recorded character. */
  lemma {:induction false} CodesArePaths(t: TreeNode, path: string, i: nat)
    requires i < |LeafCodes(t, path)|
    ensures var e := LeafCodes(t, path)[i];
      && path <= e.1
      && var w := Walk(t, e.1[|path|..]);
         w.Some? && w.value.Leaf? && w.value.data.character == e.0
  {
    LeafCodesShape(t, path);
    match t
    case Leaf(_) =>
    case Node(_, l, r) =>
      var el := LeafCodes(l, path + "0");
      var c := LeafCodes(t, path)[i].1;
      var p' := if i < |el| then path + "0" else path + "1";
      if i < |el| {
        assert LeafCodes(t, path)[i] == el[i];
        CodesArePaths(l, path + "0", i);
        LeafCodesShape(l, path + "0");
      } else {
        assert LeafCodes(t, path)[i] == LeafCodes(r, path + "1")[i - |el|];
        CodesArePaths(r, path + "1", i - |el|);
        LeafCodesShape(r, path + "1");
      }
      assert p' <= c;
      assert c[|path|..][1..] == c[|p'|..];
      assert c[|path|..][0] == p'[|path|];
  }

  /** Only leaves receive codes and two leaves never share a root-to-leaf path, so no
      recorded code is a prefix of another one. */
  lemma {:induction false} LeafCodesPrefixFree(t: TreeNode, path: string)
    ensures var es := LeafCodes(t, path);
      forall i, j :: 0 <= i < |es| && 0 <= j < |es| && i != j ==> !(es[i].1 <= es[j].1)
  {
    match t
    case Leaf(_) =>
    case Node(_, l, r) =>
      LeafCodesPrefixFree(l, path + "0");
      LeafCodesPrefixFree(r, path + "1");
      LeafCodesShape(l, path + "0");
      LeafCodesShape(r, path + "1");
      var es, el, er := LeafCodes(t, path), LeafCodes(l, path + "0"), LeafCodes(r, path + "1");
      forall i, j | 0 <= i < |es| && 0 <= j < |es| && i != j
        ensures !(es[i].1 <= es[j].1)
      {
        if i < |el| && j < |el| {
          assert es[i] == el[i] && es[j] == el[j];
        } else if i >= |el| && j >= |el| {
          assert es[i] == er[i - |el|] && es[j] == er[j - |el|];
        } else {
          // one code continues with '0' after path, the other with '1'
          var a, b := es[i].1, es[j].1;
          if i < |el| { assert es[i] == el[i] && es[j] == er[j - |el|]; }
          else { assert es[i] == er[i - |el|] && es[j] == el[j]; }
          assert |a| > |path| && |b| > |path|;
          assert a[|path|] != b[|path|];
        }
      }
  }

  /** Recording pairs one after the other into the character-to-code map (a later put wins). */
  function PutEncoding(m: map<int, string>, es: seq<(int, string)>): map<int, string>
    decreases |es|
  {
    if es == [] then m else PutEncoding(m[es[0].0 := es[0].1], es[1..])
  }

  /** Recording pairs one after the other into the code-to-character map. */
  function PutDecoding(m: map<string, int>, es: seq<(int, string)>): map<string, int>
    decreases |es|
  {
    if es == [] then m else PutDecoding(m[es[0].1 := es[0].0], es[1..])
  }

  lemma {:induction false} PutEncodingAppend(m: map<int, string>, a: seq<(int, string)>, b: seq<(int, string)>)
    ensures PutEncoding(m, a + b) == PutEncoding(PutEncoding(m, a), b)
    decreases |a|
  {
    if a == [] {
      assert a + b == b;
    } else {
      assert (a + b)[1..] == a[1..] + b;
      PutEncodingAppend(m[a[0].0 := a[0].1], a[1..], b);
    }
  }

  lemma {:induction false} PutDecodingAppend(m: map<string, int>, a: seq<(int, string)>, b: seq<(int, string)>)
    ensures PutDecoding(m, a + b) == PutDecoding(PutDecoding(m, a), b)
    decreases |a|
  {
    if a == [] {
      assert a + b == b;
    } else {
      assert (a + b)[1..] == a[1..] + b;
      PutDecodingAppend(m[a[0].1 := a[0].0], a[1..], b);
    }
  }

  /** The characters of recorded pairs, in order. */
  function Chars(es: seq<(int, string)>): (cs: seq<int>)
    ensures |cs| == |es| && forall i :: 0 <= i < |es| ==> cs[i] == es[i].0
  {
    seq(|es|, i requires 0 <= i < |es| => es[i].0)
  }

  /** The codes of recorded pairs, in order. */
  function Codes(es: seq<(int, string)>): (ss: seq<string>)
    ensures |ss| == |es| && forall i :: 0 <= i < |es| ==> ss[i] == es[i].1
  {
    seq(|es|, i requires 0 <= i < |es| => es[i].1)
  }

  /** The encoding map gains exactly the recorded characters; other entries stay. */
  lemma {:induction false} PutEncodingKeys(m: map<int, string>, es: seq<(int, string)>)
    ensures forall c :: c in PutEncoding(m, es) <==> c in m || c in Chars(es)
    ensures forall c :: c in m && c !in Chars(es) ==> PutEncoding(m, es)[c] == m[c]
    decreases |es|
  {
    if es != [] {
      PutEncodingKeys(m[es[0].0 := es[0].1], es[1..]);
      assert Chars(es) == [es[0].0] + Chars(es[1..]);
    }
  }

  /** With distinct characters every recorded pair survives in the encoding map. */
  lemma {:induction false} PutEncodingValues(m: map<int, string>, es: seq<(int, string)>)
    requires Distinct(Chars(es))
    ensures forall i :: 0 <= i < |es| ==> es[i].0 in PutEncoding(m, es) && PutEncoding(m, es)[es[i].0] == es[i].1
    decreases |es|
  {
    if es != [] {
      var m' := m[es[0].0 := es[0].1];
      assert Chars(es) == [es[0].0] + Chars(es[1..]);
      assert Distinct(Chars(es[1..])) by {
        forall i, j | 0 <= i < |es[1..]| && 0 <= j < |es[1..]| && i != j
          ensures Chars(es[1..])[i] != Chars(es[1..])[j]
        {
          assert Chars(es)[i + 1] != Chars(es)[j + 1];
        }
      }
      PutEncodingValues(m', es[1..]);
      PutEncodingKeys(m', es[1..]);
      assert es[0].0 !in Chars(es[1..]) by {
        forall k | 0 <= k < |es[1..]| ensures Chars(es[1..])[k] != es[0].0 {
          assert Chars(es)[k + 1] != Chars(es)[0];
        }
      }
      forall i | 0 <= i < |es| ensures es[i].0 in PutEncoding(m, es) && PutEncoding(m, es)[es[i].0] == es[i].1 {
        if i > 0 { assert es[1..][i - 1] == es[i]; }
      }
    }
  }

  /** The decoding map gains exactly the recorded codes; other entries stay. */
  lemma {:induction false} PutDecodingKeys(m: map<string, int>, es: seq<(int, string)>)
    ensures forall s :: s in PutDecoding(m, es) <==> s in m || s in Codes(es)
    ensures forall s :: s in m && s !in Codes(es) ==> PutDecoding(m, es)[s] == m[s]
    decreases |es|
  {
    if es != [] {
      PutDecodingKeys(m[es[0].1 := es[0].0], es[1..]);
      assert Codes(es) == [es[0].1] + Codes(es[1..]);
    }
  }

  /** With distinct codes every recorded pair survives in the decoding map. */
  lemma {:induction false} PutDecodingValues(m: map<string, int>, es: seq<(int, string)>)
    requires Distinct(Codes(es))
    ensures forall i :: 0 <= i < |es| ==> es[i].1 in PutDecoding(m, es) && PutDecoding(m, es)[es[i].1] == es[i].0
    decreases |es|
  {
    if es != [] {
      var m' := m[es[0].1 := es[0].0];
      assert Codes(es) == [es[0].1] + Codes(es[1..]);
      assert Distinct(Codes(es[1..])) by {
        forall i, j | 0 <= i < |es[1..]| && 0 <= j < |es[1..]| && i != j
          ensures Codes(es[1..])[i] != Codes(es[1..])[j]
        {
          assert Codes(es)[i + 1] != Codes(es)[j + 1];
        }
      }
      PutDecodingValues(m', es[1..]);
      PutDecodingKeys(m', es[1..]);
      assert es[0].1 !in Codes(es[1..]) by {
        forall k | 0 <= k < |es[1..]| ensures Codes(es[1..])[k] != es[0].1 {
          assert Codes(es)[k + 1] != Codes(es)[0];
        }
      }
      forall i | 0 <= i < |es| ensures es[i].1 in PutDecoding(m, es) && PutDecoding(m, es)[es[i].1] == es[i].0 {
        if i > 0 { assert es[1..][i - 1] == es[i]; }
      }
    }
  }

  /** The encoding map sends c to s exactly when the decoding map sends s to c. */
  ghost predicate Inverse(enc: map<int, string>, dec: map<string, int>) {
    && (forall c :: c in enc ==> enc[c] in dec && dec[enc[c]] == c)
    && (forall s :: s in dec ==> dec[s] in enc && enc[dec[s]] == s)
  }

  /** No code of the decoding map is a prefix of another one. */
  ghost predicate PrefixFree(dec: map<string, int>) {
    forall s, s' :: s in dec && s' in dec && s <= s' ==> s == s'
  }

  /** The encoding map of a tree, as generateCodes fills an empty map from the root. */
  function EncodingOf(t: TreeNode): map<int, string> {
    PutEncoding(map[], LeafCodes(t, ""))
  }

  /** The decoding map of a tree, as generateCodes fills an empty map from the root. */
  function DecodingOf(t: TreeNode): map<string, int> {
    PutDecoding(map[], LeafCodes(t, ""))
  }

  /** Codes no one of which is a prefix of another are in particular distinct. */
  lemma {:induction false} PrefixFreeDistinct(es: seq<(int, string)>)
    requires forall i, j :: 0 <= i < |es| && 0 <= j < |es| && i != j ==> !(es[i].1 <= es[j].1)
    ensures Distinct(Codes(es))
  {
    forall i, j | 0 <= i < |es| && 0 <= j < |es| && i != j ensures Codes(es)[i] != Codes(es)[j] {
      assert !(es[i].1 <= es[j].1);
    }
  }

  /** Recorded pairs with distinct characters and distinct codes give inverse tables. */
  lemma {:induction false} PairsInverse(es: seq<(int, string)>)
    requires Distinct(Chars(es)) && Distinct(Codes(es))
    ensures Inverse(PutEncoding(map[], es), PutDecoding(map[], es))
  {
    var enc, dec := PutEncoding(map[], es), PutDecoding(map[], es);
    PutEncodingKeys(map[], es);
    PutEncodingValues(map[], es);
    PutDecodingKeys(map[], es);
    PutDecodingValues(map[], es);
    forall c | c in enc ensures enc[c] in dec && dec[enc[c]] == c {
      var i :| 0 <= i < |es| && Chars(es)[i] == c;
    }
    forall s | s in dec ensures dec[s] in enc && enc[dec[s]] == s {
      var i :| 0 <= i < |es| && Codes(es)[i] == s;
    }
  }

  /** Recorded prefix-free codes give a prefix-free decoding table. */
  lemma {:induction false} PairsPrefixFree(es: seq<(int, string)>)
    requires forall i, j :: 0 <= i < |es| && 0 <= j < |es| && i != j ==> !(es[i].1 <= es[j].1)
    ensures PrefixFree(PutDecoding(map[], es))
  {
    var dec := PutDecoding(map[], es);
    PutDecodingKeys(map[], es);
    forall s, s' | s in dec && s' in dec && s <= s' ensures s == s' {
      var i :| 0 <= i < |es| && Codes(es)[i] == s;
      var j :| 0 <= j < |es| && Codes(es)[j] == s';
    }
  }

  /** The code table of a tree whose leaves carry distinct characters: it codes exactly the
      leaf characters, with non-empty binary codes when the root is not a leaf, the two maps
      are inverse to each other, and the codes are prefix-free. */
  lemma {:induction false} TreeCodeTable(t: TreeNode)
    requires Distinct(Symbols(t))
    ensures var enc, dec := EncodingOf(t), DecodingOf(t);
      && (forall c :: c in enc <==> c in Symbols(t))
      && (forall c :: c in enc ==> IsBinary(enc[c]) && |enc[c]| <= Height(t))
      && (t.Node? ==> forall c :: c in enc ==> |enc[c]| > 0)
      && Inverse(enc, dec)
      && PrefixFree(dec)
  {
    var es := LeafCodes(t, "");
    var enc := EncodingOf(t);
    LeafCodesShape(t, "");
    LeafCodesPrefixFree(t, "");
    assert Chars(es) == Symbols(t);
    PrefixFreeDistinct(es);
    PairsInverse(es);
    PairsPrefixFree(es);
    PutEncodingKeys(map[], es);
    PutEncodingValues(map[], es);
    forall c | c in enc
      ensures IsBinary(enc[c]) && |enc[c]| <= Height(t) && (t.Node? ==> |enc[c]| > 0)
    {
      var i :| 0 <= i < |es| && Chars(es)[i] == c;
      assert es[i].1[0..] == es[i].1;
    }
  }
}
