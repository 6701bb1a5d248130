/** The codec: compress counts the bytes of a file, loads a (byte, count) pair per byte
    that occurs plus the EOF pair (EOF, 1) into the queue, merges the two smallest pairs
    until one is left, reads the code table off the resulting tree and writes every byte's
    code, then the EOF code, through the bit writer. Decompress feeds the compressed bytes
    to the bit reader one at a time until it reports the EOF code.

    The phases of compress are separate methods below; compress runs them in order. The
    file being read is a parameter: None when it cannot be opened, else its bytes. */
module Compressor {
  import opened Wrappers
  import opened Pairs
  import opened Bits
  import opened Bags
  import opened Trees
  import opened PriorityQueue
  import opened HuffmanTrees
  import opened BitOutput
  import opened BitInput

  /** The length of the code path array compress allocates. */
  const CODE_PATH_LENGTH := 100

  /** A file's contents: every element is a byte value. */
  predicate Bytes(s: seq<int>) {
    forall i :: 0 <= i < |s| ==> IsByte(s[i])
  }

  // ---------------------------------------------------------------- counting

  /** The first loop of compress: frequencyArray[b] is the number of occurrences of b. */
  method CountFrequencies(input: seq<int>) returns (frequencyArray: array<int>)
    requires Bytes(input)
    ensures fresh(frequencyArray) && frequencyArray.Length == 256
    ensures forall b :: 0 <= b < 256 ==> frequencyArray[b] == multiset(input)[b]
  {
    frequencyArray := new int[256](_ => 0);
    var pos := 0;
    while pos < |input|
      invariant 0 <= pos <= |input|
      invariant forall b :: 0 <= b < 256 ==> frequencyArray[b] == multiset(input[..pos])[b]
    {
      var currentByte := input[pos];
      frequencyArray[currentByte] := frequencyArray[currentByte] + 1;
      assert input[..pos + 1] == input[..pos] + [currentByte];
      pos := pos + 1;
    }
    assert input[..pos] == input;
  }

  // ---------------------------------------------------------------- loading the queue

  /** The pairs the loading loop inserts for counts, in insertion order: one per index with
      a non-zero count, with that count. */
  function NonZeroPairs(counts: seq<int>): seq<CharFrequencyPair>
    decreases |counts|
  {
    if counts == [] then []
    else
      var i := |counts| - 1;
      NonZeroPairs(counts[..i]) + (if counts[i] != 0 then [CharFrequencyPair(i, counts[i])] else [])
  }

  /** All pairs inserted before merging starts: the non-zero counts, then the EOF pair. */
  function InitialPairs(counts: seq<int>): seq<CharFrequencyPair> {
    NonZeroPairs(counts) + [CharFrequencyPair(EOF, 1)]
  }

  function PairChars(ps: seq<CharFrequencyPair>): (cs: seq<int>)
    ensures |cs| == |ps| && forall i :: 0 <= i < |ps| ==> cs[i] == ps[i].character
  {
    seq(|ps|, i requires 0 <= i < |ps| => ps[i].character)
  }

  /** The non-zero pairs are exactly the indices with a non-zero count, in increasing order,
      each with its count. */
  lemma {:induction false} NonZeroPairsShape(counts: seq<int>)
    ensures var ps := NonZeroPairs(counts);
      && (forall i :: 0 <= i < |ps| ==>
            0 <= ps[i].character < |counts| && ps[i].frequency == counts[ps[i].character] != 0)
      && (forall i, j :: 0 <= i < j < |ps| ==> ps[i].character < ps[j].character)
      && (forall c :: 0 <= c < |counts| && counts[c] != 0 ==> c in PairChars(ps))
  {
    NonZeroRange(counts);
    NonZeroAscending(counts);
    NonZeroComplete(counts);
  }

  /** Every non-zero pair is an index of the counts with its non-zero count. */
  lemma {:induction false} NonZeroRange(counts: seq<int>)
    ensures forall i :: 0 <= i < |NonZeroPairs(counts)| ==>
      && 0 <= NonZeroPairs(counts)[i].character < |counts|
      && NonZeroPairs(counts)[i].frequency == counts[NonZeroPairs(counts)[i].character] != 0
    decreases |counts|
  {
    if counts != [] {
      var n := |counts| - 1;
      var init := counts[..n];
      NonZeroRange(init);
      var ps, qs := NonZeroPairs(counts), NonZeroPairs(init);
      var tail := if counts[n] != 0 then [CharFrequencyPair(n, counts[n])] else [];
      assert ps == qs + tail;
      forall i | 0 <= i < |ps|
        ensures 0 <= ps[i].character < |counts| && ps[i].frequency == counts[ps[i].character] != 0
      {
        if i < |qs| {
          assert ps[i] == qs[i];
          assert 0 <= qs[i].character < |init|;
          assert init[qs[i].character] == counts[qs[i].character];
        } else {
          assert ps[i] == tail[0] == CharFrequencyPair(n, counts[n]);
        }
      }
    }
  }

  /** The non-zero pairs come in increasing index order. */
  lemma {:induction false} NonZeroAscending(counts: seq<int>)
    ensures forall i, j :: 0 <= i < j < |NonZeroPairs(counts)| ==>
      NonZeroPairs(counts)[i].character < NonZeroPairs(counts)[j].character
    decreases |counts|
  {
    if counts != [] {
      var n := |counts| - 1;
      var init := counts[..n];
      NonZeroAscending(init);
      NonZeroRange(init);
      var ps, qs := NonZeroPairs(counts), NonZeroPairs(init);
      var tail := if counts[n] != 0 then [CharFrequencyPair(n, counts[n])] else [];
      assert ps == qs + tail;
      forall i, j | 0 <= i < j < |ps| ensures ps[i].character < ps[j].character {
        assert i < |qs| && ps[i] == qs[i];
        assert qs[i].character < n;
        if j < |qs| {
          assert ps[j] == qs[j];
        } else {
          assert ps[j] == tail[0] && ps[j].character == n;
        }
      }
    }
  }

  /** Every index with a non-zero count has its pair. */
  lemma {:induction false} NonZeroComplete(counts: seq<int>)
    ensures forall c :: 0 <= c < |counts| && counts[c] != 0 ==> c in PairChars(NonZeroPairs(counts))
    decreases |counts|
  {
    if counts != [] {
      var n := |counts| - 1;
      var init := counts[..n];
      NonZeroComplete(init);
      var ps, qs := NonZeroPairs(counts), NonZeroPairs(init);
      forall c | 0 <= c < |counts| && counts[c] != 0 ensures c in PairChars(ps) {
        if c < n {
          assert init[c] == counts[c];
          var i :| 0 <= i < |qs| && PairChars(qs)[i] == c;
          assert ps[i] == qs[i];
          assert PairChars(ps)[i] == c;
        } else {
          assert PairChars(ps)[|ps| - 1] == c;
        }
      }
    }
  }

  lemma {:induction false} SeqBagLeafPart(ps: seq<CharFrequencyPair>)
    requires forall i :: 0 <= i < |ps| ==> ps[i].character != INTERNAL
    ensures SeqBag(ps, LeafPart) == multiset(PairChars(ps))
    decreases |ps|
  {
    if ps != [] {
      var init := ps[..|ps| - 1];
      SeqBagLeafPart(init);
      assert PairChars(ps) == PairChars(init) + [ps[|ps| - 1].character];
    }
  }

  /** The loading loop of compress: every non-zero count as a pair, then the EOF pair. */
  method LoadQueue(frequencyArray: array<int>) returns (priorityQueue: HuffmanPriorityQueue)
    requires frequencyArray.Length == 256
    ensures fresh(priorityQueue) && priorityQueue.Valid()
    ensures priorityQueue.Elements() == multiset(InitialPairs(frequencyArray[..]))
  {
    priorityQueue := new HuffmanPriorityQueue();
    ghost var counts := frequencyArray[..];
    for i := 0 to 256
      invariant fresh(priorityQueue) && priorityQueue.Valid()
      invariant priorityQueue.Elements() == multiset(NonZeroPairs(counts[..i]))
    {
      LoadCount(priorityQueue, counts, i, frequencyArray[i]);
    }
    assert counts[..256] == counts;
    priorityQueue.Insert(CharFrequencyPair(EOF, 1));
  }

  /** One step of the loading loop: the pair of byte i goes in when its count is non-zero. */
  method LoadCount(priorityQueue: HuffmanPriorityQueue, ghost counts: seq<int>, i: int, count: int)
    requires priorityQueue.Valid() && 0 <= i < |counts| && counts[i] == count
    requires priorityQueue.Elements() == multiset(NonZeroPairs(counts[..i]))
    modifies priorityQueue
    ensures priorityQueue.Valid()
    ensures priorityQueue.Elements() == multiset(NonZeroPairs(counts[..i + 1]))
  {
    NonZeroStep(counts, i);
    if count != 0 {
      var pair := CharFrequencyPair(i, count);
      priorityQueue.Insert(pair);
    }
  }

  /** One more count adds its pair when it is non-zero. */
  lemma {:induction false} NonZeroStep(counts: seq<int>, i: int)
    requires 0 <= i < |counts|
    ensures multiset(NonZeroPairs(counts[..i + 1]))
         == multiset(NonZeroPairs(counts[..i])) + (if counts[i] != 0 then multiset{CharFrequencyPair(i, counts[i])} else multiset{})
  {
    var s := counts[..i + 1];
    assert s[..i] == counts[..i] && s[i] == counts[i];
  }

  // ---------------------------------------------------------------- merging

  /** For every frequency, the queue holds as many internal pairs as the tree has nodes
      waiting in that frequency's list. */
  ghost predicate Counted(E: multiset<CharFrequencyPair>, L: Lists) {
    forall f :: E[CharFrequencyPair(INTERNAL, f)] == |ListAt(L, f)|
  }

  /** The leaf characters still to be placed: those of the leaf pairs in the queue and
      those below the waiting nodes. */
  ghost function Gathered(E: multiset<CharFrequencyPair>, L: Lists): multiset<int> {
    Bag(E, LeafPart) + LeafSymbols(Forest(L))
  }

  /** Removing a and then b from E and adding c changes each count by those three. */
  lemma {:induction false} RemoveTwoAddOne<A>(E: multiset<A>, a: A, b: A, c: A, q: A)
    requires a in E && b in E - multiset{a}
    ensures (if q == a then 1 else 0) + (if q == b then 1 else 0) <= E[q]
    ensures (E - multiset{a} - multiset{b} + multiset{c})[q]
         == E[q] - (if q == a then 1 else 0) - (if q == b then 1 else 0) + (if q == c then 1 else 0)
  {
  }

  /** The queue after one round of the merge loop. */
  function AfterRound(E: multiset<CharFrequencyPair>, a: CharFrequencyPair, b: CharFrequencyPair): multiset<CharFrequencyPair> {
    E - multiset{a} - multiset{b} + multiset{CharFrequencyPair(INTERNAL, a.frequency + b.frequency)}
  }

  /** Two pairs taken from the queue have their nodes waiting in the tree. */
  lemma {:induction false} PairsAvailable(E: multiset<CharFrequencyPair>, L: Lists, a: CharFrequencyPair, b: CharFrequencyPair)
    requires Counted(E, L) && a in E && b in E - multiset{a}
    ensures Available(L, a, b)
  {
    forall f ensures Needed(a, f) + Needed(b, f) <= |ListAt(L, f)| {
      var q := CharFrequencyPair(INTERNAL, f);
      RemoveTwoAddOne(E, a, b, q, q);
    }
  }

  /** One round of the merge loop keeps the queue and the lists in step. */
  lemma {:induction false} MergeCounted(E: multiset<CharFrequencyPair>, L: Lists, a: CharFrequencyPair, b: CharFrequencyPair)
    requires Counted(E, L) && a in E && b in E - multiset{a} && Available(L, a, b)
    ensures Counted(E - multiset{a} - multiset{b} + multiset{CharFrequencyPair(INTERNAL, a.frequency + b.frequency)},
                    AfterMerge(L, a, b))
  {
    var parent := CharFrequencyPair(INTERNAL, a.frequency + b.frequency);
    var E' := E - multiset{a} - multiset{b} + multiset{parent};
    forall f ensures E'[CharFrequencyPair(INTERNAL, f)] == |ListAt(AfterMerge(L, a, b), f)| {
      var q := CharFrequencyPair(INTERNAL, f);
      RemoveTwoAddOne(E, a, b, parent, q);
      MergedCounts(L, a, b, f);
    }
  }

  /** One round of the merge loop loses no leaf character and adds none. */
  lemma {:induction false} MergeGathered(E: multiset<CharFrequencyPair>, L: Lists, a: CharFrequencyPair, b: CharFrequencyPair)
    requires a in E && b in E - multiset{a} && Available(L, a, b)
    ensures Gathered(E - multiset{a} - multiset{b} + multiset{CharFrequencyPair(INTERNAL, a.frequency + b.frequency)},
                     AfterMerge(L, a, b)) == Gathered(E, L)
  {
    var parent := CharFrequencyPair(INTERNAL, a.frequency + b.frequency);
    var E1 := E - multiset{a};
    var E2 := E1 - multiset{b};
    BagRemove(E, LeafPart, a);
    BagRemove(E1, LeafPart, b);
    BagAdd(E2, LeafPart, parent);
    MergedLeaves(L, a, b);
  }

  /** One round of the merge loop keeps the queue and the lists in step and every leaf
      character in place; when one pair is left it is a parent. */
  lemma {:induction false} MergeStep(E: multiset<CharFrequencyPair>, L: Lists, a: CharFrequencyPair, b: CharFrequencyPair)
    requires Counted(E, L) && a in E && b in E - multiset{a}
    ensures Available(L, a, b)
    ensures |AfterRound(E, a, b)| == |E| - 1
    ensures |AfterRound(E, a, b)| >= 2 || forall p :: p in AfterRound(E, a, b) ==> p.character == INTERNAL
    ensures Counted(AfterRound(E, a, b), AfterMerge(L, a, b))
    ensures Gathered(AfterRound(E, a, b), AfterMerge(L, a, b)) == Gathered(E, L)
  {
    PairsAvailable(E, L, a, b);
    var E' := E - multiset{a} - multiset{b} + multiset{CharFrequencyPair(INTERNAL, a.frequency + b.frequency)};
    assert AfterRound(E, a, b) == E';
    MergeCounted(E, L, a, b);
    MergeGathered(E, L, a, b);
    RoundSize(E, a, b);
  }

  /** A round shrinks the queue by one; a last pair left is the new parent. */
  lemma {:induction false} RoundSize(E: multiset<CharFrequencyPair>, a: CharFrequencyPair, b: CharFrequencyPair)
    requires a in E && b in E - multiset{a}
    ensures |AfterRound(E, a, b)| == |E| - 1
    ensures |AfterRound(E, a, b)| >= 2 || forall p :: p in AfterRound(E, a, b) ==> p.character == INTERNAL
  {
    var rest := E - multiset{a} - multiset{b};
    assert |rest| == |E| - 2;
    if |rest| == 0 {
      assert rest == multiset{};
      assert AfterRound(E, a, b) == multiset{CharFrequencyPair(INTERNAL, a.frequency + b.frequency)};
    }
  }

  /** One round of the merge loop: the two smallest pairs are removed, merged, and their
      parent pair is inserted. */
  method MergeRound(priorityQueue: HuffmanPriorityQueue, tree: HuffmanTree, ghost leaves: multiset<int>)
    requires priorityQueue.Valid() && tree.Valid()
    requires |priorityQueue.Elements()| >= 2
    requires Counted(priorityQueue.Elements(), tree.nodesByFrequency)
    requires Gathered(priorityQueue.Elements(), tree.nodesByFrequency) == leaves
    modifies priorityQueue, tree
    ensures priorityQueue.Valid() && tree.Valid()
    ensures |priorityQueue.Elements()| == old(|priorityQueue.Elements()|) - 1
    ensures |priorityQueue.Elements()| >= 2 || forall p :: p in priorityQueue.Elements() ==> p.character == INTERNAL
    ensures Counted(priorityQueue.Elements(), tree.nodesByFrequency)
    ensures Gathered(priorityQueue.Elements(), tree.nodesByFrequency) == leaves
  {
    ghost var E, L := priorityQueue.Elements(), tree.nodesByFrequency;
    var leftNode, rightNode := TakeTwo(priorityQueue);
    MergeStep(E, L, leftNode, rightNode);
    var parentNode := tree.Merge(leftNode, rightNode);
    priorityQueue.Insert(parentNode);
    assert priorityQueue.Elements() == AfterRound(E, leftNode, rightNode);
  }

  /** The two removeMin calls of a round: the smallest pair, then the smallest of the rest. */
  method TakeTwo(priorityQueue: HuffmanPriorityQueue) returns (leftNode: CharFrequencyPair, rightNode: CharFrequencyPair)
    requires priorityQueue.Valid() && |priorityQueue.Elements()| >= 2
    modifies priorityQueue
    ensures priorityQueue.Valid()
    ensures leftNode in old(priorityQueue.Elements()) && rightNode in old(priorityQueue.Elements()) - multiset{leftNode}
    ensures priorityQueue.Elements() == old(priorityQueue.Elements()) - multiset{leftNode} - multiset{rightNode}
    ensures forall p :: p in old(priorityQueue.Elements()) ==> leftNode.frequency <= p.frequency
    ensures forall p :: p in old(priorityQueue.Elements()) - multiset{leftNode} ==> rightNode.frequency <= p.frequency
  {
    var first := priorityQueue.RemoveMin();
    var second := priorityQueue.RemoveMin();
    leftNode, rightNode := first.value, second.value;
  }

  /** The merge loop of compress: while the queue holds more than one pair (its size counts
      the unused slot 0, so the loop runs while the size is not 2), the two smallest are
      merged. */
  method MergeAll(priorityQueue: HuffmanPriorityQueue, tree: HuffmanTree, ghost leaves: multiset<int>)
    requires priorityQueue.Valid() && tree.Valid()
    requires |priorityQueue.Elements()| >= 2
    requires Counted(priorityQueue.Elements(), tree.nodesByFrequency)
    requires Gathered(priorityQueue.Elements(), tree.nodesByFrequency) == leaves
    modifies priorityQueue, tree
    ensures priorityQueue.Valid() && tree.Valid()
    ensures |priorityQueue.Elements()| == 1
    ensures forall p :: p in priorityQueue.Elements() ==> p.character == INTERNAL
    ensures Counted(priorityQueue.Elements(), tree.nodesByFrequency)
    ensures Gathered(priorityQueue.Elements(), tree.nodesByFrequency) == leaves
  {
    while priorityQueue.Size() != 2
      invariant priorityQueue.Valid() && tree.Valid()
      invariant |priorityQueue.Elements()| >= 1
      invariant |priorityQueue.Elements()| >= 2 || forall p :: p in priorityQueue.Elements() ==> p.character == INTERNAL
      invariant Counted(priorityQueue.Elements(), tree.nodesByFrequency)
      invariant Gathered(priorityQueue.Elements(), tree.nodesByFrequency) == leaves
      decreases |priorityQueue.Elements()|
    {
      MergeRound(priorityQueue, tree, leaves);
    }
  }

  /** Before merging there are at least two pairs (a byte and EOF), all leaf pairs, and no
      waiting node. */
  lemma {:induction false} InitialCounted(counts: seq<int>, input: seq<int>)
    requires |counts| == 256 && Bytes(input) && |input| > 0
    requires forall b :: 0 <= b < 256 ==> counts[b] == multiset(input)[b]
    ensures forall i :: 0 <= i < |InitialPairs(counts)| ==> InitialPairs(counts)[i].character != INTERNAL
    ensures |multiset(InitialPairs(counts))| >= 2
    ensures Counted(multiset(InitialPairs(counts)), map[])
  {
    var ps := InitialPairs(counts);
    var nz := NonZeroPairs(counts);
    NonZeroPairsShape(counts);
    assert forall i :: 0 <= i < |nz| ==> ps[i] == nz[i];
    assert counts[input[0]] != 0;
    assert input[0] in PairChars(nz);
    var E := multiset(ps);
    forall f ensures E[CharFrequencyPair(INTERNAL, f)] == |ListAt(map[], f)| {
      assert CharFrequencyPair(INTERNAL, f) !in ps;
    }
  }

  /** Before merging the leaf characters to be placed are those of the initial pairs. */
  lemma {:induction false} InitialGathered(ps: seq<CharFrequencyPair>)
    requires forall i :: 0 <= i < |ps| ==> ps[i].character != INTERNAL
    ensures Gathered(multiset(ps), map[]) == multiset(PairChars(ps))
  {
    ForestEmpty(map[]);
    BagOfSeq(ps, LeafPart);
    SeqBagLeafPart(ps);
    assert LeafSymbols(multiset{}) == multiset{};
  }

  /** The initial characters are distinct: the byte values in increasing order, then EOF. */
  lemma {:induction false} InitialDistinct(counts: seq<int>)
    ensures Distinct(PairChars(InitialPairs(counts)))
  {
    var ps := InitialPairs(counts);
    var nz := NonZeroPairs(counts);
    NonZeroPairsShape(counts);
    forall i, j | 0 <= i < |ps| && 0 <= j < |ps| && i != j ensures PairChars(ps)[i] != PairChars(ps)[j] {
      if i < |nz| && j < |nz| {
        assert ps[i] == nz[i] && ps[j] == nz[j];
        if i < j { assert nz[i].character < nz[j].character; }
        else { assert nz[j].character < nz[i].character; }
      } else if i < |nz| {
        assert ps[i] == nz[i];
      } else if j < |nz| {
        assert ps[j] == nz[j];
      }
    }
  }

  /** The initial characters are the bytes occurring in the input, and EOF. */
  lemma {:induction false} InitialChars(counts: seq<int>, input: seq<int>)
    requires |counts| == 256 && Bytes(input)
    requires forall b :: 0 <= b < 256 ==> counts[b] == multiset(input)[b]
    ensures forall c :: c in PairChars(InitialPairs(counts)) <==> c == EOF || c in input
  {
    var ps := InitialPairs(counts);
    var nz := NonZeroPairs(counts);
    NonZeroPairsShape(counts);
    assert PairChars(ps) == PairChars(nz) + [EOF];
    forall c | c in input ensures c in PairChars(nz) {
      assert multiset(input)[c] > 0;
    }
    forall c | c in PairChars(nz) ensures c in input {
      var i :| 0 <= i < |nz| && PairChars(nz)[i] == c;
      assert multiset(input)[c] > 0;
    }
  }

  /** After merging the last pair's node is the whole tree: its leaves are all the leaf
      characters. */
  lemma {:induction false} FinalTree(E: multiset<CharFrequencyPair>, L: Lists, p: CharFrequencyPair, root: TreeNode, leaves: multiset<int>)
    requires Counted(E, L) && Gathered(E, L) == leaves
    requires |E| == 1 && p in E && p.character == INTERNAL
    requires root in Forest(L)
    ensures multiset(Symbols(root)) == leaves
  {
    assert |E - multiset{p}| == 0;
    assert E == multiset{p};
    assert p == CharFrequencyPair(INTERNAL, p.frequency);
    forall k ensures |ListAt(L, k)| == (if k == p.frequency then 1 else 0) {
      assert E[CharFrequencyPair(INTERNAL, k)] == |ListAt(L, k)|;
    }
    ForestSingle(L, p.frequency);
    BagSingle(p, LeafPart);
    BagSingle(root, TreeSymbols);
  }

  // ---------------------------------------------------------------- writing

  /** The writing loop of compress: the code of every input byte, then the code of EOF
      (what read returns at the end of the file), then close. */
  method WriteCodes(input: seq<int>, encodingMap: map<int, string>) returns (compressed: seq<int>)
    requires forall i :: 0 <= i < |input| ==> input[i] in encodingMap && input[i] != EOF
    requires EOF in encodingMap
    ensures compressed == Closed(Encode(input, encodingMap) + encodingMap[EOF])
  {
    var bitOutput := new BitOutputStream();
    var pos := 0;
    while true
      invariant 0 <= pos <= |input|
      invariant fresh(bitOutput) && fresh(bitOutput.buffer) && bitOutput.Valid()
      invariant bitOutput.written == Encode(input[..pos], encodingMap)
      decreases |input| - pos
    {
      var currentByte := if pos < |input| then input[pos] else EOF;
      var encodedString := encodingMap[currentByte];
      ghost var before := bitOutput.written;
      for j := 0 to |encodedString|
        invariant bitOutput.Valid()
        invariant bitOutput.written == before + encodedString[..j]
      {
        bitOutput.Write(encodedString[j]);
        assert encodedString[..j + 1] == encodedString[..j] + [encodedString[j]];
      }
      assert encodedString[..|encodedString|] == encodedString;
      if currentByte == EOF {
        assert pos == |input| && input[..pos] == input;
        break;
      }
      EncodeSnoc(input[..pos], currentByte, encodingMap);
      assert input[..pos + 1] == input[..pos] + [currentByte];
      pos := pos + 1;
    }
    bitOutput.Close();
    compressed := bitOutput.output;
  }

  // ---------------------------------------------------------------- reading

  /** Moving the last binary digit of v from v into the low part keeps the total. */
  lemma {:induction false} Halve(v: int, p: int, low: int)
    requires v >= 0 && p >= 1
    ensures (v / 2) * (2 * p) + ((if v % 2 == 1 then p else 0) + low) == v * p + low
  {
    var h, d := v / 2, v % 2;
    assert v == 2 * h + d;
    assert v * p == (2 * h) * p + d * p;
    assert h * (2 * p) == (2 * h) * p;
  }

  /** What the division loop keeps: the digits found so far, read as binary, plus what is
      left of the value weighted by them, is the value; fewer than nine digits are needed. */
  ghost predicate Digits(value: int, v: int, s: string) {
    && |s| <= 8 && 0 <= v < Pow2(8 - |s|)
    && IsBinary(s)
    && v * Pow2(|s|) + BoolsValue(ToBools(s)) == value
  }

  lemma {:induction false} PrependDigit(value: int, v: int, s: string)
    requires Digits(value, v, s) && v != 0
    ensures Digits(value, v / 2, (if v % 2 == 1 then "1" else "0") + s)
  {
    var t := (if v % 2 == 1 then "1" else "0") + s;
    assert |s| < 8;
    Pow2Succ(|s|);
    Pow2Succ(8 - |t|);
    assert ToBools(t) == [v % 2 == 1] + ToBools(s);
    BoolsValueCons(v % 2 == 1, ToBools(s));
    Halve(v, Pow2(|s|), BoolsValue(ToBools(s)));
  }

  lemma {:induction false} PrependZero(value: int, s: string)
    requires |s| < 8 && IsBinary(s) && BoolsValue(ToBools(s)) == value
    ensures var t := "0" + s; IsBinary(t) && BoolsValue(ToBools(t)) == value
  {
    assert ToBools("0" + s) == [false] + ToBools(s);
    BoolsValueCons(false, ToBools(s));
  }

  /** The 8-character MSB-first binary form of a byte: the bits found by repeated division
      by two, then '0's in front up to eight characters. */
  method ConvertToBinaryString(value: int) returns (binaryString: string)
    requires 0 <= value < 256
    ensures |binaryString| == 8 && IsBinary(binaryString)
    ensures BoolsValue(ToBools(binaryString)) == value
    ensures binaryString == ByteBits(value)
  {
    var v := value;
    binaryString := "";
    assert Pow2(8) == 256;
    while v != 0
      invariant Digits(value, v, binaryString)
    {
      PrependDigit(value, v, binaryString);
      var digit := v % 2;
      v := v / 2;
      binaryString := (if digit == 1 then "1" else "0") + binaryString;
    }
    while |binaryString| < 8
      invariant |binaryString| <= 8 && IsBinary(binaryString)
      invariant BoolsValue(ToBools(binaryString)) == value
    {
      PrependZero(value, binaryString);
      binaryString := "0" + binaryString;
    }
    BinaryOfValue(binaryString);
  }

  // ---------------------------------------------------------------- the codec

  /** The tree-building part of compress: load the queue, merge until one pair is left,
      and take the root node stored for that pair. */
  method BuildTree(frequencyArray: array<int>, ghost input: seq<int>) returns (tree: HuffmanTree, rootNode: TreeNode)
    requires frequencyArray.Length == 256 && Bytes(input) && |input| > 0
    requires forall b :: 0 <= b < 256 ==> frequencyArray[b] == multiset(input)[b]
    ensures fresh(tree) && tree.Valid()
    ensures TreeOf(rootNode, input)
  {
    var priorityQueue := LoadQueue(frequencyArray);
    ghost var counts := frequencyArray[..];
    ghost var initial := InitialPairs(counts);
    ghost var leaves := multiset(PairChars(initial));
    InitialCounted(counts, input);
    InitialGathered(initial);
    tree := new HuffmanTree();
    rootNode := MergeToRoot(priorityQueue, tree, leaves);
    RootSymbols(rootNode, counts, input);
  }

  /** The merge loop and the root taken after it. */
  method MergeToRoot(priorityQueue: HuffmanPriorityQueue, tree: HuffmanTree, ghost leaves: multiset<int>)
    returns (rootNode: TreeNode)
    requires priorityQueue.Valid() && tree.Valid()
    requires |priorityQueue.Elements()| >= 2
    requires Counted(priorityQueue.Elements(), tree.nodesByFrequency)
    requires Gathered(priorityQueue.Elements(), tree.nodesByFrequency) == leaves
    modifies priorityQueue, tree
    ensures tree.Valid()
    ensures rootNode.Node? && multiset(Symbols(rootNode)) == leaves
  {
    MergeAll(priorityQueue, tree, leaves);
    rootNode := TakeRoot(priorityQueue, tree, leaves);
  }

  /** The root taken after the merge loop: the last pair is removed and its node is the
      root of the whole tree. */
  method TakeRoot(priorityQueue: HuffmanPriorityQueue, tree: HuffmanTree, ghost leaves: multiset<int>)
    returns (rootNode: TreeNode)
    requires priorityQueue.Valid() && tree.Valid()
    requires |priorityQueue.Elements()| == 1
    requires forall p :: p in priorityQueue.Elements() ==> p.character == INTERNAL
    requires Counted(priorityQueue.Elements(), tree.nodesByFrequency)
    requires Gathered(priorityQueue.Elements(), tree.nodesByFrequency) == leaves
    modifies priorityQueue
    ensures rootNode.Node? && multiset(Symbols(rootNode)) == leaves
  {
    ghost var E, L := priorityQueue.Elements(), tree.nodesByFrequency;
    var last := priorityQueue.RemoveMin();
    rootNode := tree.GetRoot(last.value);
    FinalTree(E, L, last.value, rootNode, leaves);
  }

  /** A node holding exactly the initial characters is a tree of the input. */
  lemma {:induction false} RootSymbols(root: TreeNode, counts: seq<int>, input: seq<int>)
    requires |counts| == 256 && Bytes(input)
    requires forall b :: 0 <= b < 256 ==> counts[b] == multiset(input)[b]
    requires root.Node? && multiset(Symbols(root)) == multiset(PairChars(InitialPairs(counts)))
    ensures TreeOf(root, input)
  {
    var chars := PairChars(InitialPairs(counts));
    InitialDistinct(counts);
    InitialChars(counts, input);
    DistinctPermutation(Symbols(root), chars);
    forall c ensures c in Symbols(root) <==> c == EOF || c in input {
      assert c in Symbols(root) <==> c in multiset(Symbols(root));
      assert c in chars <==> c in multiset(chars);
    }
  }

  /** After generateCodes every leaf character of the tree has a code. */
  lemma {:induction false} CodesCover(m: map<int, string>, root: TreeNode)
    ensures forall c :: c in Symbols(root) ==> c in PutEncoding(m, LeafCodes(root, ""))
  {
    var es := LeafCodes(root, "");
    LeafCodesShape(root, "");
    PutEncodingKeys(m, es);
    assert Chars(es) == Symbols(root);
  }

  /** The code tree compress builds from an input: one leaf per distinct byte and one for
      EOF, no character twice, and not a single leaf. */
  ghost predicate TreeOf(root: TreeNode, input: seq<int>) {
    && root.Node?
    && Distinct(Symbols(root))
    && (forall c :: c in Symbols(root) <==> c == EOF || c in input)
  }

  /** Decompressing from byte pos on is one scan of the buffer with that byte's bits, and
      unless the scan found the EOF code, decompressing from byte pos + 1 on what it left. */
  lemma {:induction false} DecodeStep(buf: string, out: seq<int>, input: seq<int>, pos: int, dec: map<string, int>)
    requires Bytes(input) && 0 <= pos < |input|
    ensures var r := Run(buf + ByteBits(input[pos]), dec, 1);
      out + DecodeFrom(buf, input[pos..], dec).emitted ==
        if r.status == 1 then out + r.emitted
        else (out + r.emitted) + DecodeFrom(r.rest, input[pos + 1..], dec).emitted
  {
    assert input[pos..][0] == input[pos] && input[pos..][1..] == input[pos + 1..];
  }

  class HuffmanCompressor {
    var encodingMap: map<int, string>
    var decodingMap: map<string, int>

    constructor ()
      ensures encodingMap == map[] && decodingMap == map[]
    {
      encodingMap := map[];
      decodingMap := map[];
    }

    /** Status 0: the file cannot be opened; 1: it is empty; 2: compressed. Status -1
        stands for the exception the code generator raises when the tree is too deep for
        its path array. On success the tree's codes are put into the two maps (entries of
        an earlier call stay unless overwritten), and the compressed bytes are the bits of
        every input byte's code and then the EOF code, as the bit writer packs them. */
    method Compress(file: Option<seq<int>>) returns (status: int, compressed: seq<int>, ghost root: TreeNode)
      requires file.Some? ==> Bytes(file.value)
      modifies this
      ensures status != 2 ==> encodingMap == old(encodingMap) && decodingMap == old(decodingMap)
      ensures file.None? ==> status == 0
      ensures file.Some? && file.value == [] ==> status == 1
      ensures file.Some? && file.value != [] ==> status == 2 || status == -1
      ensures status == -1 ==> TreeOf(root, file.value) && Height(root) >= CODE_PATH_LENGTH
      ensures status == 2 ==>
        && file.Some?
        && TreeOf(root, file.value) && Height(root) < CODE_PATH_LENGTH
        && encodingMap == PutEncoding(old(encodingMap), LeafCodes(root, ""))
        && decodingMap == PutDecoding(old(decodingMap), LeafCodes(root, ""))
        && (forall i :: 0 <= i < |file.value| ==> file.value[i] in encodingMap)
        && EOF in encodingMap
        && compressed == Closed(Encode(file.value, encodingMap) + encodingMap[EOF])
    {
      compressed := [];
      root := Leaf(CharFrequencyPair(EOF, 1));
      if file.None? {
        return 0, compressed, root;
      }
      var input := file.value;
      var frequencyArray := CountFrequencies(input);
      if |input| == 0 {
        return 1, compressed, root;
      }
      var tree, rootNode := BuildTree(frequencyArray, input);
      root := rootNode;
      var codePath := new bool[CODE_PATH_LENGTH];
      if Height(rootNode) >= codePath.Length {
        return -1, compressed, root;
      }
      ghost var path := codePath[..];
      encodingMap, decodingMap := tree.GenerateCodes(Some(rootNode), encodingMap, decodingMap, 0, codePath, false);
      assert ToChars(path[0 := false][1..1]) == "";
      CodesCover(old(encodingMap), rootNode);
      compressed := WriteCodes(input, encodingMap);
      status := 2;
    }

    /** Status 0: the file cannot be opened; 3 otherwise. The bytes are fed to the bit
        reader one at a time until it reports the EOF code; the result is what the reader
        sent. */
    method Decompress(file: Option<seq<int>>) returns (status: int, decoded: seq<int>)
      requires file.Some? ==> Bytes(file.value)
      ensures file.None? ==> status == 0 && decoded == []
      ensures file.Some? ==> status == 3 && decoded == DecodeFrom("", file.value, decodingMap).emitted
    {
      if file.None? {
        return 0, [];
      }
      var input := file.value;
      var bitInput := new BitInputStream();
      ghost var goal := DecodeFrom("", input, decodingMap).emitted;
      var pos := 0;
      while pos < |input|
        invariant 0 <= pos <= |input| && fresh(bitInput)
        invariant goal == bitInput.output + DecodeFrom(bitInput.workingBuffer, input[pos..], decodingMap).emitted
        decreases |input| - pos
      {
        var currentByte := input[pos];
        var bits := ConvertToBinaryString(currentByte);
        ghost var buf, out := bitInput.workingBuffer, bitInput.output;
        bitInput.AppendBits(bits);
        var writeStatus := bitInput.Write(decodingMap, encodingMap);
        DecodeStep(buf, out, input, pos, decodingMap);
        if writeStatus == 1 {
          break;
        }
        pos := pos + 1;
      }
      return 3, bitInput.output;
    }
  }

  // ---------------------------------------------------------------- properties

  /** Decompressing what compress writes gives the input back, for any code table of the
      kind generateCodes builds. The decoder only recognises the EOF code because close
      sends at least one bit after it. */
  lemma {:induction false} RoundTrip(input: seq<int>, enc: map<int, string>, dec: map<string, int>)
    requires CodeTable(enc, dec) && EOF in enc
    requires forall c :: c in enc ==> IsBinary(enc[c])
    requires Bytes(input) && forall i :: 0 <= i < |input| ==> input[i] in enc
    ensures var w := Encode(input, enc) + enc[EOF];
      && Bytes(Closed(w))
      && DecodeFrom("", Closed(w), dec).emitted == input
      && DecodeFrom("", Closed(w), dec).status == 1
  {
    var w := Encode(input, enc) + enc[EOF];
    EncodeBinary(input, enc);
    assert IsBinary(w);
    ClosedExpand(w);
    var junk := ToChars(Buffer(w)[|w| % 8..]);
    Streaming("", Closed(w), dec);
    assert "" + Expand(Closed(w)) == w + junk;
    Associate(Encode(input, enc), enc[EOF], junk);
    DecodeAll(enc, dec, input, junk);
    assert OutBytes(input) == input;
  }

  /** The tree of a byte string has one leaf per distinct byte and one for EOF. */
  lemma {:induction false} SymbolCount(root: TreeNode, input: seq<int>)
    requires TreeOf(root, input) && Bytes(input)
    ensures |Symbols(root)| == |set b | b in input| + 1
  {
    DistinctSize(Symbols(root));
    var bytes := set b | b in input;
    forall c ensures c in Symbols(root) <==> c in bytes + {EOF} {
    }
    assert (set c | c in Symbols(root)) == bytes + {EOF};
    assert EOF !in bytes;
  }

  /** A fresh compressor either compresses a non-empty file, and then decompressing its
      output gives the file back, or stops with status -1 because the file's tree is at
      least as deep as the path array; nothing is decompressed then. */
  method CompressThenDecompress(input: seq<int>)
    returns (compressStatus: int, decompressStatus: int, restored: seq<int>, ghost root: TreeNode)
    requires |input| > 0 && Bytes(input)
    ensures compressStatus == 2 || compressStatus == -1
    ensures TreeOf(root, input)
    ensures compressStatus == -1 ==> Height(root) >= CODE_PATH_LENGTH && restored == []
    ensures compressStatus == 2 ==> decompressStatus == 3 && restored == input
  {
    var compressor := new HuffmanCompressor();
    var compressed;
    compressStatus, compressed, root := compressor.Compress(Some(input));
    if compressStatus != 2 {
      return compressStatus, 0, [], root;
    }
    TreeCodeTable(root);
    assert compressor.encodingMap == EncodingOf(root) && compressor.decodingMap == DecodingOf(root);
    RoundTrip(input, compressor.encodingMap, compressor.decodingMap);
    decompressStatus, restored := compressor.Decompress(Some(compressed));
  }

  /** A file with at most 99 distinct byte values has a tree shallower than the path array,
      so compress succeeds and the round trip gives the file back. */
  method SmallAlphabetRoundTrip(input: seq<int>) returns (compressStatus: int, decompressStatus: int, restored: seq<int>)
    requires |input| > 0 && Bytes(input)
    requires |set b | b in input| <= 99
    ensures compressStatus == 2 && decompressStatus == 3 && restored == input
  {
    ghost var root;
    compressStatus, decompressStatus, restored, root := CompressThenDecompress(input);
    SymbolCount(root, input);
    HeightBelowLeaves(root);
  }
}
