/** The array-backed binary min-heap of character-frequency pairs.

    Slot 0 of the backing list is an unused sentinel (null in the Java list), so the pair at
    slot i has its parent at i / 2 and its children at 2 * i and 2 * i + 1, and the reported
    size is one more than the number of stored pairs. */
module PriorityQueue {
  import opened Wrappers
  import opened Pairs
  import opened Bags

  /** The priority of a slot: the stored pair's frequency (the sentinel slot never compares). */
  function Freq(x: Option<CharFrequencyPair>): int {
    if x.Some? then x.value.frequency else 0
  }

  /** The pairs a slot holds: none for the sentinel, one otherwise. */
  function Content(x: Option<CharFrequencyPair>): multiset<CharFrequencyPair> {
    if x.Some? then multiset{x.value} else multiset{}
  }

  /** Slot 0 is the sentinel and every other slot holds a pair. */
  predicate Slots(s: seq<Option<CharFrequencyPair>>) {
    |s| >= 1 && s[0].None? && forall i :: 1 <= i < |s| ==> s[i].Some?
  }

  /** Min-heap order: no pair has a smaller frequency than its parent. */
  predicate HeapOrdered(s: seq<Option<CharFrequencyPair>>) {
    forall i :: 2 <= i < |s| ==> Freq(s[i / 2]) <= Freq(s[i])
  }

  /** The stored pairs of a slot list, counted with multiplicity. */
  ghost function Stored(s: seq<Option<CharFrequencyPair>>): multiset<CharFrequencyPair> {
    Bag(multiset(s), Content)
  }

  /** The root of a heap-ordered slot list has the smallest frequency of all slots. */
  lemma {:induction false} HeapRootMin(s: seq<Option<CharFrequencyPair>>, i: int)
    requires Slots(s) && HeapOrdered(s) && 1 <= i < |s|
    ensures Freq(s[1]) <= Freq(s[i])
    decreases i
  {
    if i > 1 {
      HeapRootMin(s, i / 2);
    }
  }

  lemma {:induction false} SeqBagCount(s: seq<Option<CharFrequencyPair>>)
    requires forall i :: 0 <= i < |s| ==> s[i].Some?
    ensures |SeqBag(s, Content)| == |s|
    decreases |s|
  {
    if s != [] {
      SeqBagCount(s[..|s| - 1]);
    }
  }

  lemma {:induction false} SeqBagMember(s: seq<Option<CharFrequencyPair>>, p: CharFrequencyPair)
    ensures p in SeqBag(s, Content) <==> Some(p) in s
    decreases |s|
  {
    if s != [] {
      var init := s[..|s| - 1];
      SeqBagMember(init, p);
      assert s == init + [s[|s| - 1]];
    }
  }

  /** Only the slots after the sentinel contribute pairs. */
  lemma {:induction false} StoredTail(s: seq<Option<CharFrequencyPair>>)
    requires |s| >= 1 && s[0].None?
    ensures Stored(s) == SeqBag(s[1..], Content)
  {
    assert s == [s[0]] + s[1..];
    assert multiset(s) == multiset(s[1..]) + multiset{s[0]};
    BagAdd(multiset(s[1..]), Content, s[0]);
    BagOfSeq(s[1..], Content);
  }

  /** A slot list with the sentinel in front stores one pair per further slot, and a pair is
      stored exactly when some slot holds it. */
  lemma {:induction false} StoredShape(s: seq<Option<CharFrequencyPair>>)
    requires Slots(s)
    ensures |Stored(s)| == |s| - 1
    ensures forall p :: p in Stored(s) <==> Some(p) in s[1..]
  {
    StoredTail(s);
    SeqBagCount(s[1..]);
    forall p ensures p in Stored(s) <==> Some(p) in s[1..] {
      SeqBagMember(s[1..], p);
    }
  }

  /** Exchanging two slots keeps the multiset of slots. */
  lemma {:induction false} SwapSlots(s: seq<Option<CharFrequencyPair>>, i: int, j: int)
    requires Slots(s) && 1 <= i < |s| && 1 <= j < |s|
    ensures multiset(s[i := s[j]][j := s[i]]) == multiset(s)
    ensures Slots(s[i := s[j]][j := s[i]])
  {
    var t := s[i := s[j]][j := s[i]];
    forall k | 1 <= k < |t| ensures t[k].Some? {
      if k != i && k != j { assert t[k] == s[k]; }
    }
  }

  /** The sift-up invariant at slot c: heap order everywhere except between c and its
      parent, and c's parent is no larger than c's children. */
  predicate SiftUpOrdered(s: seq<Option<CharFrequencyPair>>, c: int) {
    && (forall i :: 2 <= i < |s| && i != c ==> Freq(s[i / 2]) <= Freq(s[i]))
    && (c > 1 ==> forall i :: 2 <= i < |s| && i / 2 == c ==> Freq(s[c / 2]) <= Freq(s[i]))
  }

  /** One sift-up exchange moves the exception one level up. */
  lemma {:induction false} SiftUpStep(s: seq<Option<CharFrequencyPair>>, c: int)
    requires Slots(s) && 1 < c < |s| && SiftUpOrdered(s, c)
    requires Freq(s[c]) <= Freq(s[c / 2])
    ensures SiftUpOrdered(s[c / 2 := s[c]][c := s[c / 2]], c / 2)
  {
    var p := c / 2;
    var t := s[p := s[c]][c := s[p]];
    forall i | 2 <= i < |t| && i != p ensures Freq(t[i / 2]) <= Freq(t[i]) {
      if i / 2 == p && i != c {
        assert Freq(s[p]) <= Freq(s[i]);
      }
    }
  }

  /** The sift-up invariant with the exception resolved is heap order. */
  lemma {:induction false} SiftUpDone(s: seq<Option<CharFrequencyPair>>, c: int)
    requires SiftUpOrdered(s, c) && 1 <= c < |s|
    requires c == 1 || Freq(s[c / 2]) <= Freq(s[c])
    ensures HeapOrdered(s)
  {
  }

  /** The sift-down invariant at slot p: heap order everywhere except between p and its
      children, and p's parent is no larger than p's children. */
  predicate SiftDownOrdered(s: seq<Option<CharFrequencyPair>>, p: int) {
    && (forall i :: 2 <= i < |s| && i / 2 != p ==> Freq(s[i / 2]) <= Freq(s[i]))
    && (p > 1 ==> forall i :: 2 <= i < |s| && i / 2 == p ==> Freq(s[p / 2]) <= Freq(s[i]))
  }

  /** Exchanging p with its smallest child, when that child is strictly smaller than p,
      moves the exception one level down. */
  lemma {:induction false} SiftDownStep(s: seq<Option<CharFrequencyPair>>, p: int, m: int)
    requires Slots(s) && 1 <= p && (m == 2 * p || m == 2 * p + 1) && m < |s|
    requires SiftDownOrdered(s, p)
    requires Freq(s[m]) < Freq(s[p])
    requires 2 * p < |s| ==> Freq(s[m]) <= Freq(s[2 * p])
    requires 2 * p + 1 < |s| ==> Freq(s[m]) <= Freq(s[2 * p + 1])
    ensures SiftDownOrdered(s[p := s[m]][m := s[p]], m)
  {
    var t := s[p := s[m]][m := s[p]];
    forall i | 2 <= i < |t| && i / 2 != m ensures Freq(t[i / 2]) <= Freq(t[i]) {
      if i == p {
        assert Freq(s[p / 2]) <= Freq(s[m]);
      }
    }
    forall i | 2 <= i < |t| && i / 2 == m ensures Freq(t[m / 2]) <= Freq(t[i]) {
      assert i / 2 != p;
    }
  }

  /** The sift-down invariant with p no larger than its children is heap order. */
  lemma {:induction false} SiftDownDone(s: seq<Option<CharFrequencyPair>>, p: int)
    requires SiftDownOrdered(s, p) && 1 <= p
    requires 2 * p < |s| ==> Freq(s[p]) <= Freq(s[2 * p])
    requires 2 * p + 1 < |s| ==> Freq(s[p]) <= Freq(s[2 * p + 1])
    ensures HeapOrdered(s)
  {
    forall i | 2 <= i < |s| ensures Freq(s[i / 2]) <= Freq(s[i]) {
      if i / 2 == p {
        assert i == 2 * p || i == 2 * p + 1;
      }
    }
  }

  /** Moving the last pair to the root and dropping the last slot removes exactly the root. */
  lemma {:induction false} ReplaceRootSlots(s: seq<Option<CharFrequencyPair>>)
    requires Slots(s) && |s| > 1
    ensures var t := s[1 := s[|s| - 1]][..|s| - 1];
      Slots(t) && multiset(t) == multiset(s) - multiset{s[1]}
  {
    var t := s[1 := s[|s| - 1]][..|s| - 1];
    forall k | 1 <= k < |t| ensures t[k].Some? {
      if k != 1 { assert t[k] == s[k]; }
    }
    ReplaceFirst(s);
  }

  lemma {:induction false} ReplaceFirst<A>(s: seq<A>)
    requires |s| > 1
    ensures multiset(s[1 := s[|s| - 1]][..|s| - 1]) == multiset(s) - multiset{s[1]}
  {
    var n := |s|;
    var u, x := s[..n - 1], s[n - 1];
    SnocMultiset(s);
    if n == 2 {
      assert s[1 := x][..n - 1] == u;
      assert u == [s[0]];
      assert multiset(u) == multiset(s) - multiset{s[1]};
    } else {
      assert s[1 := x][..n - 1] == u[1 := x];
      UpdateMultiset(u, 1, x);
      assert u[1] == s[1];
      TradeOne(multiset(u), s[1], x);
    }
  }

  lemma {:induction false} SnocMultiset<A>(s: seq<A>)
    requires |s| > 0
    ensures multiset(s) == multiset(s[..|s| - 1]) + multiset{s[|s| - 1]}
  {
    assert s == s[..|s| - 1] + [s[|s| - 1]];
  }

  lemma {:induction false} UpdateMultiset<A>(u: seq<A>, i: int, x: A)
    requires 0 <= i < |u|
    ensures multiset(u[i := x]) == multiset(u) - multiset{u[i]} + multiset{x}
  {
  }

  lemma {:induction false} TradeOne<A>(m: multiset<A>, y: A, x: A)
    requires y in m
    ensures m - multiset{y} + multiset{x} == (m + multiset{x}) - multiset{y}
  {
    forall z ensures (m - multiset{y} + multiset{x})[z] == ((m + multiset{x}) - multiset{y})[z] {
    }
  }

  /** After that replacement the heap is ordered everywhere below the root's children. */
  lemma {:induction false} ReplaceRootOrder(s: seq<Option<CharFrequencyPair>>)
    requires Slots(s) && HeapOrdered(s) && |s| > 1
    ensures SiftDownOrdered(s[1 := s[|s| - 1]][..|s| - 1], 1)
  {
    var t := s[1 := s[|s| - 1]][..|s| - 1];
    forall i | 2 <= i < |t| && i / 2 != 1 ensures Freq(t[i / 2]) <= Freq(t[i]) {
      assert t[i / 2] == s[i / 2] && t[i] == s[i];
    }
  }

  class HuffmanPriorityQueue {
    /** The backing list; slot 0 is the sentinel. */
    var data: seq<Option<CharFrequencyPair>>

    ghost predicate Valid()
      reads this
    {
      Slots(data) && HeapOrdered(data)
    }

    /** The pairs in the queue, counted with multiplicity. */
    ghost function Elements(): multiset<CharFrequencyPair>
      reads this
    {
      Stored(data)
    }

    /** A new queue holds only the sentinel. */
    constructor ()
      ensures Valid() && data == [None]
      ensures Elements() == multiset{}
    {
      data := [None];
      new;
      StoredShape(data);
    }

    /** Number of stored pairs plus one, the sentinel slot being counted. */
    function Size(): (n: int)
      reads this
      requires Valid()
      ensures n == |Elements()| + 1
    {
      StoredShape(data);
      |data|
    }

    /** Adds a pair at the end and sifts it up while its parent's frequency is not smaller. */
    method Insert(pair: CharFrequencyPair)
      requires Valid()
      modifies this
      ensures Valid()
      ensures Elements() == old(Elements()) + multiset{pair}
      ensures |data| == old(|data|) + 1
    {
      ghost var before := multiset(data);
      data := data + [Some(pair)];
      assert multiset(data) == before + multiset{Some(pair)};
      var childIndex := |data| - 1;
      assert SiftUpOrdered(data, childIndex);
      while childIndex > 1
        invariant Slots(data) && |data| == old(|data|) + 1
        invariant 1 <= childIndex < |data| && data[childIndex] == Some(pair)
        invariant multiset(data) == before + multiset{Some(pair)}
        invariant SiftUpOrdered(data, childIndex)
      {
        var parentIndex := childIndex / 2;
        if data[parentIndex].value.frequency < pair.frequency {
          SiftUpDone(data, childIndex);
          BagAdd(before, Content, Some(pair));
          return;
        }
        var temp := data[parentIndex];
        SwapSlots(data, parentIndex, childIndex);
        SiftUpStep(data, childIndex);
        data := data[parentIndex := Some(pair)];
        data := data[childIndex := temp];
        childIndex := parentIndex;
      }
      SiftUpDone(data, childIndex);
      BagAdd(before, Content, Some(pair));
    }

    /** The root pair, or None for an empty queue; it has the smallest frequency stored. */
    function GetMin(): (r: Option<CharFrequencyPair>)
      reads this
      requires Valid()
      ensures r.None? <==> Elements() == multiset{}
      ensures r.Some? ==> r.value in Elements() && forall p :: p in Elements() ==> r.value.frequency <= p.frequency
    {
      StoredShape(data);
      if |data| == 1 then None
      else
        assert data[1..][0] == data[1];
        assert forall p :: p in Elements() ==> data[1].value.frequency <= p.frequency by {
          forall p | p in Elements() ensures data[1].value.frequency <= p.frequency {
            var k :| 0 <= k < |data[1..]| && data[1..][k] == Some(p);
            HeapRootMin(data, k + 1);
          }
        }
        data[1]
    }

    /** Takes out the root: the last pair moves to slot 1 and sifts down. */
    method RemoveMin() returns (r: Option<CharFrequencyPair>)
      requires Valid()
      modifies this
      ensures Valid()
      ensures r == old(GetMin())
      ensures r.None? ==> data == old(data)
      ensures r.Some? ==> Elements() == old(Elements()) - multiset{r.value} && |data| == old(|data|) - 1
    {
      if |data| == 1 {
        return None;
      }
      r := data[1];
      ghost var before := multiset(data);
      ReplaceRootSlots(data);
      ReplaceRootOrder(data);
      data := data[1 := data[|data| - 1]];
      data := data[..|data| - 1];
      SiftDown();
      BagRemove(before, Content, r);
    }

    /** The bubble-down loop of removeMin: the pair at slot 1 moves down, always towards a
        strictly smaller child, the right one only when it is smaller than the left. */
    method SiftDown()
      requires Slots(data) && SiftDownOrdered(data, 1)
      modifies this
      ensures Valid()
      ensures multiset(data) == old(multiset(data)) && |data| == old(|data|)
    {
      var parentIndex := 1;
      while true
        invariant Slots(data) && |data| == old(|data|)
        invariant 1 <= parentIndex && (|data| > 1 ==> parentIndex < |data|)
        invariant multiset(data) == old(multiset(data))
        invariant SiftDownOrdered(data, parentIndex)
        decreases |data| - parentIndex
      {
        var minIndex := parentIndex;
        var leftIndex := 2 * parentIndex;
        var rightIndex := leftIndex + 1;
        if leftIndex < |data| && data[minIndex].value.frequency > data[leftIndex].value.frequency {
          minIndex := leftIndex;
        }
        if rightIndex < |data| && data[minIndex].value.frequency > data[rightIndex].value.frequency {
          minIndex := rightIndex;
        }
        if minIndex == parentIndex {
          SiftDownDone(data, parentIndex);
          break;
        }
        var temp := data[parentIndex];
        SwapSlots(data, parentIndex, minIndex);
        SiftDownStep(data, parentIndex, minIndex);
        data := data[parentIndex := data[minIndex]];
        data := data[minIndex := temp];
        parentIndex := minIndex;
      }
    }
  }
}
