/** Multiset helpers for the ghost bookkeeping of the tree builder: a fold that maps every
    element of a multiset to a multiset and adds the results, and distinctness of sequences. */
module Bags {

  /** Some element of a non-empty multiset; one choice for every multiset, so that Bag below
      is a function. */
  ghost function Pick<A>(m: multiset<A>): A
    requires m != multiset{}
  {
    var x :| x in m; x
  }

  /** The sum, over the elements of m counted with multiplicity, of f(element). */
  ghost function Bag<A, B>(m: multiset<A>, f: A -> multiset<B>): multiset<B>
    decreases |m|
  {
    if m == multiset{} then multiset{}
    else
      var x := Pick(m);
      f(x) + Bag(m - multiset{x}, f)
  }

  /** Any element can be taken out first: the result does not depend on Pick's choice. */
  lemma {:induction false} BagRemove<A, B>(m: multiset<A>, f: A -> multiset<B>, y: A)
    requires y in m
    ensures Bag(m, f) == f(y) + Bag(m - multiset{y}, f)
    decreases |m|
  {
    var x := Pick(m);
    if x != y {
      var mx := m - multiset{x};
      var my := m - multiset{y};
      var rest := mx - multiset{y};
      assert y in mx && x in my;
      assert rest == my - multiset{x};
      BagRemove(mx, f, y);
      BagRemove(my, f, x);
      assert Bag(m, f) == f(x) + (f(y) + Bag(rest, f));
      assert Bag(my, f) == f(x) + Bag(rest, f);
      Swap(f(x), f(y), Bag(rest, f));
    }
  }

  lemma {:induction false} Swap<B>(a: multiset<B>, b: multiset<B>, c: multiset<B>)
    ensures a + (b + c) == b + (a + c)
  {
    forall z ensures (a + (b + c))[z] == (b + (a + c))[z] {
    }
  }

  lemma {:induction false} BagAdd<A, B>(m: multiset<A>, f: A -> multiset<B>, y: A)
    ensures Bag(m + multiset{y}, f) == Bag(m, f) + f(y)
  {
    BagRemove(m + multiset{y}, f, y);
    assert (m + multiset{y}) - multiset{y} == m;
  }

  lemma {:induction false} BagSingle<A, B>(y: A, f: A -> multiset<B>)
    ensures Bag(multiset{y}, f) == f(y)
  {
    BagAdd(multiset{}, f, y);
    assert multiset{} + multiset{y} == multiset{y};
  }

  /** Multiset sums cancel. */
  lemma {:induction false} Cancel<A>(a: multiset<A>, b: multiset<A>, c: multiset<A>)
    requires a + c == b + c
    ensures a == b
  {
    forall x ensures a[x] == b[x] {
      assert (a + c)[x] == (b + c)[x];
    }
  }

  /** Multiset bookkeeping of one step that trades pa and pb for t1 and t2. */
  lemma {:induction false} Regroup<A>(s: multiset<A>, f: multiset<A>, f1: multiset<A>, f2: multiset<A>, tn: multiset<A>,
                   t1: multiset<A>, t2: multiset<A>, pa: multiset<A>, pb: multiset<A>)
    requires s == f2 + tn && tn == t1 + t2
    requires f + pa == f1 + t1 && f1 + pb == f2 + t2
    ensures s == f + pa + pb
  {
    forall x ensures s[x] == (f + pa + pb)[x] {
      assert (f + pa)[x] == (f1 + t1)[x] && (f1 + pb)[x] == (f2 + t2)[x];
    }
  }

  /** Bag of a sequence's elements, peeled from the back. */
  lemma {:induction false} BagOfSeq<A, B>(s: seq<A>, f: A -> multiset<B>)
    ensures Bag(multiset(s), f) == SeqBag(s, f)
    decreases |s|
  {
    if s == [] {
    } else {
      var init := s[..|s| - 1];
      assert s == init + [s[|s| - 1]];
      assert multiset(s) == multiset(init) + multiset{s[|s| - 1]};
      BagAdd(multiset(init), f, s[|s| - 1]);
      BagOfSeq(init, f);
    }
  }

  /** The same sum over a sequence, as a plain recursion. */
  ghost function SeqBag<A, B>(s: seq<A>, f: A -> multiset<B>): multiset<B>
    decreases |s|
  {
    if s == [] then multiset{} else SeqBag(s[..|s| - 1], f) + f(s[|s| - 1])
  }

  /** No element occurs twice. */
  predicate Distinct<T(==)>(s: seq<T>) {
    forall i, j :: 0 <= i < |s| && 0 <= j < |s| && i != j ==> s[i] != s[j]
  }

  lemma {:induction false} DistinctTail<T>(s: seq<T>)
    requires Distinct(s) && s != []
    ensures Distinct(s[1..]) && s[0] !in s[1..]
  {
    forall i, j | 0 <= i < |s[1..]| && 0 <= j < |s[1..]| && i != j
      ensures s[1..][i] != s[1..][j]
    {
      assert s[1..][i] == s[i + 1] && s[1..][j] == s[j + 1];
    }
    forall i | 0 <= i < |s[1..]| ensures s[1..][i] != s[0] {
      assert s[1..][i] == s[i + 1];
    }
  }

  lemma {:induction false} DistinctCount<T>(s: seq<T>, x: T)
    requires Distinct(s)
    ensures multiset(s)[x] <= 1
    decreases |s|
  {
    if s != [] {
      assert s == [s[0]] + s[1..];
      DistinctTail(s);
      DistinctCount(s[1..], x);
    }
  }

  /** A sequence without repetitions has as many elements as the set of its elements. */
  lemma {:induction false} DistinctSize<T>(s: seq<T>)
    requires Distinct(s)
    ensures |set x | x in s| == |s|
    decreases |s|
  {
    if s != [] {
      DistinctTail(s);
      DistinctSize(s[1..]);
      assert (set x | x in s) == (set x | x in s[1..]) + {s[0]};
    }
  }

  /** A rearrangement of a sequence without repetitions has no repetitions. */
  lemma {:induction false} DistinctPermutation<T>(a: seq<T>, b: seq<T>)
    requires multiset(a) == multiset(b) && Distinct(b)
    ensures Distinct(a)
  {
    forall i, j | 0 <= i < |a| && 0 <= j < |a| && i != j
      ensures a[i] != a[j]
    {
      if a[i] == a[j] {
        var lo, hi := if i < j then i else j, if i < j then j else i;
        assert a == a[..lo] + [a[lo]] + a[lo + 1..hi] + [a[hi]] + a[hi + 1..];
        assert multiset(a)[a[i]] >= 2;
        DistinctCount(b, a[i]);
        assert false;
      }
    }
  }
}
