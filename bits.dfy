/** Bit strings, MSB-first byte values and the 8-character binary form of a byte.
    A bit string is a `string` of '0' and '1', the representation the compressor
    uses for Huffman codes and for the expanded compressed stream. */
module Bits {

  /** True when every character is '0' or '1'. */
  predicate IsBinary(s: string) {
    forall i :: 0 <= i < |s| ==> s[i] == '0' || s[i] == '1'
  }

  /** The character that stands for a stored bit. */
  function BitChar(b: bool): char {
    if b then '1' else '0'
  }

  /** The bits a writer stores for a string of characters: a bit is set exactly for '1'. */
  function ToBools(s: string): (bs: seq<bool>)
    ensures |bs| == |s|
    ensures forall i :: 0 <= i < |s| ==> bs[i] == (s[i] == '1')
  {
    seq(|s|, i requires 0 <= i < |s| => s[i] == '1')
  }

  /** The characters for a sequence of stored bits. */
  function ToChars(bs: seq<bool>): (s: string)
    ensures |s| == |bs| && IsBinary(s)
    ensures forall i :: 0 <= i < |bs| ==> s[i] == BitChar(bs[i])
  {
    seq(|bs|, i requires 0 <= i < |bs| => BitChar(bs[i]))
  }

  function Pow2(n: nat): (p: nat)
    ensures p >= 1
  {
    if n == 0 then 1 else 2 * Pow2(n - 1)
  }

  /** MSB-first value of a bit sequence: the first bit is the most significant. It is
      the value the accumulation `v := 2 * v + bit` computes over the sequence. */
  function BoolsValue(bs: seq<bool>): (v: nat)
    ensures v < Pow2(|bs|)
  {
    if bs == [] then 0
    else 2 * BoolsValue(bs[..|bs| - 1]) + (if bs[|bs| - 1] then 1 else 0)
  }

  /** The n-character MSB-first binary form of v modulo 2^n. */
  function BinaryOfWidth(v: nat, n: nat): (s: string)
    ensures |s| == n && IsBinary(s)
  {
    if n == 0 then "" else BinaryOfWidth(v / 2, n - 1) + [BitChar(v % 2 == 1)]
  }

  /** The eight characters of a byte, most significant bit first. */
  function ByteBits(v: int): (s: string)
    requires 0 <= v < 256
    ensures |s| == 8 && IsBinary(s)
  {
    BinaryOfWidth(v, 8)
  }

  /** The bit string of a byte stream: the bytes' eight-character forms in order. */
  function Expand(bytes: seq<int>): (s: string)
    requires forall i :: 0 <= i < |bytes| ==> 0 <= bytes[i] < 256
    ensures |s| == 8 * |bytes| && IsBinary(s)
  {
    if bytes == [] then "" else Expand(bytes[..|bytes| - 1]) + ByteBits(bytes[|bytes| - 1])
  }

  lemma {:induction false} Pow2Succ(n: nat)
    ensures Pow2(n + 1) == 2 * Pow2(n)
  {
  }

  /** Reading back the binary form gives the value: BinaryOfWidth is a right inverse of BoolsValue. */
  lemma {:induction false} ValueOfBinary(v: nat, n: nat)
    requires v < Pow2(n)
    ensures BoolsValue(ToBools(BinaryOfWidth(v, n))) == v
  {
    if n > 0 {
      var s := BinaryOfWidth(v, n);
      var t := BinaryOfWidth(v / 2, n - 1);
      assert s == t + [BitChar(v % 2 == 1)];
      assert ToBools(s)[..|s| - 1] == ToBools(t);
      ValueOfBinary(v / 2, n - 1);
    }
  }

  /** A bit string is the binary form of its own value: BinaryOfWidth is a left inverse too. */
  lemma {:induction false} BinaryOfValue(s: string)
    requires IsBinary(s)
    ensures BinaryOfWidth(BoolsValue(ToBools(s)), |s|) == s
  {
    if s != [] {
      var init := s[..|s| - 1];
      assert ToBools(s)[..|s| - 1] == ToBools(init);
      var v := BoolsValue(ToBools(s));
      var w := BoolsValue(ToBools(init));
      assert v == 2 * w + (if s[|s| - 1] == '1' then 1 else 0);
      assert v / 2 == w && (v % 2 == 1) == (s[|s| - 1] == '1');
      BinaryOfValue(init);
      assert s == init + [s[|s| - 1]];
    }
  }

  /** A bit in front of bs weighs 2^|bs|. */
  lemma {:induction false} BoolsValueCons(b: bool, bs: seq<bool>)
    ensures BoolsValue([b] + bs) == (if b then Pow2(|bs|) else 0) + BoolsValue(bs)
    decreases |bs|
  {
    if bs != [] {
      var s := [b] + bs;
      assert s[..|s| - 1] == [b] + bs[..|bs| - 1];
      BoolsValueCons(b, bs[..|bs| - 1]);
    }
  }

  /** The eight characters of a byte have that byte's MSB-first value. */
  lemma {:induction false} ByteBitsValue(v: int)
    requires 0 <= v < 256
    ensures BoolsValue(ToBools(ByteBits(v))) == v
  {
    assert Pow2(8) == 256;
    ValueOfBinary(v, 8);
  }

  /** Packing eight stored bits into a byte and expanding that byte gives the bits back. */
  lemma {:induction false} PackedByteBits(bs: seq<bool>)
    requires |bs| == 8
    ensures BoolsValue(bs) < 256
    ensures ByteBits(BoolsValue(bs)) == ToChars(bs)
  {
    assert Pow2(8) == 256;
    var s := ToChars(bs);
    assert ToBools(s) == bs;
    BinaryOfValue(s);
  }

  /** A bit string survives the trip through stored bits. */
  lemma {:induction false} CharsOfBools(s: string)
    requires IsBinary(s)
    ensures ToChars(ToBools(s)) == s
  {
  }

  lemma {:induction false} ExpandAppend(a: seq<int>, b: seq<int>)
    requires forall i :: 0 <= i < |a| ==> 0 <= a[i] < 256
    requires forall i :: 0 <= i < |b| ==> 0 <= b[i] < 256
    ensures Expand(a + b) == Expand(a) + Expand(b)
    decreases |b|
  {
    if b == [] {
      assert a + b == a;
    } else {
      var b', last := b[..|b| - 1], b[|b| - 1];
      var ab := a + b;
      assert ab[..|ab| - 1] == a + b' && ab[|ab| - 1] == last;
      assert Expand(ab) == Expand(a + b') + ByteBits(last);
      ExpandAppend(a, b');
      Associate(Expand(a), Expand(b'), ByteBits(last));
    }
  }

  lemma {:induction false} Associate<T>(a: seq<T>, b: seq<T>, c: seq<T>)
    ensures (a + b) + c == a + (b + c)
  {
  }

  /** The expansion of one byte in front of more. */
  lemma {:induction false} ExpandCons(b: int, rest: seq<int>)
    requires 0 <= b < 256
    requires forall i :: 0 <= i < |rest| ==> 0 <= rest[i] < 256
    ensures Expand([b] + rest) == ByteBits(b) + Expand(rest)
  {
    ExpandAppend([b], rest);
    assert Expand([b]) == Expand([]) + ByteBits(b);
  }
}
