/** The bit writer: characters are collected as bits in an 8-slot buffer, every eighth bit
    sends the buffer's MSB-first value as one byte, and close sends one more byte made of
    whatever all eight slots hold. The buffer is never cleared, so after a flush its slots
    still hold the bits of the byte just sent until they are overwritten. */
module BitOutput {
  import opened Bits

  /** The eight buffer slots after the characters w were written, starting from all false:
      the i-th character goes to slot i mod 8, as '1' or as anything else. */
  function Buffer(w: string): (b: seq<bool>)
    ensures |b| == 8
    decreases |w|
  {
    if w == [] then seq(8, _ => false)
    else Buffer(w[..|w| - 1])[(|w| - 1) % 8 := w[|w| - 1] == '1']
  }

  /** The bytes sent while writing w: one after every eighth character, taken from the
      then full buffer. */
  function Flushed(w: string): (out: seq<int>)
    decreases |w|
  {
    if w == [] then []
    else
      var prev := Flushed(w[..|w| - 1]);
      if |w| % 8 == 0 then prev + [BoolsValue(Buffer(w))] else prev
  }

  /** The bytes sent by writing w and then closing the stream. */
  function Closed(w: string): seq<int> {
    Flushed(w) + [BoolsValue(Buffer(w))]
  }

  /** Where slot i's content comes from after w was written: slots below |w| mod 8 hold
      the bits not yet sent; the others still hold the bits of the previous byte, or false
      when no byte has been sent yet. */
  function SlotSource(w: string, i: int): bool
    requires 0 <= i < 8
  {
    var p := |w| - |w| % 8;
    if i < |w| % 8 then w[p + i] == '1' else if p >= 8 then w[p - 8 + i] == '1' else false
  }

  lemma {:induction false} BufferSlot(w: string, i: int)
    requires 0 <= i < 8
    ensures Buffer(w)[i] == SlotSource(w, i)
    decreases |w|
  {
    if w != [] {
      var n := |w|;
      BufferSlot(w[..n - 1], i);
      SourceStep(w, i);
    }
  }

  /** The source of a slot moves to the last character exactly when that character was
      written into the slot. */
  lemma {:induction false} SourceStep(w: string, i: int)
    requires 0 <= i < 8 && |w| > 0
    ensures SlotSource(w, i) == if i == (|w| - 1) % 8 then w[|w| - 1] == '1' else SlotSource(w[..|w| - 1], i)
  {
    var n := |w|;
    var w' := w[..n - 1];
    var slot := (n - 1) % 8;
    var r, p := n % 8, n - n % 8;
    Mod8Pred(n);
    if i == slot {
      assert (if i < r then p + i else p - 8 + i) == n - 1;
    } else if r == 0 {
      assert |w'| - |w'| % 8 == n - 8 && i < |w'| % 8;
      assert w'[n - 8 + i] == w[p - 8 + i];
    } else {
      assert |w'| - |w'| % 8 == p && |w'| % 8 == r - 1;
      if i < r - 1 {
        assert w'[p + i] == w[p + i];
      } else if p >= 8 {
        assert w'[p - 8 + i] == w[p - 8 + i];
      }
    }
  }

  /** The slot of the previous character, in terms of the current count. */
  lemma {:induction false} Mod8Pred(n: int)
    requires n >= 1
    ensures n % 8 == 0 ==> (n - 1) % 8 == 7 && n >= 8
    ensures n % 8 != 0 ==> (n - 1) % 8 == n % 8 - 1
  {
  }

  /** A slot below |w| mod 8 holds a character written since the last flush. */
  lemma {:induction false} PendingSlot(w: string, i: int)
    requires 0 <= i < |w| % 8
    ensures Buffer(w)[i] == (w[|w| - |w| % 8 + i] == '1')
  {
    BufferSlot(w, i);
  }

  /** All bytes sent, one per eight characters, are in 0 .. 255. */
  lemma {:induction false} FlushedBytes(w: string)
    ensures |Flushed(w)| == |w| / 8
    ensures forall i :: 0 <= i < |Flushed(w)| ==> 0 <= Flushed(w)[i] < 256
    decreases |w|
  {
    if w != [] {
      FlushedBytes(w[..|w| - 1]);
      assert Pow2(8) == 256;
    }
  }

  /** Right after a flush the buffer holds the last eight characters. */
  lemma {:induction false} FullBuffer(w: string)
    requires IsBinary(w) && |w| >= 8 && |w| % 8 == 0
    ensures BoolsValue(Buffer(w)) < 256
    ensures ByteBits(BoolsValue(Buffer(w))) == w[|w| - 8..]
  {
    var chunk := w[|w| - 8..];
    forall i | 0 <= i < 8 ensures Buffer(w)[i] == ToBools(chunk)[i] {
      BufferSlot(w, i);
    }
    assert Buffer(w) == ToBools(chunk);
    PackedByteBits(Buffer(w));
    CharsOfBools(chunk);
  }

  /** A write that completes a byte appends that byte's characters to the expansion. */
  lemma {:induction false} FlushedStep(w: string, w': string)
    requires IsBinary(w) && |w| >= 8 && |w| % 8 == 0 && w' == w[..|w| - 1]
    ensures forall i :: 0 <= i < |Flushed(w)| ==> 0 <= Flushed(w)[i] < 256
    ensures forall i :: 0 <= i < |Flushed(w')| ==> 0 <= Flushed(w')[i] < 256
    ensures Expand(Flushed(w)) == Expand(Flushed(w')) + w[|w| - 8..]
  {
    FlushedBytes(w);
    FlushedBytes(w');
    FullBuffer(w);
    var v := BoolsValue(Buffer(w));
    assert Flushed(w) == Flushed(w') + [v];
    ExpandAppend(Flushed(w'), [v]);
    assert Expand([v]) == Expand([]) + ByteBits(v);
  }

  /** The bits of the bytes sent while writing a bit string are that bit string up to its
      last complete byte. */
  lemma {:induction false} FlushedExpand(w: string)
    requires IsBinary(w)
    ensures forall i :: 0 <= i < |Flushed(w)| ==> 0 <= Flushed(w)[i] < 256
    ensures Expand(Flushed(w)) == w[..|w| - |w| % 8]
    decreases |w|
  {
    FlushedBytes(w);
    if w != [] {
      var w' := w[..|w| - 1];
      FlushedExpand(w');
      Mod8Pred(|w|);
      if |w| % 8 == 0 {
        FlushedGrow(w, w');
      } else {
        FlushedKeep(w, w');
      }
    }
  }

  /** A character that completes a byte extends the expansion by that byte. */
  lemma {:induction false} FlushedGrow(w: string, w': string)
    requires IsBinary(w) && |w| >= 8 && |w| % 8 == 0 && w' == w[..|w| - 1]
    requires forall i :: 0 <= i < |Flushed(w')| ==> 0 <= Flushed(w')[i] < 256
    requires Expand(Flushed(w')) == w'[..|w| - 8]
    ensures forall i :: 0 <= i < |Flushed(w)| ==> 0 <= Flushed(w)[i] < 256
    ensures Expand(Flushed(w)) == w
  {
    FlushedStep(w, w');
    assert w'[..|w| - 8] + w[|w| - 8..] == w;
  }

  /** A character that leaves a byte incomplete sends nothing. */
  lemma {:induction false} FlushedKeep(w: string, w': string)
    requires |w| % 8 != 0 && w' == w[..|w| - 1]
    ensures Flushed(w) == Flushed(w')
    ensures w'[..|w'| - |w'| % 8] == w[..|w| - |w| % 8]
  {
    Mod8Pred(|w|);
  }

  /** In character form, the slots below |w| mod 8 are the bit string written since the
      last flush. */
  lemma {:induction false} PendingChars(w: string)
    requires IsBinary(w)
    ensures ToChars(Buffer(w))[..|w| % 8] == w[|w| - |w| % 8..]
  {
    var r := |w| % 8;
    var p := |w| - r;
    var tail := ToChars(Buffer(w));
    forall i | 0 <= i < r ensures tail[i] == w[p + i] {
      PendingSlot(w, i);
    }
  }

  /** Closing after a bit string w sends bytes whose bits are w followed by 1 to 8 further
      bits: those of the buffer slots from |w| mod 8 on (stale or initial ones). However
      the string ends, at least one bit follows it. */
  lemma {:induction false} ClosedExpand(w: string)
    requires IsBinary(w)
    ensures forall i :: 0 <= i < |Closed(w)| ==> 0 <= Closed(w)[i] < 256
    ensures Expand(Closed(w)) == w + ToChars(Buffer(w)[|w| % 8..])
    ensures 1 <= |Buffer(w)[|w| % 8..]| <= 8
  {
    FlushedExpand(w);
    var b := Buffer(w);
    PackedByteBits(b);
    var v := BoolsValue(b);
    ExpandAppend(Flushed(w), [v]);
    assert Expand([v]) == ByteBits(v);
    ClosedTail(w);
  }

  /** The last byte's characters continue the bits already sent with the pending ones. */
  lemma {:induction false} ClosedTail(w: string)
    requires IsBinary(w)
    ensures w[..|w| - |w| % 8] + ToChars(Buffer(w)) == w + ToChars(Buffer(w)[|w| % 8..])
  {
    PendingChars(w);
    var b := Buffer(w);
    SliceChars(b, |w| % 8);
    Splice(w, |w| - |w| % 8, ToChars(b));
  }

  lemma {:induction false} SliceChars(b: seq<bool>, r: int)
    requires 0 <= r <= |b|
    ensures ToChars(b)[r..] == ToChars(b[r..])
  {
  }

  lemma {:induction false} Splice(w: string, p: int, tail: string)
    requires 0 <= p <= |w| && |w| - p <= |tail|
    requires tail[..|w| - p] == w[p..]
    ensures w[..p] + tail == w + tail[|w| - p..]
  {
    assert tail == tail[..|w| - p] + tail[|w| - p..];
    assert w == w[..p] + w[p..];
  }

  /** Writing one more character sets its slot and sends a byte when that slot is the last. */
  lemma {:induction false} WriteStep(w: string, c: char)
    ensures Buffer(w + [c]) == Buffer(w)[|w| % 8 := c == '1']
    ensures Flushed(w + [c]) == if (|w| + 1) % 8 == 0 then Flushed(w) + [BoolsValue(Buffer(w + [c]))] else Flushed(w)
  {
    var w' := w + [c];
    assert w'[..|w'| - 1] == w;
  }

  /** The writer over an output byte sequence. `written` records every character passed to
      write. */
  class BitOutputStream {
    var output: seq<int>
    const buffer: array<bool>
    var bitCount: int
    ghost var written: string

    ghost predicate Valid()
      reads this, buffer
    {
      && buffer.Length == 8
      && bitCount == |written| % 8
      && buffer[..] == Buffer(written)
      && output == Flushed(written)
    }

    constructor ()
      ensures Valid() && fresh(buffer)
      ensures written == "" && output == [] && bitCount == 0
    {
      output := [];
      buffer := new bool[8](_ => false);
      bitCount := 0;
      written := "";
      new;
      assert buffer[..] == Buffer("");
    }

    /** Stores one character as a bit, sending the byte when eight bits are pending. */
    method Write(bit: char)
      requires Valid()
      modifies this, buffer
      ensures Valid() && written == old(written) + [bit]
      ensures 0 <= bitCount <= 7
    {
      WriteStep(written, bit);
      Mod8Pred(|written| + 1);
      buffer[bitCount] := (bit == '1');
      bitCount := bitCount + 1;
      written := written + [bit];
      if bitCount == 8 {
        Flush();
      }
    }

    /** Sends the MSB-first value of the eight slots and resets the pending count; the slots
        themselves keep their bits. */
    method Flush()
      requires buffer.Length == 8
      modifies this
      ensures output == old(output) + [BoolsValue(buffer[..])]
      ensures bitCount == 0 && written == old(written)
    {
      var byteValue := 0;
      var index := 0;
      while index < 8
        invariant 0 <= index <= 8
        invariant byteValue == BoolsValue(buffer[..index])
      {
        assert buffer[..index + 1][..index] == buffer[..index];
        byteValue := 2 * byteValue + (if buffer[index] then 1 else 0);
        index := index + 1;
      }
      assert buffer[..8] == buffer[..];
      output := output + [byteValue];
      bitCount := 0;
    }

    /** Sends one last byte made of all eight slots, whatever bitCount is. */
    method Close()
      requires Valid()
      modifies this
      ensures output == Closed(written) && written == old(written)
    {
      var byteValue := 0;
      var index := 0;
      while index < 8
        invariant 0 <= index <= 8
        invariant byteValue == BoolsValue(buffer[..index])
      {
        assert buffer[..index + 1][..index] == buffer[..index];
        byteValue := 2 * byteValue + (if buffer[index] then 1 else 0);
        index := index + 1;
      }
      assert buffer[..8] == buffer[..];
      output := output + [byteValue];
    }
  }
}
