/** The bit reader: bits are appended to a working buffer, and each write call scans the
    buffer's prefixes, shortest first, for a code of the decoding map. A code's character
    is sent (as its low eight bits) and the scan restarts on what follows it; the EOF code
    stops decoding. Only prefixes strictly shorter than the buffer are tried, so a code
    that ends exactly where the buffer ends is found only once more bits arrive. */
module BitInput {
  import opened Pairs
  import opened Bits
  import opened Trees

  /** What a scan of the working buffer leaves: the bytes sent, the buffer that remains and
      the status the write call returns (1: EOF code found, -1: more bits needed). */
  datatype Scan = Scan(emitted: seq<int>, rest: string, status: int)

  /** The byte an output stream stores for a written int: its low eight bits. */
  function OutByte(v: int): (b: int)
    ensures 0 <= b < 256
    ensures 0 <= v < 256 ==> b == v
  {
    v % 256
  }

  function OutBytes(xs: seq<int>): (bs: seq<int>)
    ensures |bs| == |xs| && forall i :: 0 <= i < |xs| ==> bs[i] == OutByte(xs[i])
  {
    seq(|xs|, i requires 0 <= i < |xs| => OutByte(xs[i]))
  }

  /** A scan whose output is preceded by the bytes e. */
  function Then(e: seq<int>, r: Scan): Scan {
    Scan(e + r.emitted, r.rest, r.status)
  }

  /** The scan of buffer buf from prefix length index on, as the loop of write performs it:
      a prefix that is a code with a character other than EOF sends that character and
      the scan restarts at length 1 on the remainder; the EOF code stops with status 1;
      reaching the buffer's length stops with status -1. */
  function Run(buf: string, dec: map<string, int>, index: int): (r: Scan)
    requires index >= 1
    ensures r.status == 1 || r.status == -1
    decreases |buf|, |buf| - index
  {
    if index >= |buf| then Scan([], buf, -1)
    else if buf[..index] in dec then
      if dec[buf[..index]] != EOF then Then([OutByte(dec[buf[..index]])], Run(buf[index..], dec, 1))
      else Scan([], buf, 1)
    else Run(buf, dec, index + 1)
  }

  /** A buffer no proper non-empty prefix of which is a code: scanning it finds nothing. */
  ghost predicate Idle(buf: string, dec: map<string, int>) {
    forall k :: 1 <= k < |buf| ==> buf[..k] !in dec
  }

  /** Skipping prefix lengths that are not codes does not change a scan. */
  lemma {:induction false} RunSkip(t: string, dec: map<string, int>, index: int)
    requires 1 <= index
    requires forall k :: 1 <= k < index && k < |t| ==> t[..k] !in dec
    ensures Run(t, dec, 1) == Run(t, dec, index)
  {
    if index > 1 {
      RunSkip(t, dec, index - 1);
    }
  }

  /** An idle buffer scans to nothing and stays as it is. */
  lemma {:induction false} IdleRun(buf: string, dec: map<string, int>)
    requires Idle(buf, dec)
    ensures Run(buf, dec, 1) == Scan([], buf, -1)
  {
    RunSkip(buf, dec, |buf| + 1);
  }

  /** What an unfinished scan leaves is idle. */
  lemma {:induction false} RestIdle(s: string, dec: map<string, int>, index: int)
    requires 1 <= index <= |s| + 1
    requires forall k :: 1 <= k < index ==> s[..k] !in dec
    ensures Run(s, dec, index).status == -1 ==> Idle(Run(s, dec, index).rest, dec)
    decreases |s|, |s| - index
  {
    if index >= |s| {
    } else if s[..index] in dec {
      if dec[s[..index]] != EOF {
        RestIdle(s[index..], dec, 1);
      }
    } else {
      RestIdle(s, dec, index + 1);
    }
  }

  /** Scanning s followed by more bits x, from a prefix length whose shorter prefixes are
      no codes, is scanning s and then, unless s already held the EOF code, scanning what s
      left followed by x from length 1. */
  lemma {:induction false} RunAppend(s: string, x: string, dec: map<string, int>, index: int)
    requires 1 <= index <= |s| + 1
    requires forall k :: 1 <= k < index ==> s[..k] !in dec
    ensures var r := Run(s, dec, index);
      Run(s + x, dec, index) ==
        if r.status == 1 then Scan(r.emitted, r.rest + x, 1) else Then(r.emitted, Run(r.rest + x, dec, 1))
    decreases |s|, |s| - index
  {
    var t := s + x;
    assert forall k :: 0 <= k <= |s| ==> t[..k] == s[..k];
    if index >= |s| {
      RunSkip(t, dec, index);
    } else if s[..index] in dec {
      assert t[index..] == s[index..] + x;
      if dec[s[..index]] != EOF {
        RunAppend(s[index..], x, dec, 1);
      }
    } else {
      RunAppend(s, x, dec, index + 1);
    }
  }

  /** The reader over an output byte sequence. */
  class BitInputStream {
    var workingBuffer: string
    var output: seq<int>

    constructor ()
      ensures workingBuffer == "" && output == []
    {
      workingBuffer := "";
      output := [];
    }

    method AppendBits(bits: string)
      modifies this
      ensures workingBuffer == old(workingBuffer) + bits && output == old(output)
    {
      workingBuffer := workingBuffer + bits;
    }

    /** Decodes what the working buffer holds: the new output, buffer and returned status
        are those of the scan from prefix length 1. The encoding map is not consulted. */
    method Write(decodingMap: map<string, int>, encodingMap: map<int, string>) returns (status: int)
      modifies this
      ensures var r := Run(old(workingBuffer), decodingMap, 1);
        && status == r.status
        && output == old(output) + r.emitted
        && workingBuffer == r.rest
    {
      ghost var goal := Then(output, Run(workingBuffer, decodingMap, 1));
      var index := 1;
      while index < |workingBuffer|
        invariant 1 <= index
        invariant Then(output, Run(workingBuffer, decodingMap, index)) == goal
        decreases |workingBuffer|, |workingBuffer| - index
      {
        var codePrefix := workingBuffer[..index];
        if codePrefix in decodingMap {
          var decodedChar := decodingMap[codePrefix];
          if decodedChar != EOF {
            output := output + [OutByte(decodedChar)];
            workingBuffer := workingBuffer[index..];
            index := 0;
          } else {
            status := 1;
            return;
          }
        }
        index := index + 1;
      }
      status := -1;
    }
  }

  /** Decompression byte by byte: each byte's eight bits are appended to what the previous
      scan left, then the buffer is scanned; decoding stops at the EOF code. */
  function DecodeFrom(buf: string, bytes: seq<int>, dec: map<string, int>): Scan
    requires forall i :: 0 <= i < |bytes| ==> 0 <= bytes[i] < 256
    decreases |bytes|
  {
    if bytes == [] then Scan([], buf, -1)
    else
      var r := Run(buf + ByteBits(bytes[0]), dec, 1);
      if r.status == 1 then r else Then(r.emitted, DecodeFrom(r.rest, bytes[1..], dec))
  }

  /** Feeding the bytes one at a time sends what one scan of all their bits would send:
      a code split across two bytes is found all the same. */
  lemma {:induction false} Streaming(buf: string, bytes: seq<int>, dec: map<string, int>)
    requires forall i :: 0 <= i < |bytes| ==> 0 <= bytes[i] < 256
    requires Idle(buf, dec)
    ensures DecodeFrom(buf, bytes, dec).emitted == Run(buf + Expand(bytes), dec, 1).emitted
    ensures DecodeFrom(buf, bytes, dec).status == Run(buf + Expand(bytes), dec, 1).status
    decreases |bytes|
  {
    if bytes == [] {
      IdleRun(buf, dec);
      assert buf + Expand(bytes) == buf;
    } else {
      var b, more := bytes[0], bytes[1..];
      assert bytes == [b] + more;
      ExpandCons(b, more);
      var s := buf + ByteBits(b);
      assert buf + Expand(bytes) == s + Expand(more);
      RunAppend(s, Expand(more), dec, 1);
      var r := Run(s, dec, 1);
      if r.status != 1 {
        RestIdle(s, dec, 1);
        Streaming(r.rest, more, dec);
      }
    }
  }

  /** A code table as generateCodes builds it from a tree that is not a single leaf. */
  ghost predicate CodeTable(enc: map<int, string>, dec: map<string, int>) {
    && Inverse(enc, dec)
    && PrefixFree(dec)
    && (forall c :: c in enc ==> |enc[c]| > 0)
  }

  /** The bits written for the characters xs: their codes one after the other. */
  function Encode(xs: seq<int>, enc: map<int, string>): string
    requires forall i :: 0 <= i < |xs| ==> xs[i] in enc
  {
    if xs == [] then "" else enc[xs[0]] + Encode(xs[1..], enc)
  }

  lemma {:induction false} EncodeSnoc(xs: seq<int>, x: int, enc: map<int, string>)
    requires forall i :: 0 <= i < |xs| ==> xs[i] in enc
    requires x in enc
    ensures Encode(xs + [x], enc) == Encode(xs, enc) + enc[x]
    decreases |xs|
  {
    if xs == [] {
      assert xs + [x] == [x];
    } else {
      assert (xs + [x])[1..] == xs[1..] + [x];
      EncodeSnoc(xs[1..], x, enc);
    }
  }

  /** Binary codes make a binary bit string. */
  lemma {:induction false} EncodeBinary(xs: seq<int>, enc: map<int, string>)
    requires forall i :: 0 <= i < |xs| ==> xs[i] in enc
    requires forall c :: c in enc ==> IsBinary(enc[c])
    ensures IsBinary(Encode(xs, enc))
    decreases |xs|
  {
    if xs != [] {
      EncodeBinary(xs[1..], enc);
    }
  }

  /** A code followed by at least one more bit is found exactly at its end. */
  lemma {:induction false} DecodeOne(enc: map<int, string>, dec: map<string, int>, x: int, s: string)
    requires CodeTable(enc, dec) && x in enc && |s| >= 1
    ensures Run(enc[x] + s, dec, 1) ==
      if x == EOF then Scan([], enc[x] + s, 1) else Then([OutByte(x)], Run(s, dec, 1))
  {
    var c := enc[x];
    var t := c + s;
    forall k | 1 <= k < |c| && k < |t| ensures t[..k] !in dec {
      assert t[..k] == c[..k];
      assert t[..k] <= c;
    }
    RunSkip(t, dec, |c|);
    assert t[..|c|] == c && t[|c|..] == s;
  }

  /** The codes of xs, then the EOF code and at least one bit more, decode to xs (each
      as its low eight bits) with status 1. */
  lemma {:induction false} DecodeAll(enc: map<int, string>, dec: map<string, int>, xs: seq<int>, y: string)
    requires CodeTable(enc, dec) && EOF in enc && |y| >= 1
    requires forall i :: 0 <= i < |xs| ==> xs[i] in enc && xs[i] != EOF
    ensures Run(Encode(xs, enc) + (enc[EOF] + y), dec, 1) == Scan(OutBytes(xs), enc[EOF] + y, 1)
  {
    if xs == [] {
      assert Encode(xs, enc) + (enc[EOF] + y) == enc[EOF] + y;
      DecodeOne(enc, dec, EOF, y);
    } else {
      var rest := Encode(xs[1..], enc) + (enc[EOF] + y);
      EncodeFront(xs, enc, enc[EOF] + y);
      DecodeOne(enc, dec, xs[0], rest);
      DecodeAll(enc, dec, xs[1..], y);
      OutBytesFront(xs);
    }
  }

  lemma {:induction false} EncodeFront(xs: seq<int>, enc: map<int, string>, tail: string)
    requires |xs| > 0 && forall i :: 0 <= i < |xs| ==> xs[i] in enc
    ensures Encode(xs, enc) + tail == enc[xs[0]] + (Encode(xs[1..], enc) + tail)
  {
  }

  lemma {:induction false} OutBytesFront(xs: seq<int>)
    requires |xs| > 0
    ensures OutBytes(xs) == [OutByte(xs[0])] + OutBytes(xs[1..])
  {
  }

  /** Without a bit after the EOF code the scan never reports EOF: the decoder depends on
      the stream carrying at least one bit past the last code. */
  lemma {:induction false} NeedsTrailingBit(enc: map<int, string>, dec: map<string, int>, xs: seq<int>)
    requires CodeTable(enc, dec) && EOF in enc
    requires forall i :: 0 <= i < |xs| ==> xs[i] in enc && xs[i] != EOF
    ensures Run(Encode(xs, enc) + enc[EOF], dec, 1).status == -1
  {
    if xs == [] {
      var c := enc[EOF];
      assert Encode(xs, enc) + c == c;
      forall k | 1 <= k < |c| ensures c[..k] !in dec {
        assert c[..k] <= c;
      }
      IdleRun(c, dec);
    } else {
      var rest := Encode(xs[1..], enc) + enc[EOF];
      EncodeFront(xs, enc, enc[EOF]);
      DecodeOne(enc, dec, xs[0], rest);
      NeedsTrailingBit(enc, dec, xs[1..]);
    }
  }
}
