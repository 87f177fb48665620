/** The run-length transform of `utils/RLE/rle.hpp`: byte 255 is a sentinel
    that opens a run record `[255, count-1]` (a run of 255s of at most 4 bytes)
    or `[255, count-1, value]`. `Encode` and `Decode` specify the transform;
    `Compress` and `Decompress` are the source's loops over an output buffer. */
module Rle {
  import opened Bytes

  const SENTINEL: u8 := 255

  /** The run counter of the encoder stops here. */
  const MAX_RUN: nat := 256

  function Repeat(v: u8, n: nat): (r: seq<u8>)
    ensures |r| == n
    ensures forall i :: 0 <= i < n ==> r[i] == v
  {
    if n == 0 then [] else [v] + Repeat(v, n - 1)
  }

  /** Extends a run of `s[0]` already known to be `c` long, as the encoder's
      inner counting loop does. */
  function RunFrom(s: seq<u8>, c: nat): (n: nat)
    requires 1 <= c <= |s| && c <= MAX_RUN
    requires forall i :: 0 <= i < c ==> s[i] == s[0]
    ensures c <= n <= |s| && n <= MAX_RUN
    ensures forall i :: 0 <= i < n ==> s[i] == s[0]
    ensures n == |s| || n == MAX_RUN || s[n] != s[0]
    decreases |s| - c
  {
    if c < |s| && s[c] == s[0] && c < MAX_RUN then RunFrom(s, c + 1) else c
  }

  /** The length of the leading run the encoder groups into one record: as
      long as possible, but never more than 256 bytes. */
  function RunLength(s: seq<u8>): (n: nat)
    requires |s| > 0
    ensures 1 <= n <= |s| && n <= MAX_RUN
    ensures forall i :: 0 <= i < n ==> s[i] == s[0]
    ensures n == |s| || n == MAX_RUN || s[n] != s[0]
  {
    RunFrom(s, 1)
  }

  /** What the encoder emits for `count` copies of `v`. Only an isolated 255
      grows (to two bytes); every other run keeps or shrinks its length. */
  function EncodeRun(v: u8, count: nat): (r: seq<u8>)
    requires 1 <= count <= MAX_RUN
    ensures |r| <= 2 * count
    ensures |r| > count <==> v == SENTINEL && count == 1
  {
    if v == SENTINEL then
      if count < 4 then [SENTINEL, (count - 1) as u8] else [SENTINEL, (count - 1) as u8, v]
    else if count >= 4 then [SENTINEL, (count - 1) as u8, v]
    else Repeat(v, count)
  }

  /** The encoded stream: one record (or up to three literals) per maximal
      run of at most 256 bytes, left to right. It is at most twice as long as
      the input, and empty exactly when the input is. */
  function Encode(s: seq<u8>): (r: seq<u8>)
    ensures |r| <= 2 * |s|
    ensures r == [] <==> s == []
    decreases |s|
  {
    if s == [] then []
    else
      var n := RunLength(s);
      EncodeRun(s[0], n) + Encode(s[n..])
  }

  function Prepend(p: seq<u8>, o: Option<seq<u8>>): Option<seq<u8>> {
    match o
    case None => None
    case Some(t) => Some(p + t)
  }

  /** The decoded stream, or `None` where the decoder would read past the
      end of its input (a trailing lone 255, or `255, b2` with `b2 >= 3`
      and no value byte). */
  function Decode(s: seq<u8>): Option<seq<u8>>
    decreases |s|
  {
    if s == [] then Some([])
    else if s[0] != SENTINEL then Prepend([s[0]], Decode(s[1..]))
    else if |s| < 2 then None
    else if s[1] < 3 then Prepend(Repeat(SENTINEL, s[1] as int + 1), Decode(s[2..]))
    else if |s| < 3 then None
    else Prepend(Repeat(s[2], s[1] as int + 1), Decode(s[3..]))
  }

  lemma ConcatAssoc(a: seq<u8>, b: seq<u8>, c: seq<u8>)
    ensures (a + b) + c == a + (b + c)
  {
  }

  lemma PrependAssoc(p: seq<u8>, q: seq<u8>, o: Option<seq<u8>>)
    ensures Prepend(p, Prepend(q, o)) == Prepend(p + q, o)
  {
    if o.Some? {
      assert p + (q + o.value) == (p + q) + o.value;
    }
  }

  /** Literal bytes other than 255 decode to themselves. */
  lemma {:induction false} DecodeLiterals(v: u8, n: nat, rest: seq<u8>)
    requires v != SENTINEL
    ensures Decode(Repeat(v, n) + rest) == Prepend(Repeat(v, n), Decode(rest))
    decreases n
  {
    if n == 0 {
      assert Repeat(v, 0) + rest == rest;
      assert Prepend([], Decode(rest)) == Decode(rest) by {
        if Decode(rest).Some? { assert [] + Decode(rest).value == Decode(rest).value; }
      }
    } else {
      var s := Repeat(v, n) + rest;
      assert s[0] == v;
      assert s[1..] == Repeat(v, n - 1) + rest;
      DecodeLiterals(v, n - 1, rest);
      PrependAssoc([v], Repeat(v, n - 1), Decode(rest));
      assert [v] + Repeat(v, n - 1) == Repeat(v, n);
    }
  }

  /** One encoded run decodes back to the run, whatever follows it. */
  lemma {:induction false} DecodeRun(v: u8, n: nat, rest: seq<u8>)
    requires 1 <= n <= MAX_RUN
    ensures Decode(EncodeRun(v, n) + rest) == Prepend(Repeat(v, n), Decode(rest))
  {
    var s := EncodeRun(v, n) + rest;
    if v == SENTINEL && n < 4 {
      assert s[0] == SENTINEL && s[1] as int == n - 1 && s[2..] == rest;
    } else if v == SENTINEL || n >= 4 {
      assert s[0] == SENTINEL && s[1] as int == n - 1 && s[2] == v && s[3..] == rest;
    } else {
      DecodeLiterals(v, n, rest);
    }
  }

  /** The transform is reversible: decoding an encoding gives back the input. */
  lemma {:induction false} RoundTrip(s: seq<u8>)
    ensures Decode(Encode(s)) == Some(s)
    decreases |s|
  {
    if s != [] {
      var n := RunLength(s);
      var e := Encode(s[n..]);
      RoundTrip(s[n..]);
      DecodeRun(s[0], n, e);
      RunIsRepeat(s);
      calc {
        Decode(Encode(s));
        Decode(EncodeRun(s[0], n) + e);
        Prepend(Repeat(s[0], n), Decode(e));
        Some(Repeat(s[0], n) + s[n..]);
        Some(s);
      }
    }
  }

  /** A sequence is its leading run followed by the rest. */
  lemma RunIsRepeat(s: seq<u8>)
    requires |s| > 0
    ensures s == Repeat(s[0], RunLength(s)) + s[RunLength(s)..]
  {
    var n := RunLength(s);
    assert s[..n] == Repeat(s[0], n);
    assert s == s[..n] + s[n..];
  }

  /** A run of 255s up to 256 long is a single record, with the value byte
      present exactly when the run is 4 or more long, and it round-trips. */
  lemma SentinelRun(n: nat)
    requires 1 <= n <= MAX_RUN
    ensures Encode(Repeat(SENTINEL, n))
         == if n < 4 then [SENTINEL, (n - 1) as u8] else [SENTINEL, (n - 1) as u8, SENTINEL]
    ensures Decode(Encode(Repeat(SENTINEL, n))) == Some(Repeat(SENTINEL, n))
  {
    var s := Repeat(SENTINEL, n);
    assert RunLength(s) == n;
    assert s[n..] == [];
    RoundTrip(s);
  }

  /** A run longer than 256 bytes is split: the first record covers 256
      bytes and the rest of the run is encoded on its own; up to 512 bytes
      that rest is a single record. */
  lemma LongRunSplits(v: u8, n: nat)
    requires MAX_RUN < n
    ensures Encode(Repeat(v, n)) == EncodeRun(v, MAX_RUN) + Encode(Repeat(v, n - MAX_RUN))
    ensures n <= 2 * MAX_RUN ==> Encode(Repeat(v, n)) == EncodeRun(v, MAX_RUN) + EncodeRun(v, n - MAX_RUN)
  {
    var s := Repeat(v, n);
    assert RunLength(s) == MAX_RUN;
    var t := s[MAX_RUN..];
    assert t == Repeat(v, n - MAX_RUN);
    if n <= 2 * MAX_RUN {
      assert RunLength(t) == n - MAX_RUN;
      assert t[n - MAX_RUN..] == [];
    }
  }

  /** Input that ends in a lone 255, or in `255, b2` with `b2 >= 3` and no
      value byte, has no decoding: the source reads past its input there. */
  lemma {:induction false} TruncatedRecordFails(s: seq<u8>, b2: u8)
    requires Decode(s).Some?
    requires b2 >= 3
    ensures Decode(s + [SENTINEL]) == None
    ensures Decode(s + [SENTINEL, b2]) == None
    decreases |s|
  {
    if s != [] {
      var k := if s[0] != SENTINEL then 1 else if s[1] < 3 then 2 else 3;
      assert (s + [SENTINEL])[k..] == s[k..] + [SENTINEL];
      assert (s + [SENTINEL, b2])[k..] == s[k..] + [SENTINEL, b2];
      TruncatedRecordFails(s[k..], b2);
    }
  }

  /** Writes the record for one run at `sizeOut`, byte by byte as the source
      does, and returns the advanced output position. */
  method EmitRun(dataOut: array<u8>, sizeOut: nat, value: u8, count: nat) returns (next: nat)
    requires 1 <= count <= MAX_RUN
    requires sizeOut + |EncodeRun(value, count)| <= dataOut.Length
    modifies dataOut
    ensures next == sizeOut + |EncodeRun(value, count)|
    ensures dataOut[..next] == old(dataOut[..sizeOut]) + EncodeRun(value, count)
    ensures dataOut[next..] == old(dataOut[next..])
  {
    next := sizeOut;
    if value == SENTINEL {
      if count < 4 {
        dataOut[next] := SENTINEL;
        dataOut[next + 1] := (count - 1) as u8;
        next := next + 2;
      } else {
        dataOut[next] := SENTINEL;
        dataOut[next + 1] := (count - 1) as u8;
        dataOut[next + 2] := value;
        next := next + 3;
      }
    } else if count >= 4 {
      dataOut[next] := SENTINEL;
      dataOut[next + 1] := (count - 1) as u8;
      dataOut[next + 2] := value;
      next := next + 3;
    } else {
      next := EmitCopies(dataOut, next, value, count);
    }
  }

  /** Writes `n` copies of `value` at `sizeOut`, one byte at a time. */
  method EmitCopies(dataOut: array<u8>, sizeOut: nat, value: u8, n: nat) returns (next: nat)
    requires sizeOut + n <= dataOut.Length
    modifies dataOut
    ensures next == sizeOut + n
    ensures dataOut[..next] == old(dataOut[..sizeOut]) + Repeat(value, n)
    ensures dataOut[next..] == old(dataOut[next..])
  {
    next := sizeOut;
    var j := 0;
    while j < n
      invariant 0 <= j <= n && next == sizeOut + j
      invariant dataOut[..next] == old(dataOut[..sizeOut]) + Repeat(value, j)
      invariant dataOut[sizeOut + n..] == old(dataOut[sizeOut + n..])
    {
      dataOut[next] := value;
      next := next + 1;
      j := j + 1;
    }
  }

  /** The encoder's inner loop: the length of the run starting at
      `dataIndex`, capped at 256. */
  method CountRun(dataIn: seq<u8>, dataIndex: nat) returns (count: nat)
    requires dataIndex < |dataIn|
    ensures count == RunLength(dataIn[dataIndex..])
  {
    ghost var t := dataIn[dataIndex..];
    var value := dataIn[dataIndex];
    count := 1;
    while dataIndex + count < |dataIn| && dataIn[dataIndex + count] == value && count < MAX_RUN
      invariant 1 <= count <= MAX_RUN && dataIndex + count <= |dataIn|
      invariant forall i :: 0 <= i < count ==> t[i] == t[0]
      invariant RunFrom(t, count) == RunLength(t)
      decreases MAX_RUN - count
    {
      count := count + 1;
    }
  }

  /** Reads one record (or literal) at `pos` as the decoder's loop body
      does: the value, how many copies of it, and where the next record
      starts. */
  method ReadRecord(dataIn: seq<u8>, pos: nat) returns (value: u8, copies: nat, next: nat)
    requires pos < |dataIn| && Decode(dataIn[pos..]).Some?
    ensures pos < next <= |dataIn|
    ensures Decode(dataIn[pos..]) == Prepend(Repeat(value, copies), Decode(dataIn[next..]))
  {
    ghost var t := dataIn[pos..];
    var b := dataIn[pos];
    next := pos + 1;
    value := b;
    copies := 1;
    if b == SENTINEL {
      var b2 := dataIn[next];
      next := next + 1;
      value := SENTINEL;
      if b2 >= 3 {
        value := dataIn[next];
        next := next + 1;
      }
      copies := b2 as int + 1;
    }
    assert t[next - pos..] == dataIn[next..];
    assert b != SENTINEL ==> Repeat(value, copies) == [b];
  }

  /** The encoding of a suffix starts with the record for its first run. */
  lemma EncodeSplits(s: seq<u8>, i: nat, count: nat)
    requires i < |s| && count == RunLength(s[i..])
    ensures i + count <= |s|
    ensures Encode(s[i..]) == EncodeRun(s[i], count) + Encode(s[i + count..])
  {
    assert s[i..][count..] == s[i + count..];
  }

  /** The record for the run at `i` fits in what is left of the encoding. */
  lemma CompressFits(s: seq<u8>, i: nat, count: nat, done: seq<u8>)
    requires i < |s| && count == RunLength(s[i..])
    requires done + Encode(s[i..]) == Encode(s)
    ensures |done| + |EncodeRun(s[i], count)| <= |Encode(s)|
  {
    EncodeSplits(s, i, count);
  }

  /** One turn of the encoder's loop keeps the written prefix and the
      encoding of the unread suffix adding up to the whole encoding. */
  lemma CompressStep(s: seq<u8>, i: nat, count: nat, done: seq<u8>, written: seq<u8>)
    requires i < |s| && count == RunLength(s[i..])
    requires done + Encode(s[i..]) == Encode(s)
    requires written == done + EncodeRun(s[i], count)
    ensures i + count <= |s|
    ensures written + Encode(s[i + count..]) == Encode(s)
  {
    EncodeSplits(s, i, count);
    ConcatAssoc(done, EncodeRun(s[i], count), Encode(s[i + count..]));
  }

  /** One turn of the encoder's outer loop: counts the run at `dataIndex`
      and writes its record at `sizeOut`. */
  method CompressRun(dataIn: seq<u8>, dataIndex: nat, dataOut: array<u8>, sizeOut: nat)
    returns (nextIndex: nat, next: nat)
    requires dataIndex < |dataIn| && sizeOut <= dataOut.Length
    requires |Encode(dataIn)| <= dataOut.Length
    requires dataOut[..sizeOut] + Encode(dataIn[dataIndex..]) == Encode(dataIn)
    modifies dataOut
    ensures dataIndex < nextIndex <= |dataIn| && sizeOut <= next <= dataOut.Length
    ensures dataOut[..next] + Encode(dataIn[nextIndex..]) == Encode(dataIn)
    ensures dataOut[next..] == old(dataOut[next..])
  {
    var value := dataIn[dataIndex];
    var count := CountRun(dataIn, dataIndex);
    ghost var done := dataOut[..sizeOut];
    CompressFits(dataIn, dataIndex, count, done);
    next := EmitRun(dataOut, sizeOut, value, count);
    CompressStep(dataIn, dataIndex, count, done, dataOut[..next]);
    nextIndex := dataIndex + count;
    assert dataOut[..next] + Encode(dataIn[nextIndex..]) == Encode(dataIn);
  }

  /** `RLE_compress`: encodes `dataIn` into the front of `dataOut` and
      returns the number of bytes written; the rest of `dataOut` is left
      alone. The buffer must hold the whole encoding. */
  method Compress(dataIn: seq<u8>, dataOut: array<u8>) returns (sizeOut: nat)
    requires |Encode(dataIn)| <= dataOut.Length
    modifies dataOut
    ensures sizeOut == |Encode(dataIn)|
    ensures dataOut[..sizeOut] == Encode(dataIn)
    ensures dataOut[sizeOut..] == old(dataOut[..])[sizeOut..]
  {
    ghost var before := dataOut[..];
    var dataIndex := 0;
    sizeOut := 0;
    while dataIndex < |dataIn|
      invariant 0 <= dataIndex <= |dataIn|
      invariant sizeOut <= dataOut.Length
      invariant dataOut[..sizeOut] + Encode(dataIn[dataIndex..]) == Encode(dataIn)
      invariant dataOut[sizeOut..] == before[sizeOut..]
      decreases |dataIn| - dataIndex
    {
      var nextIndex, next := CompressRun(dataIn, dataIndex, dataOut, sizeOut);
      assert before[next..] == before[sizeOut..][next - sizeOut..];
      sizeOut := next;
      dataIndex := nextIndex;
    }
  }

  /** One turn of the decoder's loop keeps the written prefix and the
      decoding of the unread suffix adding up to the whole decoding. */
  lemma DecompressStep(done: seq<u8>, run: seq<u8>, o: Option<seq<u8>>, total: seq<u8>, written: seq<u8>)
    requires Prepend(run, o).Some? && done + Prepend(run, o).value == total
    requires written == done + run
    ensures o.Some? && written + o.value == total
  {
    ConcatAssoc(done, run, o.value);
  }

  /** One turn of the decoder's loop: reads the record at `pos` and writes
      its bytes at `sizeOut`. */
  method DecompressRun(dataIn: seq<u8>, pos: nat, dataOut: array<u8>, sizeOut: nat)
    returns (nextPos: nat, next: nat)
    requires pos < |dataIn| && sizeOut <= dataOut.Length
    requires Decode(dataIn[pos..]).Some? && Decode(dataIn).Some?
    requires |Decode(dataIn).value| <= dataOut.Length
    requires dataOut[..sizeOut] + Decode(dataIn[pos..]).value == Decode(dataIn).value
    modifies dataOut
    ensures pos < nextPos <= |dataIn| && sizeOut <= next <= dataOut.Length
    ensures Decode(dataIn[nextPos..]).Some?
    ensures dataOut[..next] + Decode(dataIn[nextPos..]).value == Decode(dataIn).value
    ensures dataOut[next..] == old(dataOut[next..])
  {
    var value, copies, after := ReadRecord(dataIn, pos);
    ghost var done := dataOut[..sizeOut];
    ghost var rest := Decode(dataIn[after..]);
    assert sizeOut + copies <= dataOut.Length;
    next := EmitCopies(dataOut, sizeOut, value, copies);
    DecompressStep(done, Repeat(value, copies), rest, Decode(dataIn).value, dataOut[..next]);
    nextPos := after;
    assert dataOut[..next] + Decode(dataIn[nextPos..]).value == Decode(dataIn).value;
  }

  /** `RLE_decompress`: decodes a well-formed `dataIn` into the front of
      `dataOut`, returning the number of bytes written (the source's
      `sizeOut`); the rest of `dataOut` is left alone. */
  method Decompress(dataIn: seq<u8>, dataOut: array<u8>) returns (sizeOut: nat)
    requires Decode(dataIn).Some?
    requires |Decode(dataIn).value| <= dataOut.Length
    modifies dataOut
    ensures sizeOut == |Decode(dataIn).value|
    ensures dataOut[..sizeOut] == Decode(dataIn).value
    ensures dataOut[sizeOut..] == old(dataOut[..])[sizeOut..]
  {
    ghost var before := dataOut[..];
    var pos := 0;
    sizeOut := 0;
    while pos < |dataIn|
      invariant 0 <= pos <= |dataIn|
      invariant Decode(dataIn[pos..]).Some?
      invariant sizeOut <= dataOut.Length
      invariant dataOut[..sizeOut] + Decode(dataIn[pos..]).value == Decode(dataIn).value
      invariant dataOut[sizeOut..] == before[sizeOut..]
      decreases |dataIn| - pos
    {
      var nextPos, next := DecompressRun(dataIn, pos, dataOut, sizeOut);
      assert before[next..] == before[sizeOut..][next - sizeOut..];
      sizeOut := next;
      pos := nextPos;
    }
  }
}
