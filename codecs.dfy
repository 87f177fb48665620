/** The consoles a save can come from, and the platform compression
    primitives the chunk pipeline calls. The primitives (LZX for the Xbox 360,
    raw deflate and zlib through `tinf`, and zlib's `compress`) are not part
    of this model: a `Codecs` value supplies each of them as a function, and
    properties that depend on them take their behaviour as a hypothesis. */
module Codecs {
  import opened Bytes

  datatype Console = NONE | XBOX360 | XBOX1 | PS3 | RPCS3 | PS4 | VITA | WIIU | SWITCH

  /** What a decompression primitive produced (before it is cut to the
      capacity it was given), and the value it returned. */
  datatype Inflated = Inflated(out: seq<u8>, ret: u32)

  /** What zlib's `compress` produced, and its status code. */
  datatype Deflated = Deflated(out: seq<u8>, status: int)

  /** The primitives, each given its input and the capacity of the buffer it
      writes into. */
  datatype Codecs = Codecs(
    xDecompress: (seq<u8>, nat) -> Inflated,
    tinfUncompress: (seq<u8>, nat) -> Inflated,
    tinfZlibUncompress: (seq<u8>, nat) -> Inflated,
    zlibCompress: (seq<u8>, nat) -> Deflated)

  /** The number of bytes a primitive leaves in a buffer of `cap` bytes. */
  function Written(out: seq<u8>, cap: nat): (n: nat)
    ensures n <= cap && n <= |out|
    ensures n == |out| || n == cap
  {
    if |out| <= cap then |out| else cap
  }

  /** The buffer of `cap` fresh (zero) bytes after a primitive wrote `out`
      into it: the written bytes first, the untouched rest after them. */
  function Fill(out: seq<u8>, cap: nat): (r: seq<u8>)
    ensures |r| == cap
    ensures r[..Written(out, cap)] == out[..Written(out, cap)]
    ensures forall i :: Written(out, cap) <= i < cap ==> r[i] == 0
  {
    if |out| <= cap then out + Zeros(cap - |out|) else out[..cap]
  }

  /** The result of the decompression switch: the buffer the chunk's bytes
      were inflated into, the size the primitive reported through its size
      buffer, and the decompressed size the pipeline uses afterwards. */
  datatype Stage = Stage(buffer: seq<u8>, size: nat, decCopy: u32)

  /** Which primitive `ensureDecompress` calls for a console. Only the Xbox
      360 primitive's return value replaces the decompressed size; consoles
      with no primitive leave the fresh buffer as it is. */
  function Inflate(console: Console, c: Codecs, src: seq<u8>, cap: u32): (r: Stage)
    ensures |r.buffer| == cap && r.size <= cap
    ensures console != XBOX360 ==> r.decCopy == cap
    ensures !HasInflater(console) ==> r.buffer == Zeros(cap) && r.size == cap
  {
    match console
    case XBOX360 =>
      var u := c.xDecompress(src, cap);
      Stage(Fill(u.out, cap), Written(u.out, cap), u.ret)
    case PS3 | RPCS3 =>
      var u := c.tinfUncompress(src, cap);
      Stage(Fill(u.out, cap), Written(u.out, cap), cap)
    case SWITCH | WIIU | VITA | PS4 =>
      var u := c.tinfZlibUncompress(src, cap);
      Stage(Fill(u.out, cap), Written(u.out, cap), cap)
    case _ => Stage(Zeros(cap), cap, cap)
  }

  predicate HasInflater(console: Console) {
    console in {XBOX360, PS3, RPCS3, SWITCH, WIIU, VITA, PS4}
  }

  /** The consoles `ensureCompressed` recompresses with zlib; for the Xbox
      360 and the PS3 the compressor call is absent, and the others have none. */
  predicate UsesZlib(console: Console) {
    console in {RPCS3, SWITCH, PS4, WIIU, VITA}
  }

  /** The recompression stage: `None` where no compressor runs, otherwise
      the compressor's buffer of `cap` bytes and the size it reports. The
      status code is not looked at. */
  function Deflate(console: Console, c: Codecs, src: seq<u8>, cap: nat): (r: Option<(seq<u8>, nat)>)
    ensures r.Some? <==> UsesZlib(console)
    ensures r.Some? ==> |r.value.0| == cap && r.value.1 <= cap
  {
    if UsesZlib(console) then
      var d := c.zlibCompress(src, cap);
      Some((Fill(d.out, cap), Written(d.out, cap)))
    else None
  }

  /** The zlib stream format (section 2 of RFC 1950): a successful `compress`
      fits in the buffer it was given and holds at least the two header bytes
      (CMF and FLG), and `tinf_zlib_uncompress` into any buffer large enough
      gives the original bytes back. */
  ghost predicate ZlibInverse(c: Codecs) {
    forall src: seq<u8>, cap: nat, cap2: nat ::
      c.zlibCompress(src, cap).status == 0 && |src| <= cap2 ==>
        2 <= |c.zlibCompress(src, cap).out| <= cap &&
        c.tinfZlibUncompress(c.zlibCompress(src, cap).out, cap2).out == src
  }

  /** One use of `ZlibInverse`. */
  lemma ZlibRestores(c: Codecs, src: seq<u8>, cap: nat, cap2: nat)
    requires ZlibInverse(c) && c.zlibCompress(src, cap).status == 0 && |src| <= cap2
    ensures 2 <= |c.zlibCompress(src, cap).out| <= cap
    ensures c.tinfZlibUncompress(c.zlibCompress(src, cap).out, cap2).out == src
  {
    var out := c.zlibCompress(src, cap).out;
    assert c.tinfZlibUncompress(out, cap2).out == src;
  }

  /** A fresh buffer wholly written by a primitive that fits holds exactly
      its output. */
  lemma FillExact(out: seq<u8>)
    ensures Fill(out, |out|) == out && Written(out, |out|) == |out|
  {
  }

  /** Output that fits leaves its bytes first and zeros after. */
  lemma FillFits(out: seq<u8>, cap: nat)
    requires |out| <= cap
    ensures Fill(out, cap) == out + Zeros(cap - |out|)
    ensures Fill(out, cap)[..Written(out, cap)] == out
  {
  }
}
