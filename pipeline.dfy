/** The two guarded transitions of a chunk slot, `ensureDecompress` and
    `ensureCompressed` of `LCE/Region/ChunkManager.cpp`, as functions on the
    slot's payload. The class in module Chunk performs them in place and is
    proved to agree with these functions. */
module Pipeline {
  import opened Bytes
  import opened Codecs
  import Rle

  /** The part of a chunk slot the transitions read and replace: the owned
      buffer (`None` for a null buffer), the slot's size, and the file
      attributes (compressed flag, RLE flag, decompressed size). The buffer
      may be longer than `size`; its first `size` bytes are the payload. */
  datatype Payload = Payload(data: Option<seq<u8>>, size: u32, compressed: bool, rle: bool, decSize: u32)

  /** The payload lies inside its buffer, so reading `size` bytes from it
      does not overread. */
  predicate Readable(p: Payload) {
    p.data.Some? && p.size <= |p.data.value|
  }

  function Content(p: Payload): seq<u8>
    requires Readable(p)
  {
    p.data.value[..p.size]
  }

  /** The guard of `ensureDecompress`: already decompressed, no console,
      no buffer, or nothing in it. */
  predicate DecompressSkips(p: Payload, console: Console) {
    !p.compressed || console == NONE || p.data.None? || p.size == 0
  }

  /** The guard of `ensureCompressed`. */
  predicate CompressSkips(p: Payload, console: Console) {
    p.compressed || console == NONE || p.data.None? || p.size == 0
  }

  /** What `ensureDecompress` needs beyond its guard: the payload lies in its
      buffer, and where the RLE flag is set the inflated bytes are a complete
      RLE stream whose expansion fits both the fresh buffer of `decSize`
      bytes and the output cursor, whose capacity is the decompressed size
      the switch left behind. */
  predicate DecompressDefined(p: Payload, console: Console, c: Codecs) {
    DecompressSkips(p, console) ||
    (Readable(p) &&
     (p.rle ==>
        var st := Inflate(console, c, Content(p), p.decSize);
        var d := Rle.Decode(st.buffer[..st.size]);
        d.Some? && |d.value| <= p.decSize && |d.value| <= st.decCopy))
  }

  /** `ensureDecompress`: past the guard the compressed flag is cleared
      first, the console's primitive inflates the payload into a fresh buffer
      of `decSize` bytes, and then either the RLE layer expands that into a
      second fresh buffer of `decSize` bytes, or the inflated buffer itself
      becomes the payload with the size the switch left behind. */
  function Decompress(p: Payload, console: Console, c: Codecs): (r: Payload)
    requires DecompressDefined(p, console, c)
    ensures r.rle == p.rle && r.decSize == p.decSize
    ensures !DecompressSkips(p, console) ==> !r.compressed && r.data.Some?
    ensures !DecompressSkips(p, console) && (p.rle || console != XBOX360) ==> Readable(r)
  {
    if DecompressSkips(p, console) then p
    else
      var st := Inflate(console, c, Content(p), p.decSize);
      if p.rle then
        var d := Rle.Decode(st.buffer[..st.size]).value;
        p.(data := Some(d + Zeros(p.decSize - |d|)), size := p.decSize, compressed := false)
      else
        p.(data := Some(st.buffer), size := st.decCopy, compressed := false)
  }

  /** The scratch buffer `ensureCompressed` allocates for the RLE stage, as
      the source writes it: as many bytes as the payload. */
  function ScratchAsWritten(size: nat): nat {
    size
  }

  /** The scratch buffer the RLE stage needs in the worst case, which the
      model allocates: twice the payload (see `Rle.Encode`). */
  function Scratch(size: nat): nat {
    2 * size
  }

  /** What `ensureCompressed` needs beyond its guard: the payload lies in its
      buffer and its RLE encoding has a 32-bit size. */
  predicate CompressDefined(p: Payload, console: Console) {
    CompressSkips(p, console) ||
    (Readable(p) && (p.rle ==> |Rle.Encode(Content(p))| < U32_LIMIT))
  }

  /** The bytes the console's compressor is given: the RLE encoding of the
      payload when the RLE flag is set, the payload itself otherwise. */
  function ZlibInput(p: Payload): seq<u8>
    requires Readable(p)
  {
    if p.rle then Rle.Encode(Content(p)) else Content(p)
  }

  /** `ensureCompressed`: past the guard the compressed flag is set and the
      decompressed size becomes the payload size; then the RLE layer (when
      flagged) encodes the payload into a scratch buffer, and the zlib
      consoles recompress that into a buffer as large as its input. The
      payload always lies inside the buffer that holds it. */
  function Compress(p: Payload, console: Console, c: Codecs): (r: Payload)
    requires CompressDefined(p, console)
    ensures r.rle == p.rle
    ensures !CompressSkips(p, console) ==> r.compressed && r.decSize == p.size && Readable(r)
  {
    if CompressSkips(p, console) then p
    else
      var p2 := RleStage(p);
      match Deflate(console, c, Content(p2), p2.size)
      case None => p2
      case Some(packed) => p2.(data := Some(packed.0), size := packed.1)
  }

  /** The first part of `ensureCompressed` past its guard: the flag is set,
      the payload size becomes the decompressed size, and with the RLE flag
      the encoding goes into the scratch buffer. */
  function RleStage(p: Payload): (r: Payload)
    requires Readable(p) && (p.rle ==> |Rle.Encode(Content(p))| < U32_LIMIT)
    ensures r.compressed && r.rle == p.rle && r.decSize == p.size && Readable(r)
  {
    var p1 := p.(compressed := true, decSize := p.size);
    if p.rle then
      var e := Rle.Encode(Content(p));
      p1.(data := Some(e + Zeros(Scratch(p.size) - |e|)), size := |e|)
    else p1
  }

  /** `ensureDecompress` changes nothing exactly when its guard holds: past
      the guard the compressed flag goes from set to clear. */
  lemma DecompressNoOp(p: Payload, console: Console, c: Codecs)
    requires DecompressDefined(p, console, c)
    ensures Decompress(p, console, c) == p <==> DecompressSkips(p, console)
  {
  }

  /** `ensureCompressed` changes nothing exactly when its guard holds. */
  lemma CompressNoOp(p: Payload, console: Console, c: Codecs)
    requires CompressDefined(p, console)
    ensures Compress(p, console, c) == p <==> CompressSkips(p, console)
  {
  }

  /** A second `ensureDecompress` changes nothing. */
  lemma DecompressIdempotent(p: Payload, console: Console, c: Codecs)
    requires DecompressDefined(p, console, c)
    ensures DecompressSkips(Decompress(p, console, c), console)
    ensures Decompress(Decompress(p, console, c), console, c) == Decompress(p, console, c)
  {
  }

  /** A second `ensureCompressed` changes nothing. */
  lemma CompressIdempotent(p: Payload, console: Console, c: Codecs)
    requires CompressDefined(p, console)
    ensures CompressSkips(Compress(p, console, c), console)
    ensures Compress(Compress(p, console, c), console, c) == Compress(p, console, c)
  {
  }

  /** The RLE layer expands a buffer of zeros to itself. */
  lemma {:induction false} DecodeZeros(n: nat)
    ensures Rle.Decode(Zeros(n)) == Some(Zeros(n))
  {
    assert Zeros(n) == Rle.Repeat(0, n) + [];
    Rle.DecodeLiterals(0, n, []);
  }

  /** On a console with no decompression primitive (the original Xbox One,
      or any console the switch does not list) a compressed payload is not
      left alone: it becomes `decSize` zero bytes and the flag is cleared,
      with or without the RLE layer. */
  lemma UnsupportedConsoleZeroes(p: Payload, console: Console, c: Codecs)
    requires !HasInflater(console) && console != NONE
    requires p.compressed && Readable(p) && p.size > 0
    ensures DecompressDefined(p, console, c)
    ensures Decompress(p, console, c) == p.(data := Some(Zeros(p.decSize)), size := p.decSize, compressed := false)
    ensures Decompress(p, console, c) != p
  {
    var st := Inflate(console, c, Content(p), p.decSize);
    assert st.buffer[..st.size] == Zeros(p.decSize);
    DecodeZeros(p.decSize);
    assert Zeros(p.decSize) + Zeros(0) == Zeros(p.decSize);
  }

  /** Past its guard `ensureCompressed` sets the flag, records the payload
      size as the decompressed size, and leaves either the RLE encoding of
      the payload (or the payload itself) or, on a zlib console, what the
      compressor wrote when given exactly that. With the RLE flag and no
      compressor the stored payload decodes back to the original. */
  lemma CompressOutcome(p: Payload, console: Console, c: Codecs)
    requires CompressDefined(p, console) && !CompressSkips(p, console)
    ensures var r := Compress(p, console, c);
      r.compressed && r.decSize == p.size && r.rle == p.rle && Readable(r) &&
      (!UsesZlib(console) ==> Content(r) == ZlibInput(p)) &&
      (!UsesZlib(console) && p.rle ==> Rle.Decode(Content(r)) == Some(Content(p))) &&
      (UsesZlib(console) ==>
        var d := c.zlibCompress(ZlibInput(p), |ZlibInput(p)|);
        Content(r) == d.out[..Written(d.out, |ZlibInput(p)|)])
  {
    var src := Content(p);
    if p.rle {
      var e := Rle.Encode(src);
      assert (e + Zeros(Scratch(p.size) - |e|))[..|e|] == e;
      Rle.RoundTrip(src);
    }
  }

  /** On the consoles that compress with zlib and inflate with
      `tinf_zlib_uncompress` (Switch, PS4, Wii U, Vita), decompressing a
      freshly compressed payload restores it, given that the two primitives
      are inverse (section 2 of RFC 1950), that this compression succeeds,
      and, with the RLE flag, that the encoded stream is no longer than the
      payload (the inflate buffer has only `decSize` bytes). */
  lemma ZlibRoundTrip(p: Payload, console: Console, c: Codecs)
    requires console in {SWITCH, PS4, WIIU, VITA}
    requires ZlibInverse(c)
    requires !p.compressed && Readable(p) && p.size > 0
    requires p.rle ==> |Rle.Encode(Content(p))| <= p.size
    requires c.zlibCompress(ZlibInput(p), |ZlibInput(p)|).status == 0
    ensures CompressDefined(p, console)
    ensures DecompressDefined(Compress(p, console, c), console, c)
    ensures Decompress(Compress(p, console, c), console, c) == p.(data := Some(Content(p)), decSize := p.size)
  {
    ZlibStored(p, console, c);
    ZlibInflates(p, Compress(p, console, c), console, c);
  }

  /** Decompressing what `ZlibStored` describes gives the payload back. */
  lemma ZlibInflates(p: Payload, r: Payload, console: Console, c: Codecs)
    requires console in {SWITCH, PS4, WIIU, VITA}
    requires ZlibInverse(c)
    requires !p.compressed && Readable(p) && p.size > 0
    requires p.rle ==> |Rle.Encode(Content(p))| <= p.size
    requires c.zlibCompress(ZlibInput(p), |ZlibInput(p)|).status == 0
    requires Readable(r) && r.compressed && r.rle == p.rle && r.decSize == p.size
    requires Content(r) == c.zlibCompress(ZlibInput(p), |ZlibInput(p)|).out
    ensures DecompressDefined(r, console, c)
    ensures Decompress(r, console, c) == p.(data := Some(Content(p)), decSize := p.size)
  {
    var src := Content(p);
    var z := ZlibInput(p);
    ZlibRestores(c, z, |z|, p.size as nat);
    var st := Inflate(console, c, Content(r), r.decSize);
    FillFits(z, p.size);
    assert st.buffer[..st.size] == z;
    if p.rle {
      Rle.RoundTrip(src);
      assert src + Zeros(0) == src;
    } else {
      assert st.buffer == z + Zeros(0) == src;
    }
  }

  /** What the zlib consoles store when compression succeeds: the
      compressor's whole output, with the flag set and the payload size as
      the decompressed size. */
  lemma ZlibStored(p: Payload, console: Console, c: Codecs)
    requires console in {SWITCH, PS4, WIIU, VITA}
    requires ZlibInverse(c)
    requires !p.compressed && Readable(p) && p.size > 0
    requires p.rle ==> |Rle.Encode(Content(p))| <= p.size
    requires c.zlibCompress(ZlibInput(p), |ZlibInput(p)|).status == 0
    ensures CompressDefined(p, console)
    ensures var r := Compress(p, console, c);
      Readable(r) && r.compressed && r.rle == p.rle && r.decSize == p.size &&
      Content(r) == c.zlibCompress(ZlibInput(p), |ZlibInput(p)|).out
  {
    var z := ZlibInput(p);
    var d := c.zlibCompress(z, |z|);
    ZlibRestores(c, z, |z|, p.size as nat);
    if p.rle {
      assert (z + Zeros(Scratch(p.size) - |z|))[..|z|] == z;
    }
    FillFits(d.out, |z|);
  }

  /** The RLE scratch buffer as `ensureCompressed` allocates it is too
      small: it has as many bytes as the payload, but a lone 255 encodes to
      two bytes. */
  lemma ScratchAsWrittenOverflows()
    ensures |Rle.Encode([Rle.SENTINEL])| > ScratchAsWritten(|[Rle.SENTINEL]|)
  {
    Rle.SentinelRun(1);
    assert [Rle.SENTINEL] == Rle.Repeat(Rle.SENTINEL, 1);
  }
}
