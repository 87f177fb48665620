/** One chunk slot of a region (`ChunkManager` in
    `LCE/Region/ChunkManager.cpp`): its stored bytes, its place in the
    region file, its file attributes and its decoded record. */
module Chunk {
  import opened Bytes
  import opened Codecs
  import opened Pipeline
  import opened Versions
  import Rle
  import RegionFormat

  /** The record a fresh slot starts with. */
  function EmptyChunkData(): ChunkData {
    ChunkData(0, ChunkBody([], [], [], [], [], [], 0, 0, 0, 0, 0, 0, []))
  }

  /** The RLE stage of `ensureDecompress`: the stream is expanded into a
      fresh zeroed buffer of `cap` bytes. */
  method RleExpand(src: seq<u8>, cap: nat) returns (out: seq<u8>)
    requires Rle.Decode(src).Some? && |Rle.Decode(src).value| <= cap
    ensures out == Rle.Decode(src).value + Zeros(cap - |Rle.Decode(src).value|)
  {
    var buffer := new u8[cap](_ => 0);
    ghost var initial := buffer[..];
    assert initial == Zeros(cap);
    var n := Rle.Decompress(src, buffer);
    assert buffer[..] == buffer[..n] + buffer[n..];
    assert buffer[n..] == Zeros(cap - n);
    out := buffer[..];
  }

  /** The RLE stage of `ensureCompressed`: the payload is encoded into a
      fresh zeroed scratch buffer of `cap` bytes, and the encoded size is
      returned with it. */
  method RleShrink(src: seq<u8>, cap: nat) returns (out: seq<u8>, n: nat)
    requires |Rle.Encode(src)| <= cap
    ensures n == |Rle.Encode(src)| && out == Rle.Encode(src) + Zeros(cap - n)
  {
    var buffer := new u8[cap](_ => 0);
    ghost var initial := buffer[..];
    assert initial == Zeros(cap);
    n := Rle.Compress(src, buffer);
    assert buffer[..] == buffer[..n] + buffer[n..];
    assert buffer[n..] == Zeros(cap - n);
    out := buffer[..];
  }

  /** What `RleShrink` leaves is the RLE stage's payload. */
  lemma RleStageShrinks(p: Payload, buffer: seq<u8>, n: nat)
    requires Readable(p) && p.rle && |Rle.Encode(Content(p))| < U32_LIMIT
    requires n == |Rle.Encode(Content(p))| && buffer == Rle.Encode(Content(p)) + Zeros(Scratch(p.size as nat) - n)
    ensures RleStage(p) == p.(compressed := true, decSize := p.size, data := Some(buffer), size := n as u32)
  {
  }

  class ChunkManager {
    /** The owned buffer (`None` for a null buffer) and the payload size. */
    var data: Option<seq<u8>>
    var size: u32
    /** The slot's entry in the region's location table. */
    var sectors: u8
    var location: u32
    var timestamp: u32
    /** The file attributes: compressed flag, RLE flag, decompressed size. */
    var compressed: bool
    var rle: bool
    var decSize: u32
    var chunkData: ChunkData

    function AsPayload(): Payload
      reads this
    {
      Payload(data, size, compressed, rle, decSize)
    }

    function AsSlot(): RegionFormat.Slot
      reads this
    {
      RegionFormat.Slot(sectors, location, timestamp, AsPayload())
    }

    /** An empty slot: no buffer, not in the file, marked compressed (a
        chunk read from a region file holds compressed bytes). */
    constructor()
      ensures AsSlot() == RegionFormat.Slot(0, 0, 0, Payload(None, 0, true, false, 0))
      ensures !RegionFormat.Present(AsSlot())
      ensures chunkData == EmptyChunkData()
    {
      data := None;
      size := 0;
      sectors := 0;
      location := 0;
      timestamp := 0;
      compressed := true;
      rle := false;
      decSize := 0;
      chunkData := EmptyChunkData();
    }

    /** `ensureDecompress`: the payload becomes what `Pipeline.Decompress`
        says; the slot's place in the file and its record are untouched. */
    method EnsureDecompress(console: Console, c: Codecs)
      requires DecompressDefined(AsPayload(), console, c)
      modifies this`data, this`size, this`compressed
      ensures AsPayload() == Decompress(old(AsPayload()), console, c)
    {
      if !compressed || console == NONE || data.None? || size == 0 {
        return;
      }
      ghost var p := AsPayload();
      compressed := false;
      var st := Inflate(console, c, data.value[..size], decSize);
      assert st == Inflate(console, c, Content(p), p.decSize);
      data := None;
      size := 0;
      if rle {
        var out := RleExpand(st.buffer[..st.size], decSize as nat);
        data := Some(out);
        size := decSize;
        assert AsPayload() == p.(data := Some(out), size := p.decSize, compressed := false);
      } else {
        data := Some(st.buffer);
        size := st.decCopy;
        assert AsPayload() == p.(data := Some(st.buffer), size := st.decCopy, compressed := false);
      }
    }

    /** `ensureCompressed`: the payload becomes what `Pipeline.Compress`
        says; the slot's place in the file and its record are untouched. */
    method EnsureCompressed(console: Console, c: Codecs)
      requires CompressDefined(AsPayload(), console)
      modifies this`data, this`size, this`compressed, this`decSize
      ensures AsPayload() == Compress(old(AsPayload()), console, c)
    {
      if compressed || console == NONE || data.None? || size == 0 {
        return;
      }
      ghost var p := AsPayload();
      ghost var q := p.(compressed := true, decSize := p.size);
      compressed := true;
      decSize := size;
      if rle {
        var buffer, n := RleShrink(data.value[..size], Scratch(size as nat));
        data := Some(buffer);
        size := n as u32;
        q := q.(data := Some(buffer), size := n as u32);
        RleStageShrinks(p, buffer, n);
      }
      assert AsPayload() == q == RleStage(p);
      var packed := Deflate(console, c, data.value[..size], size as nat);
      if packed.Some? {
        data := Some(packed.value.0);
        size := packed.value.1 as u32;
      }
    }

    /** `readChunk`: decodes the payload (which must hold at least the
        two-byte tag) into the slot's record. */
    method ReadChunk(console: Console, st: Structural)
      requires data.Some? && 2 <= size as int <= |data.value|
      modifies this`chunkData
      ensures chunkData == ReadChunkData(old(chunkData), data.value[..size], st)
    {
      chunkData := ReadChunkData(chunkData, data.value[..size], st);
    }

    /** `writeChunk`: the record's encoding replaces the payload, which is
        then also the decompressed size; for version 13 the process exits
        instead and nothing changes. */
    method WriteChunk(console: Console, st: Structural) returns (exited: bool)
      requires WriteChunkBytes(chunkData, st).Some? ==> |WriteChunkBytes(chunkData, st).value| < U32_LIMIT
      modifies this`data, this`size, this`decSize
      ensures exited <==> chunkData.lastVersion == V_13
      ensures exited ==> data == old(data) && size == old(size) && decSize == old(decSize)
      ensures !exited ==> data == WriteChunkBytes(chunkData, st) && size as int == |data.value| && decSize == size
    {
      var out := WriteChunkBytes(chunkData, st);
      WriteForbiddenIff(chunkData, st);
      if out.None? {
        return true;
      }
      data := out;
      size := |out.value|;
      decSize := size;
      exited := false;
    }
  }
}
