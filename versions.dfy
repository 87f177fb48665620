/** The chunk version tags of `LCE/Region/ChunkManager.cpp` (the
    `CHUNK_HEADER` enum) and the dispatch of `readChunk` and `writeChunk` on
    them. The structural decoders and encoders of each version (`ChunkV10`,
    `ChunkV11`, `ChunkV12`) are not part of this model: a `Structural` value
    supplies them as functions. */
module Versions {
  import opened Bytes

  const HEADER_NBT: int := 0x0a00
  const V_8: int := 0x0008
  const V_9: int := 0x0009
  const V_11: int := 0x000B
  const V_12: int := 0x000C
  const V_13: int := 0x000D

  /** A signed 16-bit value (`i16`). */
  type i16 = x: int | -0x8000 <= x < 0x8000

  /** The structural decoders a tag selects. Version 13 is recognised but
      its decoder is a stub. */
  datatype Decoder = DecoderV10 | DecoderV11 | DecoderV12 | DecoderV13Stub | NoDecoder

  /** The decoded contents of a chunk (`ChunkData`), which only the
      structural decoders look inside. */
  datatype ChunkBody = ChunkBody(
    blocks: seq<int>, blockLight: seq<u8>, skyLight: seq<u8>, heightMap: seq<u8>,
    biomes: seq<u8>, nbt: seq<u8>, terrainPopulated: int, lastUpdate: int,
    inhabitedTime: int, dataGroupCount: int, chunkX: int, chunkZ: int, submerged: seq<int>)

  /** A chunk's decoded record with the version it was read as. */
  datatype ChunkData = ChunkData(lastVersion: i16, body: ChunkBody)

  /** Each version's structural reader (given the record so far and the
      bytes after the tag) and writer (the bytes it emits). */
  datatype Structural = Structural(
    readV10: (ChunkBody, seq<u8>) -> ChunkBody,
    readV11: (ChunkBody, seq<u8>) -> ChunkBody,
    readV12: (ChunkBody, seq<u8>) -> ChunkBody,
    writeV10: ChunkBody -> seq<u8>,
    writeV11: ChunkBody -> seq<u8>,
    writeV12: ChunkBody -> seq<u8>)

  /** The decoder (and encoder) each tag is routed to. */
  function DecoderFor(tag: int): (d: Decoder)
    ensures d == DecoderV10 <==> tag == HEADER_NBT
    ensures d == DecoderV11 <==> tag in {V_8, V_9, V_11}
    ensures d == DecoderV12 <==> tag == V_12
    ensures d == DecoderV13Stub <==> tag == V_13
    ensures d == NoDecoder <==> tag !in {HEADER_NBT, V_8, V_9, V_11, V_12, V_13}
  {
    if tag == HEADER_NBT then DecoderV10
    else if tag == V_8 || tag == V_9 || tag == V_11 then DecoderV11
    else if tag == V_12 then DecoderV12
    else if tag == V_13 then DecoderV13Stub
    else NoDecoder
  }

  /** The big-endian signed 16-bit value of two bytes (`readInt16`). */
  function ReadTag(b0: u8, b1: u8): (t: i16)
    ensures (t as int) % 0x1_0000 == b0 as int * 256 + b1 as int
  {
    var v := b0 as int * 256 + b1 as int;
    if v >= 0x8000 then v - 0x1_0000 else v
  }

  /** The two bytes `writeInt16` emits, most significant first. */
  function TagBytes(t: i16): (r: seq<u8>)
    ensures |r| == 2
  {
    var v := t as int % 0x1_0000;
    [(v / 256) as u8, (v % 256) as u8]
  }

  /** `readChunk`: the leading tag becomes the last version, with the legacy
      marker 0x0a00 stored as version 11, and the rest of the bytes go to the
      tag's structural decoder; version 13 and unknown tags decode nothing. */
  function ReadChunkData(cd: ChunkData, bytes: seq<u8>, st: Structural): (r: ChunkData)
    requires |bytes| >= 2
    ensures r.lastVersion == (if ReadTag(bytes[0], bytes[1]) == HEADER_NBT then V_11 else ReadTag(bytes[0], bytes[1]))
    ensures ReadTag(bytes[0], bytes[1]) == HEADER_NBT ==> r.body == st.readV10(cd.body, bytes[2..])
    ensures ReadTag(bytes[0], bytes[1]) in {V_8, V_9, V_11} ==> r.body == st.readV11(cd.body, bytes[2..])
    ensures ReadTag(bytes[0], bytes[1]) == V_12 ==> r.body == st.readV12(cd.body, bytes[2..])
    ensures ReadTag(bytes[0], bytes[1]) !in {HEADER_NBT, V_8, V_9, V_11, V_12} ==> r.body == cd.body
  {
    var tag := ReadTag(bytes[0], bytes[1]);
    var rest := bytes[2..];
    var version: i16 := if tag == HEADER_NBT then V_11 else tag;
    match DecoderFor(tag)
    case DecoderV10 => ChunkData(version, st.readV10(cd.body, rest))
    case DecoderV11 => ChunkData(version, st.readV11(cd.body, rest))
    case DecoderV12 => ChunkData(version, st.readV12(cd.body, rest))
    case _ => ChunkData(version, cd.body)
  }

  /** `writeChunk`'s output: the legacy marker's encoder writes no tag,
      versions 8, 9, 11 and 12 write their tag and then their encoder's
      bytes, an unknown version writes nothing, and version 13 has no output
      because the process exits. */
  function WriteChunkBytes(cd: ChunkData, st: Structural): (r: Option<seq<u8>>)
  {
    match DecoderFor(cd.lastVersion)
    case DecoderV10 => Some(st.writeV10(cd.body))
    case DecoderV11 => Some(TagBytes(cd.lastVersion) + st.writeV11(cd.body))
    case DecoderV12 => Some(TagBytes(cd.lastVersion) + st.writeV12(cd.body))
    case DecoderV13Stub => None
    case NoDecoder => Some([])
  }

  /** Each version's reader undoes its writer. */
  ghost predicate StructuralInverse(st: Structural) {
    (forall b: ChunkBody, b0: ChunkBody :: st.readV11(b0, st.writeV11(b)) == b) &&
    (forall b: ChunkBody, b0: ChunkBody :: st.readV12(b0, st.writeV12(b)) == b)
  }

  /** The tag bytes read back as the tag. */
  lemma TagRoundTrip(t: i16)
    ensures ReadTag(TagBytes(t)[0], TagBytes(t)[1]) == t
  {
    var v := t as int % 0x1_0000;
    assert v == (v / 256) * 256 + v % 256;
  }

  /** Writing fails (the process exits) exactly for version 13. */
  lemma WriteForbiddenIff(cd: ChunkData, st: Structural)
    ensures WriteChunkBytes(cd, st).None? <==> cd.lastVersion == V_13
  {
  }

  /** A chunk read with the legacy marker is version 11 from then on: it is
      written back with the version 11 tag and encoder, and that output is
      read back as version 11 by the version 11 decoder. */
  lemma LegacyNormalised(cd: ChunkData, rest: seq<u8>, st: Structural)
    ensures var r := ReadChunkData(cd, [0x0a, 0x00] + rest, st);
      r.lastVersion == V_11 && r.body == st.readV10(cd.body, rest) &&
      WriteChunkBytes(r, st) == Some([0x00, 0x0B] + st.writeV11(r.body)) &&
      DecoderFor(ReadTag(0x00, 0x0B)) == DecoderV11
  {
    assert ([0x0a, 0x00] + rest)[2..] == rest;
  }

  /** For versions 8, 9, 11 and 12 the written bytes start with the version
      tag and go through the same decoder family on the way back in; when the
      structural readers undo their writers the record comes back whole. */
  lemma WriteReadRoundTrip(cd: ChunkData, cd0: ChunkData, st: Structural)
    requires cd.lastVersion in {V_8, V_9, V_11, V_12}
    ensures WriteChunkBytes(cd, st).Some?
    ensures var out := WriteChunkBytes(cd, st).value;
      |out| >= 2 && out[..2] == TagBytes(cd.lastVersion) &&
      ReadTag(out[0], out[1]) == cd.lastVersion &&
      ReadChunkData(cd0, out, st).lastVersion == cd.lastVersion &&
      (StructuralInverse(st) ==> ReadChunkData(cd0, out, st) == cd)
  {
    var out := WriteChunkBytes(cd, st).value;
    TagRoundTrip(cd.lastVersion);
    var body := if cd.lastVersion == V_12 then st.writeV12(cd.body) else st.writeV11(cd.body);
    assert out == TagBytes(cd.lastVersion) + body;
    assert out[2..] == body;
  }
}
