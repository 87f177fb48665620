# Legacy console region files, chunk pipeline and RLE

This project models the core of LegacyEditor, a converter for the save files
of the legacy console editions of Minecraft. It has three layers.

- **The RLE transform** (`LegacyEditor/utils/RLE/rle.hpp`). Byte 255 opens a
  run record. `Rle.Encode` and `Rle.Decode` specify the transform as
  functions. `Rle.Compress` and `Rle.Decompress` are the source's two loops,
  writing into an output array.
- **A chunk slot** (`LegacyEditor/LCE/Region/ChunkManager.cpp`). A slot holds
  a payload buffer, a size, a compressed flag, an RLE flag and a decompressed
  size.
  - `Chunk.ChunkManager` is a class whose methods update these fields in place.
  - `ensureDecompress` and `ensureCompressed` are guarded transitions. They
    are stated as the functions `Pipeline.Decompress` and `Pipeline.Compress`
    on a `Payload` value.
  - `readChunk` and `writeChunk` dispatch on the 16-bit version tag
    (`Versions`).
- **The region container** (`LegacyEditor/LCE/Region/RegionManager.cpp`).
  - A region holds 1024 slots over 4096-byte sectors: a location table, a
    timestamp table, and one record per present chunk.
  - `Region.RegionManager` is a class over an array of `ChunkManager`
    objects. Its `Read` and `Write` methods loop over the slots as the
    source does.
  - `Write` writes through a cursor into a preallocated, zeroed buffer.
    `Writes` models that cursor as a list of writes applied in order.
  - `RegionFormat` states the layout `write` computes (`PlaceAsWritten`),
    the image it produces (`Image`) and what `read` recovers from an image
    (`ReadRegion`).
  - `write` keeps the sector count each chunk was read with. It does not
    store the count it computes for the recompressed payload (see
    "## Findings"). `RegionFormat.Place` is the layout with the new count
    stored.
  - `RegionFormat.WriteSlotsFit` proves that `write`'s layout, stale counts
    and all, keeps records apart and inside the buffer.
  - `RegionFormat.WriteReadRoundTrip` proves that reading the image of a
    laid-out region gives every slot back, provided no present slot's
    stored sector count reaches past the region's end.
  - `RegionFormat.WrittenRegionReadsBack` applies this to `write` as the
    source has it. `RegionFormat.WrittenRegionThrows` proves the other
    side: when a stale count does reach past the end, `read` throws on the
    image.

The platform codecs (LZX, deflate through `tinf`, zlib's `compress`) are
parameters: values of `Codecs.Codecs`. The structural chunk decoders
(`ChunkV10`, `ChunkV11`, `ChunkV12`) are also parameters: values of
`Versions.Structural`. Where a property depends on a codec, the codec's
behaviour is a hypothesis of the lemma. `Codecs.ZlibInverse` is one, based on
section 2 of RFC 1950.

Behaviours worth noting:

- On a console with no decompressor (Xbox One, or one the switch does not
  list), `ensureDecompress` is not a no-op. It clears the flag and the payload
  becomes `decSize` zero bytes (`Pipeline.UnsupportedConsoleZeroes`).
- The version 13 exit is in `writeChunk`, not in `ensureCompressed`.
- The sector count is `ceil(size / 4096) + 1`, computed in a byte. The words
  before the payload are not counted.
- `read`'s bounds check compares `location + sectors` with the file's size
  rounded up to whole sectors. It does not compare byte offsets.
- An absent slot's timestamp is written as it is, not as zero.
- `write` takes the number of decompressed-size words from the region's own
  console, but the byte order from its `consoleIn` argument.

## Model

| member | source | states |
|---|---|---|
| Rle.RunLength | LegacyEditor/utils/RLE/rle.hpp:35-40 | The run grouped into one record is 1 to 256 bytes of the same value. It is maximal: it ends at the input's end, at 256 bytes, or at a different byte. |
| Rle.EncodeRun | LegacyEditor/utils/RLE/rle.hpp:42-63 | A run's record is at most twice the run's length. It is longer than the run exactly for an isolated 255. |
| Rle.Encode | LegacyEditor/utils/RLE/rle.hpp:29-67 | The encoding is at most twice as long as the input. It is empty exactly when the input is. |
| Rle.RoundTrip | LegacyEditor/utils/RLE/rle.hpp:6-67 | Decoding the encoding of any byte sequence gives the sequence back. |
| Rle.SentinelRun | LegacyEditor/utils/RLE/rle.hpp:42-50 | A run of 1 to 256 bytes of 255 encodes to `[255, n-1]` below 4 and `[255, n-1, 255]` from 4 on, and round-trips. |
| Rle.LongRunSplits | LegacyEditor/utils/RLE/rle.hpp:35-40 | A run longer than 256 bytes is split: a record of 256 bytes, then the encoding of the rest of the run. Up to 512 bytes the rest is one record. |
| Rle.DecodeRun | LegacyEditor/utils/RLE/rle.hpp:11-22 | Whatever follows a run's record, the record decodes to the run: below 3 the second byte gives copies of 255, and otherwise a value byte follows. |
| Rle.DecodeLiterals | LegacyEditor/utils/RLE/rle.hpp:12-13 | Bytes other than 255 decode to themselves. |
| Rle.TruncatedRecordFails | LegacyEditor/utils/RLE/rle.hpp:10-22 | Input ending in a lone 255, or in `255, b2` with `b2 >= 3` and no value byte, has no decoding. |
| Rle.CountRun | LegacyEditor/utils/RLE/rle.hpp:34-40 | The inner counting loop returns the length of the run at `dataIndex`, capped at 256. |
| Rle.EmitRun | LegacyEditor/utils/RLE/rle.hpp:42-63 | One run's bytes go at `sizeOut`, and the position advances by their number. Nothing else in the output changes. |
| Rle.EmitCopies | LegacyEditor/utils/RLE/rle.hpp:59-61 | `n` copies of the value go at `sizeOut`. Nothing else changes. |
| Rle.CompressRun | LegacyEditor/utils/RLE/rle.hpp:33-66 | One turn of the encoder's loop: the bytes written so far, followed by the encoding of the unread input, are the whole encoding. |
| Rle.Compress | LegacyEditor/utils/RLE/rle.hpp:29-67 | `RLE_compress` writes exactly `Encode(dataIn)` at the front of the output, returns its length, and leaves the rest of the output alone. |
| Rle.ReadRecord | LegacyEditor/utils/RLE/rle.hpp:11-19 | One turn of the decoder reads a literal or a record. The input's decoding is that many copies of the value, followed by the decoding of what comes after. |
| Rle.DecompressRun | LegacyEditor/utils/RLE/rle.hpp:10-24 | One turn of the decoder's loop keeps the output written so far plus the decoding of the unread input equal to the whole decoding. |
| Rle.Decompress | LegacyEditor/utils/RLE/rle.hpp:6-26 | `RLE_decompress` writes exactly `Decode(dataIn)` at the front of the output. Its `sizeOut` is that length, and the rest of the output is left alone. |
| Codecs.Inflate | LegacyEditor/LCE/Region/ChunkManager.cpp:123-145 | The decompression switch fills a buffer of `decSize` bytes. Only the Xbox 360 primitive replaces the decompressed size. A console with no primitive leaves `decSize` zero bytes. |
| Codecs.Deflate | LegacyEditor/LCE/Region/ChunkManager.cpp:182-224 | Only RPCS3, Switch, PS4, Wii U and Vita recompress, into a buffer as large as the input. |
| Pipeline.Decompress | LegacyEditor/LCE/Region/ChunkManager.cpp:114-158 | Past the guard, the flag is cleared and the payload is present. The RLE flag and decompressed size are kept. |
| Pipeline.Compress | LegacyEditor/LCE/Region/ChunkManager.cpp:162-226 | Past the guard, the flag is set, the decompressed size is the old payload size, the RLE flag is kept, and the payload lies in its buffer. |
| Pipeline.RleStage | LegacyEditor/LCE/Region/ChunkManager.cpp:169-179 | Before recompression, the flag is set, the decompressed size is recorded, and the payload lies in its buffer. |
| Pipeline.DecompressNoOp | LegacyEditor/LCE/Region/ChunkManager.cpp:114-121 | `ensureDecompress` changes nothing exactly when its guard holds: decompressed already, console NONE, no buffer, or size 0. |
| Pipeline.CompressNoOp | LegacyEditor/LCE/Region/ChunkManager.cpp:162-169 | `ensureCompressed` changes nothing exactly when its guard holds. |
| Pipeline.DecompressIdempotent | LegacyEditor/LCE/Region/ChunkManager.cpp:114-121 | After `ensureDecompress` its guard holds, so doing it twice is doing it once. |
| Pipeline.CompressIdempotent | LegacyEditor/LCE/Region/ChunkManager.cpp:163-169 | After `ensureCompressed` its guard holds, so doing it twice is doing it once. |
| Pipeline.UnsupportedConsoleZeroes | LegacyEditor/LCE/Region/ChunkManager.cpp:121-157 | On a console with no primitive, a compressed payload becomes `decSize` zero bytes and the flag is cleared, so the call is not a no-op. |
| Pipeline.CompressOutcome | LegacyEditor/LCE/Region/ChunkManager.cpp:169-221 | Past the guard, the payload is the RLE encoding (or the payload itself), or on a zlib console the compressor's output for exactly that. Without a compressor, an RLE payload decodes back to the original. |
| Pipeline.ZlibStored | LegacyEditor/LCE/Region/ChunkManager.cpp:208-221 | On a zlib console a successful compression stores the compressor's whole output. |
| Pipeline.ZlibInflates | LegacyEditor/LCE/Region/ChunkManager.cpp:135-157 | Decompressing what `ZlibStored` describes restores the payload, with and without the RLE layer. |
| Pipeline.ZlibRoundTrip | LegacyEditor/LCE/Region/ChunkManager.cpp:114-226 | On Switch, PS4, Wii U and Vita, given inverse zlib primitives, `ensureDecompress` after `ensureCompressed` restores the payload. |
| Pipeline.ScratchAsWrittenOverflows | LegacyEditor/LCE/Region/ChunkManager.cpp:173-174 | The RLE scratch buffer as written (as many bytes as the payload) is too small for the payload `[255]`. |
| Pipeline.DecodeZeros | LegacyEditor/LCE/Region/ChunkManager.cpp:149-151 | A zeroed buffer goes through the RLE layer unchanged. |
| Chunk.RleExpand | LegacyEditor/LCE/Region/ChunkManager.cpp:149-152 | The RLE stage of `ensureDecompress` leaves the decoding, followed by zeros, in a fresh buffer of `decSize` bytes. |
| Chunk.RleShrink | LegacyEditor/LCE/Region/ChunkManager.cpp:172-178 | The RLE stage of `ensureCompressed` leaves the encoding, followed by zeros, in a fresh scratch buffer, and returns the encoding's length. |
| Chunk.RleStageShrinks | LegacyEditor/LCE/Region/ChunkManager.cpp:172-178 | What `RleShrink` leaves is the payload `RleStage` describes. |
| Chunk.ChunkManager.constructor | LegacyEditor/LCE/Region/ChunkManager.cpp:32-34 | A new slot is empty, not in the file, and holds an empty record. |
| Chunk.ChunkManager.EnsureDecompress | LegacyEditor/LCE/Region/ChunkManager.cpp:114-158 | In place, the slot's payload becomes `Pipeline.Decompress` of the old payload. |
| Chunk.ChunkManager.EnsureCompressed | LegacyEditor/LCE/Region/ChunkManager.cpp:162-226 | In place, the slot's payload becomes `Pipeline.Compress` of the old payload. |
| Chunk.ChunkManager.ReadChunk | LegacyEditor/LCE/Region/ChunkManager.cpp:42-69 | The slot's record becomes what the tag's decoder reads from the payload. |
| Chunk.ChunkManager.WriteChunk | LegacyEditor/LCE/Region/ChunkManager.cpp:72-110 | The call exits exactly for version 13 and then changes nothing. Otherwise the payload is the encoder's output, and the size and decompressed size are its length. |
| Versions.DecoderFor | LegacyEditor/LCE/Region/ChunkManager.cpp:48-67 | Each tag goes to its decoder, as an if-and-only-if for each: 0x0a00 to version 10, tags 8, 9 and 11 to version 11, 12 to version 12, and 13 to the stub. Exactly the tags outside the enum go nowhere. |
| Versions.ReadTag | LegacyEditor/LCE/Region/ChunkManager.cpp:46 | The signed 16-bit tag agrees with its two big-endian bytes modulo 2^16. |
| Versions.ReadChunkData | LegacyEditor/LCE/Region/ChunkManager.cpp:42-69 | The last version is the tag, except that the legacy marker 0x0a00 becomes version 11. The record body is what the tag's decoder reads from the bytes after the tag. For tag 13 and unknown tags the body is left unchanged. |
| Versions.TagRoundTrip | LegacyEditor/LCE/Region/ChunkManager.cpp:86-91 | The tag bytes `writeChunk` emits read back as the tag. |
| Versions.WriteForbiddenIff | LegacyEditor/LCE/Region/ChunkManager.cpp:95-98 | Writing fails exactly for version 13. |
| Versions.LegacyNormalised | LegacyEditor/LCE/Region/ChunkManager.cpp:49-51 | A chunk read with the legacy marker is version 11 from then on. It is written with the version 11 tag and encoder, and that output goes back to the version 11 decoder. |
| Versions.WriteReadRoundTrip | LegacyEditor/LCE/Region/ChunkManager.cpp:83-94 | For versions 8, 9, 11 and 12 the output starts with the version tag, and reading it back gives the same version. If the structural readers undo their writers, the whole record comes back. |
| Bytes.WordRoundTrip | LegacyEditor/LCE/Region/RegionManager.cpp:124-132 | A 32-bit word read back from its four written bytes is the word, in either byte order. |
| Writes.WriteAt | LegacyEditor/LCE/Region/RegionManager.cpp:126 | A cursor write puts its bytes at its offset and leaves the rest of the buffer alone. |
| Writes.PutConcat | LegacyEditor/LCE/Region/RegionManager.cpp:147-162 | Two consecutive cursor writes put the same bytes as one write of both. |
| Writes.ApplyReads | LegacyEditor/LCE/Region/RegionManager.cpp:136-163 | A write that no later write overlaps reads back whole from the final buffer. |
| Writes.ApplyKeepsPrefix | LegacyEditor/LCE/Region/RegionManager.cpp:136-163 | Writes that all start at or after a point leave the bytes before it alone. |
| RegionFormat.PackRoundTrip | LegacyEditor/LCE/Region/RegionManager.cpp:124-127 | `sectors \| location << 8` unpacks to the same two fields exactly when the location fits in 24 bits. |
| RegionFormat.UnpackRoundTrip | LegacyEditor/LCE/Region/RegionManager.cpp:36-40 | Every location word is the packing of the sector count and location `read` takes from it. |
| RegionFormat.LengthRoundTrip | LegacyEditor/LCE/Region/RegionManager.cpp:141-147 | The length word reads back as its size and RLE flag exactly when the size is below 2^24 with the flag, or below 2^30 without it. |
| RegionFormat.SectorsForRoom | LegacyEditor/LCE/Region/RegionManager.cpp:108 | Without truncation, a record's sector count is `ceil(size/4096) + 1`, which leaves a whole spare sector for its words. |
| RegionFormat.SectorsForWraps | LegacyEditor/LCE/Region/RegionManager.cpp:108 | A payload of 255 sectors wraps the byte-wide sector count to 0. |
| RegionFormat.SectorsBefore | LegacyEditor/LCE/Region/RegionManager.cpp:102-112 | A record's first sector is at least 2 and grows by at most 255 per slot. |
| RegionFormat.SectorsBeforeMono | LegacyEditor/LCE/Region/RegionManager.cpp:102-112 | The running sector total never decreases. |
| RegionFormat.PlaceAsWritten | LegacyEditor/LCE/Region/RegionManager.cpp:102-112 | `write`'s layout keeps every slot's sector count as read, its timestamp and its payload. Only the location changes. |
| RegionFormat.PlaceAsWrittenLaidOut | LegacyEditor/LCE/Region/RegionManager.cpp:102-112 | `write`'s layout puts absent slots at location 0 and each present slot right after the records before it, from sector 2, whatever its stored sector count. It keeps the region's size. |
| RegionFormat.PlacedWithinTotal | LegacyEditor/LCE/Region/RegionManager.cpp:102-112 | With current sector counts, no storable record's sectors reach past the region's end. |
| RegionFormat.AsWrittenPlaces | LegacyEditor/LCE/Region/RegionManager.cpp:102-112 | `write`'s layout is the intended one (`Place`) exactly when every present slot's stored sector count is already `ceil(size/4096) + 1` of its payload. |
| RegionFormat.Place | LegacyEditor/LCE/Region/RegionManager.cpp:102-112 | The intended layout, which stores the recomputed count (the corrected half of the second finding), keeps every slot's timestamp and payload. |
| RegionFormat.PlacePlaced | LegacyEditor/LCE/Region/RegionManager.cpp:102-112 | The intended layout puts absent slots at location 0. Each present slot goes right after the records before it, from sector 2, with its recomputed sector count. It keeps which slots are present and the total. |
| RegionFormat.PlaceSectorsBefore | LegacyEditor/LCE/Region/RegionManager.cpp:102-112 | Storing the recomputed count moves no record boundary. |
| RegionFormat.RecordBytes | LegacyEditor/LCE/Region/RegionManager.cpp:141-162 | A record is 4 bytes of length word, 4 or 8 of decompressed size, then the payload. |
| RegionFormat.Image | LegacyEditor/LCE/Region/RegionManager.cpp:115-163 | The image is exactly the region's sectors long, a multiple of 4096. |
| RegionFormat.RecordEnds | LegacyEditor/LCE/Region/RegionManager.cpp:108-162 | In a laid-out region, whatever the stored sector counts, each storable record ends before the next present slot's first sector. |
| RegionFormat.WriteDefinedWhenStorable | LegacyEditor/LCE/Region/RegionManager.cpp:115-163 | Every record of a laid-out region of storable slots, stale counts included, fits in the buffer `write` allocates. |
| RegionFormat.RecordsApart | LegacyEditor/LCE/Region/RegionManager.cpp:136-163 | In a laid-out region of storable slots, no two present slots' records overlap. |
| RegionFormat.PlacedTablesApart | LegacyEditor/LCE/Region/RegionManager.cpp:102-112 | In a laid-out region, no present slot's record starts in the two table sectors, and every location fits 24 bits. |
| RegionFormat.TablesKept | LegacyEditor/LCE/Region/RegionManager.cpp:136-163 | The record loop leaves both tables as written. |
| RegionFormat.TablesReadBack | LegacyEditor/LCE/Region/RegionManager.cpp:124-132 | Each slot's sector count, location and timestamp read back from the image. |
| RegionFormat.RecordInImage | LegacyEditor/LCE/Region/RegionManager.cpp:136-163 | Each present slot's record lies in the image at its first sector. |
| RegionFormat.ParseRecord | LegacyEditor/LCE/Region/RegionManager.cpp:60-85 | A record's length word, last decompressed-size word and payload read back wherever the record lies. |
| RegionFormat.FirstOutside | LegacyEditor/LCE/Region/RegionManager.cpp:49-56 | `read` throws at the first present slot whose sectors reach past the file, and no slot before it does. |
| RegionFormat.ReadRegion | LegacyEditor/LCE/Region/RegionManager.cpp:28-90 | `read` leaves exactly 1024 slots. |
| RegionFormat.ReadRegionAt | LegacyEditor/LCE/Region/RegionManager.cpp:49-87 | After `read`, each slot has its header. A present slot before the throw also has its record's size, RLE flag, last decompressed size and a copy of its payload. |
| RegionFormat.ReadStep | LegacyEditor/LCE/Region/RegionManager.cpp:50-86 | For a slot that `read` reaches, the slot is outside the file exactly when it is the first such slot. Otherwise a present slot's record lies inside the file and is read into it. |
| RegionFormat.RecordsStopped | LegacyEditor/LCE/Region/RegionManager.cpp:53-56 | From the throwing slot on, slots keep only their headers. |
| RegionFormat.ReadRegionWhole | LegacyEditor/LCE/Region/RegionManager.cpp:49-87 | When no slot is outside the file, every record is read. |
| RegionFormat.TotalSectorsOfWhole | LegacyEditor/LCE/Region/RegionManager.cpp:29 | A file of whole sectors spans exactly those sectors. |
| RegionFormat.WriteSlotsFit | LegacyEditor/LCE/Region/RegionManager.cpp:102-163 | Whatever sector counts the slots were read with, `write`'s layout of storable compressed slots is laid out, with every record after the tables, inside the allocated buffer and apart from every other record. The region's size is that of the compressed slots. |
| RegionFormat.WrittenRegionThrows | LegacyEditor/LCE/Region/RegionManager.cpp:28-166 | For `write` as written: if some present slot's stored sector count reaches past the region's end, `write` stays inside its buffer but `read` throws on the image. |
| RegionFormat.WrittenRegionReadsBack | LegacyEditor/LCE/Region/RegionManager.cpp:28-166 | For `write` as written (compress each present slot, then `PlaceAsWritten`): if every compressed slot is storable and no present slot's stored sector count reaches past the region's end, reading the image does not overread and does not throw, and it restores every slot. |
| RegionFormat.WriteReadRoundTrip | LegacyEditor/LCE/Region/RegionManager.cpp:28-166 | Reading the image of a laid-out region of storable slots, none of whose stored sector counts reaches past the region's end, does not overread and does not throw. It restores every slot's sector count, location and timestamp, and each present slot's size, RLE flag, decompressed size and payload. |
| RegionFormat.OneChunkAsWritten | LegacyEditor/LCE/Region/RegionManager.cpp:102-112 | As written, a chunk read with 5 sectors whose payload is now 100 bytes keeps its 5 at sector 2, in a 4-sector image. |
| RegionFormat.ThrowsAtFirst | LegacyEditor/LCE/Region/RegionManager.cpp:53-56 | A 4-sector file whose first slot claims 5 sectors from sector 2 throws at that slot. |
| RegionFormat.StaleSectorsThrow | LegacyEditor/LCE/Region/RegionManager.cpp:108-125 | As written, `read` throws on that image at slot 0. |
| RegionFormat.FreshSectorsRead | LegacyEditor/LCE/Region/RegionManager.cpp:102-125 | With the recomputed sector count stored, the same region reads back without throwing. |
| Region.ChunkIndexBijective | LegacyEditor/LCE/Region/RegionManager.cpp:4-8 | `x + 32 z` maps the 32 by 32 coordinates one to one onto the 1024 slots. |
| Region.GuardAdmitsOutside | LegacyEditor/LCE/Region/RegionManager.cpp:6 | The check `index > CHUNK_COUNT` lets through 1024, -1 and `(0, 32)`, all outside the table. |
| Region.FirstNonEmpty | LegacyEditor/LCE/Region/RegionManager.cpp:17-24 | Returns the first slot with a non-zero size, or 1024. Every slot before it is empty. |
| Region.RegionManager.constructor | LegacyEditor/LCE/Region/RegionManager.hpp:24-29 | A new region has 1024 distinct, fresh, empty slots. |
| Region.RegionManager.GetChunk | LegacyEditor/LCE/Region/RegionManager.cpp:4-8 | Returns the slot at `x + 32 z`, null exactly outside the table, and never null inside the 32 by 32 grid. |
| Region.RegionManager.GetChunkAt | LegacyEditor/LCE/Region/RegionManager.cpp:11-14 | Returns slot `index`, null exactly outside `[0, 1024)`. |
| Region.RegionManager.GetNonEmptyChunk | LegacyEditor/LCE/Region/RegionManager.cpp:17-24 | Returns null exactly when every slot's size is 0. Otherwise it returns the lowest slot with a non-zero size. |
| Region.RegionManager.Read | LegacyEditor/LCE/Region/RegionManager.cpp:28-90 | `totalSectors` is the file's size in sectors. The call throws exactly when some present slot reaches past the file. The slots become `ReadRegion` of the old slots. |
| Region.RegionManager.ReadLocations | LegacyEditor/LCE/Region/RegionManager.cpp:36-40 | The first loop sets every slot's sector count and location from its word. |
| Region.RegionManager.LocationStep | LegacyEditor/LCE/Region/RegionManager.cpp:37-39 | One slot gets its word's fields, and no other slot changes. |
| Region.RegionManager.ReadTimestamps | LegacyEditor/LCE/Region/RegionManager.cpp:44-46 | The second loop sets every slot's timestamp. |
| Region.RegionManager.TimestampStep | LegacyEditor/LCE/Region/RegionManager.cpp:45 | One slot gets its timestamp, and no other slot changes. |
| Region.RegionManager.RecordStep | LegacyEditor/LCE/Region/RegionManager.cpp:50-86 | One slot of the record loop: it throws exactly at the first slot outside the file. Otherwise the slot becomes what `ReadRegion` says, and no other slot changes. |
| Region.RegionManager.RecordsStoppedAt | LegacyEditor/LCE/Region/RegionManager.cpp:53-56 | When the record loop throws, the slots already are `ReadRegion`. |
| Region.RegionManager.ReadRecords | LegacyEditor/LCE/Region/RegionManager.cpp:49-87 | The record loop throws exactly when some present slot reaches past the file, and leaves the slots as `ReadRegion` says. |
| Region.ReadRecord | LegacyEditor/LCE/Region/RegionManager.cpp:51-85 | An absent slot is skipped. A slot reaching past `totalSectors` throws. Otherwise the length word, decompressed size (the second word on PS3 and RPCS3) and payload are read into the slot. |
| Region.RegionManager.Write | LegacyEditor/LCE/Region/RegionManager.cpp:98-166 | The slots become `WriteSlots`: each present slot is compressed for `consoleIn` and placed, keeping its old sector count. The result is `Image` of them: byte order from `consoleIn`, number of decompressed-size words from the region's own console. |
| Region.RegionManager.Layout | LegacyEditor/LCE/Region/RegionManager.cpp:102-112 | The layout loop leaves the slots as `WriteSlots` and returns their total sector count. |
| Region.RegionManager.LayoutStep | LegacyEditor/LCE/Region/RegionManager.cpp:103-111 | One slot of the layout loop becomes slot `k` of `WriteSlots`: it keeps its sector count, while the running total advances by the recomputed one. No other slot changes. |
| Region.Serialize | LegacyEditor/LCE/Region/RegionManager.cpp:115-163 | A zeroed buffer of the region's sectors, after the three write loops, is `Image`. |
| Region.WriteHeaders | LegacyEditor/LCE/Region/RegionManager.cpp:124-127 | The buffer after the location loop is the location-table writes applied in slot order. |
| Region.WriteTimestamps | LegacyEditor/LCE/Region/RegionManager.cpp:130-132 | The buffer after the timestamp loop is the timestamp writes applied in slot order. |
| Region.WriteRecords | LegacyEditor/LCE/Region/RegionManager.cpp:136-163 | The buffer after the record loop is the record writes applied in slot order. |
| Region.WriteRecord | LegacyEditor/LCE/Region/RegionManager.cpp:137-162 | One slot's record goes at its first sector: the length word, the decompressed size once or twice, then the payload. An absent slot writes nothing. |

## Left out

- The platform codecs (`XDecompress`, `tinf_uncompress`, `tinf_zlib_uncompress`, zlib `compress`) and the structural decoders `ChunkV10`, `ChunkV11` and `ChunkV12` are function-valued parameters. Their code is not part of this model.
- `LegacyEditor/LCE/Region/ChunkManager.hpp`, `LegacyEditor/LCE/Chunk/chunkData.hpp`, the `DataManager` cursor (`processor.hpp`), `v10.hpp` to `v13.hpp` and the NBT tree are not part of this model. The cursor is reduced to 32-bit word encoding with a byte-order flag, plus seeks.
- Allocation, release and leaks (`allocate`, `deallocate`, the leaked `comp_ptr` on Xbox 360 and PS3) are not modelled. A payload is an owned `seq<u8>` value. A freshly allocated buffer is modelled as zero-filled, where C++ leaves `new u8[]` uninitialised.
- The status codes of `compress` and of the `tinf` functions, and the `printf` messages, are ignored, as the source ignores them.
- Overreads and overruns are preconditions:
  - `Rle.Decompress` requires well-formed input whose decoding fits the output;
  - `Rle.Compress` requires the encoding to fit the output;
  - `Chunk.ChunkManager.EnsureDecompress` requires `Pipeline.DecompressDefined`;
  - `Region.RegionManager.Read` requires `RegionFormat.ReadDefined`: the tables and every reached record lie inside the file;
  - `Region.RegionManager.Write` requires `RegionFormat.WriteDefined`: every record fits the allocated buffer;
  - `Chunk.ChunkManager.ReadChunk` requires a payload of at least 2 bytes, the tag `readInt16` reads.
- Pipeline.Compress: uses an RLE scratch buffer of twice the payload, the corrected buffer of the first finding. The source allocates as many bytes as the payload and overruns it when the encoding is longer. The model does not capture that overrun. Where the encoding fits, only the unused tail of the buffer differs.
- Pipeline.RleStage: uses the same buffer of twice the payload, for the same reason.
- Chunk.ChunkManager.EnsureCompressed: passes `Chunk.RleShrink` a buffer of twice the payload, for the same reason.
- Chunk.ChunkManager.constructor: sets the compressed flag, since a slot read from a file holds compressed bytes. The flag's real default lives in `ChunkManager.hpp`, which is not part of this model.
- Chunk.ChunkManager.WriteChunk: does not model the fixed output buffer of `CHUNK_BUFFER_SIZE` bytes. The encoder's output is bounded only by 2^32, so an overrun of that buffer is not captured.
- Versions.ReadChunkData: the structural decoders are given the record body and the bytes after the tag, not `lastVersion`. `ChunkV11` in the source can see the version it was dispatched for (8, 9 or 11).
- RegionManager.cpp uses `chunk.rleFlag`, `chunk.dec_size` and `chunk.ensure_compressed`, while ChunkManager.cpp uses `fileData`'s RLE flag, its decompressed size and `ensureCompressed`. The model takes each pair to be the same field or method of `Chunk.ChunkManager`.
- `read`'s `throw` is the returned flag `threw`, and `writeChunk`'s `exit(-1)` is the returned flag `exited`. The process itself is not modelled.
- `read(File*)` only forwards to `read(Data*)` and is not modelled separately. The unused counter `count` in `read` is left out.
- The constructor in `RegionManager.hpp` (lines 24-29) is syntactically incomplete. `Region.RegionManager.constructor` models the evident intent: 1024 empty slots for a console.
- Region.WriteRecord: writes the length and decompressed-size words as one cursor write and the payload as a second. The source makes up to four consecutive writes. `Writes.PutConcat` proves that consecutive writes put the same bytes as one.
- Region.RegionManager.Write: the table and record loops read the slots through a snapshot taken after the layout loop (`Region.Serialize` takes the slots as a value). Those loops do not change the slots, so nothing is lost.
- Pipeline.ZlibRoundTrip: stated only for Switch, PS4, Wii U and Vita. RPCS3 compresses with zlib but decompresses with `tinf_uncompress`, and the Xbox 360 and PS3 recompression calls are commented out in the source, so no round trip holds for those consoles.
- Pipeline.ZlibRoundTrip: with the RLE flag it also requires the encoding is no longer than the payload, because the inflate buffer has only `decSize` bytes.
- The ghost map `Region.RegionManager.indexOf` is a proof device: it makes the 1024 slot objects provably distinct. The source gets this from an array of values.

## Findings

| source | as written | input that shows it | evidently intended | confidence | as-written member | corrected member |
|---|---|---|---|---|---|---|
| LegacyEditor/LCE/Region/ChunkManager.cpp:173 | The RLE scratch buffer has as many bytes as the payload. | The payload `[255]` encodes to `[255, 0]`, two bytes into a one-byte buffer. | A buffer that holds the worst-case encoding, twice the payload. | not executed | Pipeline.ScratchAsWrittenOverflows | Pipeline.CompressOutcome |
| LegacyEditor/LCE/Region/RegionManager.cpp:108 | `write` computes the new sector count into a local and never stores it. The location word carries the sector count the chunk was read with. | A chunk read with 5 sectors whose compressed payload is now 100 bytes is placed at sector 2 in a 4-sector image, yet its word says 5 sectors, so `read` throws on that image. | Store the recomputed count in the slot, so that the image reads back. | not executed | RegionFormat.StaleSectorsThrow | RegionFormat.FreshSectorsRead |
| LegacyEditor/LCE/Region/RegionManager.cpp:6 | `getChunk` returns null only for `index > 1024`. | Index 1024 (coordinates `(0, 32)`) and index -1 pass the check and address outside the array. | Null exactly outside `[0, 1024)`. | not executed | Region.GuardAdmitsOutside | Region.RegionManager.GetChunkAt |
