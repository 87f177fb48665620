/** The region container of `LCE/Region/RegionManager.cpp`: a table of 1024
    location words (sector 0), a table of 1024 timestamps (sector 1), and one
    record per present chunk at a sector boundary, holding a length word, one
    or two decompressed-size words and the chunk's bytes. This module states
    the layout `write` produces, the image it writes and what `read` recovers
    from an image; the classes in modules Chunk and Region are proved to act
    as these functions say. */
module RegionFormat {
  import opened Bytes
  import opened Codecs
  import opened Pipeline
  import opened Writes

  const CHUNK_COUNT: nat := 1024
  const REGION_WIDTH: nat := 32
  const SECTOR_SIZE: nat := 4096
  /** Sectors 0 and 1 hold the two tables; records start after them. */
  const FIRST_DATA_SECTOR: nat := 2

  /** What the container stores about one chunk slot: its sector count (0
      for an absent chunk), its first sector, its timestamp and its payload. */
  datatype Slot = Slot(sectors: u8, location: u32, timestamp: u32, payload: Payload)

  predicate Present(s: Slot) {
    s.sectors != 0
  }

  /** The Vita's container is little-endian, every other one big-endian. */
  predicate LittleEndian(console: Console) {
    console == VITA
  }

  /** PS3 and RPCS3 records carry the decompressed size twice. */
  predicate TwoDecWords(console: Console) {
    console == PS3 || console == RPCS3
  }

  function DecWords(two: bool): nat {
    if two then 2 else 1
  }

  // ---------------------------------------------------------------------
  // The location word: sector count in the low byte, first sector above.

  /** `x << 8` on a 32-bit value: the top byte is shifted out. */
  function Shl8(x: u32): u32 {
    (x % 0x100_0000) * 256
  }

  /** `sectors | location << 8`; the shifted value has a zero low byte, so
      the or is a sum. */
  function PackLocation(sectors: u8, location: u32): u32 {
    sectors as int + Shl8(location)
  }

  /** `val & 0xff` */
  function SectorsOf(w: u32): u8 {
    (w % 256) as u8
  }

  /** `val >> 8` */
  function LocationOf(w: u32): u32 {
    w / 256
  }

  /** A location word reads back as the sector count and location it was
      packed from exactly when the location fits in 24 bits. */
  lemma PackRoundTrip(sectors: u8, location: u32)
    ensures SectorsOf(PackLocation(sectors, location)) == sectors && LocationOf(PackLocation(sectors, location)) == location
        <==> location < 0x100_0000
  {
    var m := location % 0x100_0000;
    var w := PackLocation(sectors, location);
    assert w == m * 256 + sectors as int;
    assert w % 256 == sectors as int && w / 256 == m;
  }

  /** Every location word is the packing of its two fields. */
  lemma UnpackRoundTrip(w: u32)
    ensures PackLocation(SectorsOf(w), LocationOf(w)) == w
  {
    assert LocationOf(w) < 0x100_0000;
  }

  // ---------------------------------------------------------------------
  // The record's length word: the size, with the two top bits set (and the
  // size cut to 24 bits) when the RLE flag is set.

  function LengthWord(size: u32, rle: bool): u32 {
    if rle then size % 0x100_0000 + 0xC000_0000 else size
  }

  /** `size & 0x3FFFFFFF` */
  function LengthOf(w: u32): u32 {
    w % 0x4000_0000
  }

  /** `size >> 31` */
  function RleOf(w: u32): bool {
    w / 0x8000_0000 == 1
  }

  /** The length word reads back as the size and flag it was written from
      exactly when the size fits the word: 24 bits with the RLE flag, 30
      bits without. */
  lemma LengthRoundTrip(size: u32, rle: bool)
    ensures LengthOf(LengthWord(size, rle)) == size && RleOf(LengthWord(size, rle)) == rle
        <==> (if rle then size < 0x100_0000 else size < 0x4000_0000)
  {
    if rle {
      var m := size % 0x100_0000;
      assert LengthWord(size, rle) == m + 3 * 0x4000_0000;
      assert LengthOf(LengthWord(size, rle)) == m;
    }
  }

  // ---------------------------------------------------------------------
  // Layout.

  /** The sector count `write` computes for a payload: the sectors its bytes
      cover plus one, in 32-bit arithmetic, stored in a byte. */
  function SectorsFor(size: u32): u8 {
    ((((size as int + SECTOR_SIZE - 1) % U32_LIMIT) / SECTOR_SIZE + 1) % 256) as u8
  }

  /** Sizes whose sector count neither wraps in 32 bits nor overflows the
      byte (up to 254 sectors of payload). */
  predicate NoTruncation(size: u32) {
    size as int <= 254 * SECTOR_SIZE
  }

  /** Without truncation the sector count is the payload's sectors rounded
      up plus one, so it leaves a whole spare sector for the record's words. */
  lemma SectorsForRoom(size: u32)
    requires NoTruncation(size)
    ensures SectorsFor(size) as int == (size as int + SECTOR_SIZE - 1) / SECTOR_SIZE + 1
    ensures size as int + SECTOR_SIZE <= SectorsFor(size) as int * SECTOR_SIZE
  {
    var q := (size as int + SECTOR_SIZE - 1) / SECTOR_SIZE;
    assert q <= 254;
    assert size as int + SECTOR_SIZE - 1 < (q + 1) * SECTOR_SIZE;
  }

  /** A payload of 255 sectors or more wraps the byte: its sector count is 0
      and the next record is placed over it. */
  lemma SectorsForWraps()
    ensures SectorsFor(255 * SECTOR_SIZE as u32) == 0
  {
  }

  /** The first sector of the `n`-th slot's record: the two table sectors
      and the sector counts of the present slots before it. */
  function SectorsBefore(slots: seq<Slot>, n: nat): (r: nat)
    requires n <= |slots|
    ensures FIRST_DATA_SECTOR <= r <= FIRST_DATA_SECTOR + 255 * n
  {
    if n == 0 then FIRST_DATA_SECTOR
    else SectorsBefore(slots, n - 1) + (if Present(slots[n - 1]) then SectorsFor(slots[n - 1].payload.size) as nat else 0)
  }

  /** The region's size in sectors. */
  function Total(slots: seq<Slot>): nat {
    SectorsBefore(slots, |slots|)
  }

  lemma {:induction false} SectorsBeforeMono(slots: seq<Slot>, a: nat, b: nat)
    requires a <= b <= |slots|
    ensures SectorsBefore(slots, a) <= SectorsBefore(slots, b)
    decreases b - a
  {
    if a < b {
      SectorsBeforeMono(slots, a, b - 1);
    }
  }

  /** Two regions whose slots agree on presence and payload size lay out
      their records alike. */
  lemma {:induction false} SectorsBeforeSame(s: seq<Slot>, t: seq<Slot>, n: nat)
    requires n <= |s| == |t|
    requires forall i :: 0 <= i < |s| ==> Present(s[i]) == Present(t[i]) && s[i].payload.size == t[i].payload.size
    ensures SectorsBefore(s, n) == SectorsBefore(t, n)
  {
    if n > 0 {
      SectorsBeforeSame(s, t, n - 1);
    }
  }

  /** The slots as `write` evidently means to lay them out: each
      present slot gets its new sector count and the next free sector; an
      absent slot gets location 0. */
  function Place(slots: seq<Slot>): (r: seq<Slot>)
    requires |slots| <= CHUNK_COUNT
    ensures |r| == |slots|
    ensures forall i :: 0 <= i < |slots| ==>
      r[i].timestamp == slots[i].timestamp && r[i].payload == slots[i].payload
  {
    seq(|slots|, i requires 0 <= i < |slots| =>
      if Present(slots[i]) then
        slots[i].(sectors := SectorsFor(slots[i].payload.size), location := SectorsBefore(slots, i) as u32)
      else slots[i].(location := 0))
  }

  /** The slots as `write` lays them out: each present slot gets the next
      free sector, an absent one location 0, but the sector count read from
      the file is kept, although the running total advances by the new one. */
  function PlaceAsWritten(slots: seq<Slot>): (r: seq<Slot>)
    requires |slots| <= CHUNK_COUNT
    ensures |r| == |slots|
    ensures forall i :: 0 <= i < |slots| ==>
      r[i].sectors == slots[i].sectors && r[i].timestamp == slots[i].timestamp && r[i].payload == slots[i].payload
  {
    seq(|slots|, i requires 0 <= i < |slots| =>
      slots[i].(location := if Present(slots[i]) then SectorsBefore(slots, i) as u32 else 0))
  }

  /** A slot whose sector count is the one `write` computes for its payload. */
  predicate CountCurrent(s: Slot) {
    Present(s) ==> s.sectors == SectorsFor(s.payload.size)
  }

  /** The layout as written is the intended one exactly when every present
      slot's sector count is already current. */
  lemma AsWrittenPlaces(slots: seq<Slot>)
    requires |slots| <= CHUNK_COUNT
    ensures PlaceAsWritten(slots) == Place(slots) <==> forall i :: 0 <= i < |slots| ==> CountCurrent(slots[i])
  {
    if PlaceAsWritten(slots) == Place(slots) {
      forall i | 0 <= i < |slots|
        ensures CountCurrent(slots[i])
      {
        assert PlaceAsWritten(slots)[i].sectors == Place(slots)[i].sectors;
      }
    }
  }

  /** A laid-out region: absent slots at location 0, each present slot at
      the sector after the records before it, as `write` places them. */
  predicate LaidOut(slots: seq<Slot>) {
    forall i :: 0 <= i < |slots| ==>
      if Present(slots[i]) then slots[i].location as int == SectorsBefore(slots, i)
      else slots[i].location == 0
  }

  /** A laid-out region whose sector counts are also current. */
  predicate Placed(slots: seq<Slot>) {
    LaidOut(slots) && forall i :: 0 <= i < |slots| ==> CountCurrent(slots[i])
  }

  /** No present slot's stored sector count reaches past the region's end. */
  predicate WithinTotal(slots: seq<Slot>) {
    forall i :: 0 <= i < |slots| && Present(slots[i]) ==>
      slots[i].location as int + slots[i].sectors as int <= Total(slots)
  }

  /** `write`'s layout places every slot, whatever its stored sector count,
      and keeps which slots are present and the region's size. */
  lemma PlaceAsWrittenLaidOut(slots: seq<Slot>)
    requires |slots| <= CHUNK_COUNT
    ensures LaidOut(PlaceAsWritten(slots))
    ensures Total(PlaceAsWritten(slots)) == Total(slots)
  {
    var r := PlaceAsWritten(slots);
    forall i | 0 <= i <= |slots|
      ensures SectorsBefore(r, i) == SectorsBefore(slots, i)
    {
      SectorsBeforeSame(r, slots, i);
    }
  }

  /** In a placed region of storable slots every record's sectors end
      within the region. */
  lemma PlacedWithinTotal(slots: seq<Slot>)
    requires |slots| <= CHUNK_COUNT && Placed(slots)
    requires forall j :: 0 <= j < |slots| ==> Storable(slots[j])
    ensures WithinTotal(slots)
  {
    forall i | 0 <= i < |slots| && Present(slots[i])
      ensures slots[i].location as int + slots[i].sectors as int <= Total(slots)
    {
      SectorsBeforeMono(slots, i + 1, |slots|);
    }
  }

  /** `Place` lays a region out, provided no sector count truncates. */
  lemma PlacePlaced(slots: seq<Slot>)
    requires |slots| <= CHUNK_COUNT
    requires forall i :: 0 <= i < |slots| && Present(slots[i]) ==> NoTruncation(slots[i].payload.size)
    ensures Placed(Place(slots))
    ensures forall i :: 0 <= i < |slots| ==> Present(Place(slots)[i]) == Present(slots[i])
    ensures Total(Place(slots)) == Total(slots)
  {
    var r := Place(slots);
    forall i | 0 <= i < |slots|
      ensures Present(r[i]) == Present(slots[i])
    {
      if Present(slots[i]) {
        SectorsForRoom(slots[i].payload.size);
      }
    }
    forall i | 0 <= i < |slots|
      ensures if Present(r[i]) then
          r[i].location as int == SectorsBefore(r, i) && r[i].sectors == SectorsFor(r[i].payload.size)
        else r[i].location == 0
    {
      SectorsBeforeSame(r, slots, i);
    }
    SectorsBeforeSame(r, slots, |slots|);
  }

  /** Laying a region out moves no record boundary: a slot whose new
      sector count wraps to 0 counts for 0 sectors either way. */
  lemma {:induction false} PlaceSectorsBefore(slots: seq<Slot>, n: nat)
    requires n <= |slots| <= CHUNK_COUNT
    ensures SectorsBefore(Place(slots), n) == SectorsBefore(slots, n)
  {
    if n > 0 {
      PlaceSectorsBefore(slots, n - 1);
    }
  }

  /** The slots `write` stores: every present payload goes through
      `ensureCompressed` for the output console, then the region is laid out. */
  predicate CompressAllDefined(slots: seq<Slot>, console: Console) {
    forall i :: 0 <= i < |slots| && Present(slots[i]) ==> CompressDefined(slots[i].payload, console)
  }

  function CompressAll(slots: seq<Slot>, console: Console, c: Codecs): (r: seq<Slot>)
    requires CompressAllDefined(slots, console)
    ensures |r| == |slots|
    ensures forall i :: 0 <= i < |slots| ==>
      r[i] == if Present(slots[i]) then slots[i].(payload := Compress(slots[i].payload, console, c)) else slots[i]
  {
    seq(|slots|, i requires 0 <= i < |slots| =>
      if Present(slots[i]) then slots[i].(payload := Compress(slots[i].payload, console, c)) else slots[i])
  }

  function WriteSlots(slots: seq<Slot>, console: Console, c: Codecs): seq<Slot>
    requires |slots| <= CHUNK_COUNT && CompressAllDefined(slots, console)
  {
    PlaceAsWritten(CompressAll(slots, console, c))
  }

  // ---------------------------------------------------------------------
  // The written image.

  /** A record: the length word, the decompressed size once or twice, then
      the payload. */
  function RecordBytes(p: Payload, little: bool, two: bool): (r: seq<u8>)
    requires Readable(p)
    ensures |r| == 4 * (1 + DecWords(two)) + p.size as int
  {
    WordBytes(LengthWord(p.size, p.rle), little) + WordBytes(p.decSize, little)
      + (if two then WordBytes(p.decSize, little) else []) + Content(p)
  }

  function HeaderWrite(s: Slot, i: nat, little: bool): Write {
    Write(4 * i, WordBytes(PackLocation(s.sectors, s.location), little))
  }

  function TimestampWrite(s: Slot, i: nat, little: bool): Write {
    Write(SECTOR_SIZE + 4 * i, WordBytes(s.timestamp, little))
  }

  /** An absent slot writes nothing. */
  function RecordWrite(s: Slot, little: bool, two: bool): Write
    requires Present(s) ==> Readable(s.payload)
  {
    if Present(s) then Write(s.location as nat * SECTOR_SIZE, RecordBytes(s.payload, little, two))
    else Write(0, [])
  }

  function HeaderWrites(slots: seq<Slot>, little: bool): (ws: seq<Write>)
    ensures |ws| == |slots| && forall i :: 0 <= i < |slots| ==> ws[i] == HeaderWrite(slots[i], i, little)
    ensures WordTable(ws, 0)
  {
    seq(|slots|, i requires 0 <= i < |slots| => HeaderWrite(slots[i], i, little))
  }

  function TimestampWrites(slots: seq<Slot>, little: bool): (ws: seq<Write>)
    ensures |ws| == |slots| && forall i :: 0 <= i < |slots| ==> ws[i] == TimestampWrite(slots[i], i, little)
    ensures WordTable(ws, SECTOR_SIZE)
  {
    seq(|slots|, i requires 0 <= i < |slots| => TimestampWrite(slots[i], i, little))
  }

  predicate RecordsReadable(slots: seq<Slot>) {
    forall i :: 0 <= i < |slots| && Present(slots[i]) ==> Readable(slots[i].payload)
  }

  function RecordWrites(slots: seq<Slot>, little: bool, two: bool): (ws: seq<Write>)
    requires RecordsReadable(slots)
    ensures |ws| == |slots| && forall i :: 0 <= i < |slots| ==> ws[i] == RecordWrite(slots[i], little, two)
  {
    seq(|slots|, i requires 0 <= i < |slots| => RecordWrite(slots[i], little, two))
  }

  /** What `write` needs to stay inside the buffer it allocates: a full
      table of slots, each present payload inside its buffer, and each
      record ending within the region's sectors. */
  predicate WriteDefined(slots: seq<Slot>, little: bool, two: bool) {
    |slots| == CHUNK_COUNT && RecordsReadable(slots) &&
    forall i :: 0 <= i < |slots| && Present(slots[i]) ==>
      End(RecordWrite(slots[i], little, two)) <= Total(slots) * SECTOR_SIZE
  }

  lemma TableWritesFit(slots: seq<Slot>, little: bool, len: nat)
    requires |slots| <= CHUNK_COUNT && 2 * SECTOR_SIZE <= len
    ensures Fits(HeaderWrites(slots, little), len) && Fits(TimestampWrites(slots, little), len)
  {
  }

  lemma RecordWritesFit(slots: seq<Slot>, little: bool, two: bool)
    requires WriteDefined(slots, little, two)
    ensures Fits(RecordWrites(slots, little, two), Total(slots) * SECTOR_SIZE)
  {
  }

  /** The buffer of `len` bytes after the location table and the timestamp
      table are written. */
  function TablesImage(slots: seq<Slot>, little: bool, len: nat): (r: seq<u8>)
    requires |slots| <= CHUNK_COUNT && 2 * SECTOR_SIZE <= len
    ensures |r| == len
  {
    TableWritesFit(slots, little, len);
    Apply(Apply(Zeros(len), HeaderWrites(slots, little)), TimestampWrites(slots, little))
  }

  /** The bytes `write` returns: a zeroed buffer of the region's sectors
      after the two tables and then the records are written, in slot order. */
  function Image(slots: seq<Slot>, little: bool, two: bool): (r: seq<u8>)
    requires WriteDefined(slots, little, two)
    ensures |r| == Total(slots) * SECTOR_SIZE
  {
    RecordWritesFit(slots, little, two);
    Apply(TablesImage(slots, little, Total(slots) * SECTOR_SIZE), RecordWrites(slots, little, two))
  }

  // ---------------------------------------------------------------------
  // Reading an image.

  /** The sectors `read` takes the file to span: its size rounded up, in
      32-bit arithmetic. */
  function TotalSectorsOf(len: nat): nat
    requires len < U32_LIMIT
  {
    ((len + SECTOR_SIZE - 1) % U32_LIMIT) / SECTOR_SIZE
  }

  function WordAt(bytes: seq<u8>, off: nat, little: bool): u32
    requires off + 4 <= |bytes|
  {
    ReadWord(bytes[off..off + 4], little)
  }

  /** The file holds both tables (and a 32-bit size). */
  predicate HasTables(bytes: seq<u8>) {
    2 * SECTOR_SIZE <= |bytes| < U32_LIMIT
  }

  function HeaderWord(bytes: seq<u8>, i: nat, little: bool): u32
    requires HasTables(bytes) && i < CHUNK_COUNT
  {
    WordAt(bytes, 4 * i, little)
  }

  /** A present slot whose sectors reach past the end of the file. */
  predicate OutsideFile(bytes: seq<u8>, i: nat, little: bool)
    requires HasTables(bytes) && i < CHUNK_COUNT
  {
    var w := HeaderWord(bytes, i, little);
    SectorsOf(w) != 0 && LocationOf(w) as int + SectorsOf(w) as int > TotalSectorsOf(|bytes|)
  }

  /** The first slot from `from` on whose sectors reach past the end of the
      file, where `read` throws; `CHUNK_COUNT` if there is none. */
  function FirstOutside(bytes: seq<u8>, little: bool, from: nat): (k: nat)
    requires HasTables(bytes) && from <= CHUNK_COUNT
    ensures from <= k <= CHUNK_COUNT
    ensures forall j :: from <= j < k ==> !OutsideFile(bytes, j, little)
    ensures k < CHUNK_COUNT ==> OutsideFile(bytes, k, little)
    decreases CHUNK_COUNT - from
  {
    if from == CHUNK_COUNT || OutsideFile(bytes, from, little) then from
    else FirstOutside(bytes, little, from + 1)
  }

  function RecordOffset(bytes: seq<u8>, i: nat, little: bool): nat
    requires HasTables(bytes) && i < CHUNK_COUNT
  {
    LocationOf(HeaderWord(bytes, i, little)) as nat * SECTOR_SIZE
  }

  /** A record's words and the payload its length word announces lie
      inside the file. */
  predicate RecordFits(bytes: seq<u8>, off: nat, little: bool, two: bool) {
    var start := off + 4 * (1 + DecWords(two));
    start <= |bytes| && start + LengthOf(WordAt(bytes, off, little)) as int <= |bytes|
  }

  /** Slot `i`'s record lies inside the file. */
  predicate RecordInBounds(bytes: seq<u8>, i: nat, little: bool, two: bool)
    requires HasTables(bytes) && i < CHUNK_COUNT
  {
    RecordFits(bytes, RecordOffset(bytes, i, little), little, two)
  }

  /** What `read` needs not to read past the file: both tables, and every
      record it reaches before throwing inside the file. */
  predicate ReadDefined(bytes: seq<u8>, little: bool, two: bool) {
    HasTables(bytes) &&
    forall i :: 0 <= i < FirstOutside(bytes, little, 0) && SectorsOf(HeaderWord(bytes, i, little)) != 0 ==>
      RecordInBounds(bytes, i, little, two)
  }

  /** Slot `i` after `read`'s two table loops: the location table gives its
      sector count and first sector, the timestamp table its timestamp. */
  function Header(prev: Slot, bytes: seq<u8>, i: nat, little: bool): Slot
    requires HasTables(bytes) && i < CHUNK_COUNT
  {
    var w := HeaderWord(bytes, i, little);
    prev.(sectors := SectorsOf(w), location := LocationOf(w), timestamp := WordAt(bytes, SECTOR_SIZE + 4 * i, little))
  }

  /** A payload after its record at `off` is read: the length word gives
      the size and RLE flag, the last decompressed-size word gives
      `decSize`, and a fresh buffer holds a copy of the payload. The
      compressed flag is left as it was. */
  function RecordAt(p: Payload, bytes: seq<u8>, off: nat, little: bool, two: bool): Payload
    requires RecordFits(bytes, off, little, two)
  {
    var lw := WordAt(bytes, off, little);
    var start := off + 4 * (1 + DecWords(two));
    p.(data := Some(bytes[start..start + LengthOf(lw) as int]), size := LengthOf(lw),
       rle := RleOf(lw), decSize := WordAt(bytes, start - 4, little))
  }

  /** Slot `i` after `read`: its header, and, if its record is reached and
      it is present, the payload read from its record. */
  function ReadSlot(prev: Slot, bytes: seq<u8>, i: nat, little: bool, two: bool, withRecord: bool): Slot
    requires HasTables(bytes) && i < CHUNK_COUNT
    requires withRecord && SectorsOf(HeaderWord(bytes, i, little)) != 0 ==> RecordInBounds(bytes, i, little, two)
  {
    var s := Header(prev, bytes, i, little);
    if withRecord && Present(s) then
      s.(payload := RecordAt(s.payload, bytes, RecordOffset(bytes, i, little), little, two))
    else s
  }

  /** The slots after `read`: records are read up to the first slot outside
      the file, where `read` throws. */
  function ReadRegion(prevs: seq<Slot>, bytes: seq<u8>, little: bool, two: bool): (r: seq<Slot>)
    requires |prevs| == CHUNK_COUNT && ReadDefined(bytes, little, two)
    ensures |r| == CHUNK_COUNT
  {
    seq(CHUNK_COUNT, i requires 0 <= i < CHUNK_COUNT =>
      ReadSlot(prevs[i], bytes, i, little, two, i < FirstOutside(bytes, little, 0)))
  }

  /** Slot `i` of `ReadRegion`: its header, with the record read when it is
      present and before the first slot outside the file. */
  lemma ReadRegionAt(prevs: seq<Slot>, bytes: seq<u8>, little: bool, two: bool, i: nat)
    requires |prevs| == CHUNK_COUNT && ReadDefined(bytes, little, two) && i < CHUNK_COUNT
    ensures var h := Header(prevs[i], bytes, i, little);
      (i < FirstOutside(bytes, little, 0) && Present(h) ==> RecordFits(bytes, h.location as nat * SECTOR_SIZE, little, two)) &&
      ReadRegion(prevs, bytes, little, two)[i] ==
        if i < FirstOutside(bytes, little, 0) && Present(h)
        then h.(payload := RecordAt(h.payload, bytes, h.location as nat * SECTOR_SIZE, little, two))
        else h
  {
  }

  /** One step of `read`'s record loop at a slot `k` it reaches: the slot is
      outside the file exactly when `k` is the first such slot; otherwise a
      present slot's record lies inside the file and is read into it, and an
      absent slot keeps its header. */
  lemma ReadStep(prevs: seq<Slot>, bytes: seq<u8>, little: bool, two: bool, k: nat)
    requires |prevs| == CHUNK_COUNT && ReadDefined(bytes, little, two)
    requires k < CHUNK_COUNT && k <= FirstOutside(bytes, little, 0)
    ensures var h := Header(prevs[k], bytes, k, little);
      var outside := Present(h) && h.location as int + h.sectors as int > TotalSectorsOf(|bytes|);
      (outside <==> k == FirstOutside(bytes, little, 0)) &&
      (!outside && Present(h) ==>
        RecordFits(bytes, h.location as nat * SECTOR_SIZE, little, two) &&
        ReadRegion(prevs, bytes, little, two)[k] == h.(payload := RecordAt(h.payload, bytes, h.location as nat * SECTOR_SIZE, little, two))) &&
      (!Present(h) ==> ReadRegion(prevs, bytes, little, two)[k] == h)
  {
    ReadRegionAt(prevs, bytes, little, two, k);
    var h := Header(prevs[k], bytes, k, little);
    assert OutsideFile(bytes, k, little) <==>
      Present(h) && h.location as int + h.sectors as int > TotalSectorsOf(|bytes|);
  }

  /** From the first slot outside the file on, `ReadRegion` holds headers
      only. */
  lemma RecordsStopped(prevs: seq<Slot>, bytes: seq<u8>, little: bool, two: bool, k: nat)
    requires |prevs| == CHUNK_COUNT && ReadDefined(bytes, little, two)
    requires k == FirstOutside(bytes, little, 0)
    ensures forall i :: k <= i < CHUNK_COUNT ==>
      ReadRegion(prevs, bytes, little, two)[i] == Header(prevs[i], bytes, i, little)
  {
    forall i | k <= i < CHUNK_COUNT
      ensures ReadRegion(prevs, bytes, little, two)[i] == Header(prevs[i], bytes, i, little)
    {
      ReadRegionAt(prevs, bytes, little, two, i);
    }
  }

  // ---------------------------------------------------------------------
  // Write, then read.

  /** A slot `write` can store so that `read` gets it back: a present
      payload lies inside its buffer, its sector count does not truncate, and
      its size fits the length word. */
  predicate Storable(s: Slot) {
    Present(s) ==>
      Readable(s.payload) && NoTruncation(s.payload.size) &&
      (if s.payload.rle then s.payload.size < 0x100_0000 else s.payload.size < 0x4000_0000)
  }

  /** Slot `s` as `read` leaves it after `write` stored it over `prev`: the
      header fields of `s`, and for a present slot its size, flags and
      payload in a buffer of exactly that size. */
  function Restored(prev: Slot, s: Slot): Slot
    requires Present(s) ==> Readable(s.payload)
  {
    var h := prev.(sectors := s.sectors, location := s.location, timestamp := s.timestamp);
    if Present(s) then
      h.(payload := h.payload.(data := Some(Content(s.payload)), size := s.payload.size,
                               rle := s.payload.rle, decSize := s.payload.decSize))
    else h
  }

  /** In a laid-out region of storable slots each record ends before the
      next present slot's record starts, and within the region. */
  lemma RecordEnds(slots: seq<Slot>, i: nat, little: bool, two: bool)
    requires |slots| == CHUNK_COUNT && LaidOut(slots)
    requires i < |slots| && Present(slots[i]) && Storable(slots[i])
    ensures End(RecordWrite(slots[i], little, two)) + SECTOR_SIZE - 4 * (1 + DecWords(two))
        <= SectorsBefore(slots, i + 1) * SECTOR_SIZE
  {
    SectorsForRoom(slots[i].payload.size);
  }

  lemma WriteDefinedWhenStorable(slots: seq<Slot>, little: bool, two: bool)
    requires |slots| == CHUNK_COUNT && LaidOut(slots)
    requires forall j :: 0 <= j < |slots| ==> Storable(slots[j])
    ensures WriteDefined(slots, little, two)
  {
    forall i | 0 <= i < |slots| && Present(slots[i])
      ensures End(RecordWrite(slots[i], little, two)) <= Total(slots) * SECTOR_SIZE
    {
      RecordEnds(slots, i, little, two);
      SectorsBeforeMono(slots, i + 1, |slots|);
    }
  }

  /** No record after slot `i`'s touches it. */
  lemma RecordsApart(slots: seq<Slot>, i: nat, little: bool, two: bool)
    requires |slots| == CHUNK_COUNT && LaidOut(slots)
    requires forall j :: 0 <= j < |slots| ==> Storable(slots[j])
    requires i < |slots| && Present(slots[i])
    ensures RecordsReadable(slots)
    ensures var rs := RecordWrites(slots, little, two);
      forall j :: i < j < |rs| ==> Disjoint(rs[j], rs[i])
  {
    var rs := RecordWrites(slots, little, two);
    forall j | i < j < |rs|
      ensures Disjoint(rs[j], rs[i])
    {
      if Present(slots[j]) {
        RecordEnds(slots, i, little, two);
        SectorsBeforeMono(slots, i + 1, j);
      }
    }
  }

  /** Every location fits the location word's 24 bits, and every present
      slot's record lies after the two tables. */
  predicate TablesApart(slots: seq<Slot>) {
    forall i :: 0 <= i < |slots| ==>
      slots[i].location < 0x100_0000 && (Present(slots[i]) ==> slots[i].location as int >= FIRST_DATA_SECTOR)
  }

  lemma PlacedTablesApart(slots: seq<Slot>)
    requires |slots| <= CHUNK_COUNT && LaidOut(slots)
    ensures TablesApart(slots)
  {
  }

  lemma SubSlice(b: seq<u8>, r: seq<u8>, a: nat, x: nat, y: nat)
    requires a + |r| <= |b| && b[a..a + |r|] == r && x <= y <= |r|
    ensures b[a + x..a + y] == r[x..y]
  {
    forall m | 0 <= m < y - x
      ensures b[a + x..a + y][m] == r[x..y][m]
    {
      assert b[a + x + m] == b[a..a + |r|][x + m];
    }
  }

  /** Each location word lies where the header loop put it. */
  lemma HeaderWritten(slots: seq<Slot>, i: nat, little: bool, len: nat)
    requires |slots| <= CHUNK_COUNT && 2 * SECTOR_SIZE <= len && i < |slots|
    ensures Fits(HeaderWrites(slots, little), len)
    ensures Apply(Zeros(len), HeaderWrites(slots, little))[4 * i..4 * i + 4]
      == WordBytes(PackLocation(slots[i].sectors, slots[i].location), little)
  {
    WordTableReads(Zeros(len), HeaderWrites(slots, little), 0, i);
  }

  /** Each timestamp word lies where the timestamp loop put it. */
  lemma TimestampWritten(slots: seq<Slot>, h: seq<u8>, i: nat, little: bool)
    requires |slots| <= CHUNK_COUNT && 2 * SECTOR_SIZE <= |h| && i < |slots|
    ensures Fits(TimestampWrites(slots, little), |h|)
    ensures var t := Apply(h, TimestampWrites(slots, little));
      t[SECTOR_SIZE + 4 * i..SECTOR_SIZE + 4 * i + 4] == WordBytes(slots[i].timestamp, little)
  {
    WordTableReads(h, TimestampWrites(slots, little), SECTOR_SIZE, i);
  }

  /** The timestamp loop leaves the location table alone. */
  lemma HeaderKept(slots: seq<Slot>, h: seq<u8>, i: nat, little: bool)
    requires |slots| <= CHUNK_COUNT && 2 * SECTOR_SIZE <= |h| && i < |slots|
    ensures Fits(TimestampWrites(slots, little), |h|)
    ensures var t := Apply(h, TimestampWrites(slots, little));
      t[4 * i..4 * i + 4] == h[4 * i..4 * i + 4]
  {
    WordTableKeeps(h, TimestampWrites(slots, little), SECTOR_SIZE, 4 * i, 4 * i + 4);
  }

  /** Slot `i`'s two table entries after the table loops. */
  lemma TablesWritten(slots: seq<Slot>, i: nat, little: bool, len: nat)
    requires |slots| <= CHUNK_COUNT && 2 * SECTOR_SIZE <= len && i < |slots|
    ensures var t := TablesImage(slots, little, len);
      t[4 * i..4 * i + 4] == WordBytes(PackLocation(slots[i].sectors, slots[i].location), little) &&
      t[SECTOR_SIZE + 4 * i..SECTOR_SIZE + 4 * i + 4] == WordBytes(slots[i].timestamp, little)
  {
    HeaderWritten(slots, i, little, len);
    var h := Apply(Zeros(len), HeaderWrites(slots, little));
    HeaderKept(slots, h, i, little);
    TimestampWritten(slots, h, i, little);
  }

  /** The records all lie after the two tables, so the tables survive the
      record loop. */
  lemma TablesKept(slots: seq<Slot>, little: bool, two: bool)
    requires WriteDefined(slots, little, two) && TablesApart(slots)
    ensures var len := Total(slots) * SECTOR_SIZE;
      len >= 2 * SECTOR_SIZE &&
      Image(slots, little, two)[..2 * SECTOR_SIZE] == TablesImage(slots, little, len)[..2 * SECTOR_SIZE]
  {
    var len := Total(slots) * SECTOR_SIZE;
    RecordWritesFit(slots, little, two);
    var rs := RecordWrites(slots, little, two);
    forall k | 0 <= k < |rs|
      ensures rs[k].bytes == [] || 2 * SECTOR_SIZE <= rs[k].off
    {
    }
    ApplyKeepsPrefix(TablesImage(slots, little, len), rs, 2 * SECTOR_SIZE);
  }

  /** Slot `i`'s two table entries lie in the image as written. */
  lemma TablesInImage(slots: seq<Slot>, i: nat, little: bool, two: bool)
    requires WriteDefined(slots, little, two) && TablesApart(slots)
    requires i < CHUNK_COUNT
    ensures var img := Image(slots, little, two);
      HasTables(img) &&
      img[4 * i..4 * i + 4] == WordBytes(PackLocation(slots[i].sectors, slots[i].location), little) &&
      img[SECTOR_SIZE + 4 * i..SECTOR_SIZE + 4 * i + 4] == WordBytes(slots[i].timestamp, little)
  {
    var len := Total(slots) * SECTOR_SIZE;
    TablesKept(slots, little, two);
    TablesWritten(slots, i, little, len);
    var img, t := Image(slots, little, two), TablesImage(slots, little, len);
    SubSlice(img, t[..2 * SECTOR_SIZE], 0, 4 * i, 4 * i + 4);
    SubSlice(t, t[..2 * SECTOR_SIZE], 0, 4 * i, 4 * i + 4);
    SubSlice(img, t[..2 * SECTOR_SIZE], 0, SECTOR_SIZE + 4 * i, SECTOR_SIZE + 4 * i + 4);
    SubSlice(t, t[..2 * SECTOR_SIZE], 0, SECTOR_SIZE + 4 * i, SECTOR_SIZE + 4 * i + 4);
  }

  /** Table entries read back as the words they were written from. */
  lemma ParseTables(img: seq<u8>, s: Slot, i: nat, little: bool)
    requires HasTables(img) && i < CHUNK_COUNT && s.location < 0x100_0000
    requires img[4 * i..4 * i + 4] == WordBytes(PackLocation(s.sectors, s.location), little)
    requires img[SECTOR_SIZE + 4 * i..SECTOR_SIZE + 4 * i + 4] == WordBytes(s.timestamp, little)
    ensures SectorsOf(HeaderWord(img, i, little)) == s.sectors
    ensures LocationOf(HeaderWord(img, i, little)) == s.location
    ensures WordAt(img, SECTOR_SIZE + 4 * i, little) == s.timestamp
  {
    WordRoundTrip(PackLocation(s.sectors, s.location), little);
    WordRoundTrip(s.timestamp, little);
    PackRoundTrip(s.sectors, s.location);
  }

  /** Slot `i`'s table entries read back from the image. */
  lemma TablesReadBack(slots: seq<Slot>, i: nat, little: bool, two: bool)
    requires WriteDefined(slots, little, two) && TablesApart(slots)
    requires i < CHUNK_COUNT
    ensures var img := Image(slots, little, two);
      HasTables(img) &&
      SectorsOf(HeaderWord(img, i, little)) == slots[i].sectors &&
      LocationOf(HeaderWord(img, i, little)) == slots[i].location &&
      WordAt(img, SECTOR_SIZE + 4 * i, little) == slots[i].timestamp
  {
    TablesInImage(slots, i, little, two);
    ParseTables(Image(slots, little, two), slots[i], i, little);
  }

  /** A present slot's record lies in the image as `RecordBytes` says. */
  lemma RecordInImage(slots: seq<Slot>, i: nat, little: bool, two: bool)
    requires |slots| == CHUNK_COUNT && LaidOut(slots)
    requires forall j :: 0 <= j < |slots| ==> Storable(slots[j])
    requires i < CHUNK_COUNT && Present(slots[i])
    ensures WriteDefined(slots, little, two) && Readable(slots[i].payload)
    ensures var img := Image(slots, little, two);
      var off := slots[i].location as nat * SECTOR_SIZE;
      var r := RecordBytes(slots[i].payload, little, two);
      off + |r| <= |img| && img[off..off + |r|] == r
  {
    WriteDefinedWhenStorable(slots, little, two);
    RecordWritesFit(slots, little, two);
    var rs := RecordWrites(slots, little, two);
    RecordsApart(slots, i, little, two);
    ApplyReads(TablesImage(slots, little, Total(slots) * SECTOR_SIZE), rs, i);
  }

  /** A record's words and payload read back from wherever it lies. */
  lemma ParseRecord(img: seq<u8>, off: nat, p: Payload, little: bool, two: bool)
    requires Readable(p)
    requires off + |RecordBytes(p, little, two)| <= |img|
    requires img[off..off + |RecordBytes(p, little, two)|] == RecordBytes(p, little, two)
    ensures var start := off + 4 * (1 + DecWords(two));
      start + p.size as int <= |img| &&
      WordAt(img, off, little) == LengthWord(p.size, p.rle) &&
      WordAt(img, start - 4, little) == p.decSize &&
      img[start..start + p.size as int] == Content(p)
  {
    var r := RecordBytes(p, little, two);
    var n := 4 * (1 + DecWords(two));
    SubSlice(img, r, off, 0, 4);
    SubSlice(img, r, off, n - 4, n);
    SubSlice(img, r, off, n, |r|);
    assert r[..4] == WordBytes(LengthWord(p.size, p.rle), little);
    assert r[n - 4..n] == WordBytes(p.decSize, little);
    assert r[n..] == Content(p);
    WordRoundTrip(LengthWord(p.size, p.rle), little);
    WordRoundTrip(p.decSize, little);
  }

  /** A record found where a present slot's location says is read back as
      it was stored. */
  lemma ReadStoredRecord(img: seq<u8>, p: Payload, i: nat, little: bool, two: bool)
    requires HasTables(img) && i < CHUNK_COUNT && Readable(p)
    requires if p.rle then p.size < 0x100_0000 else p.size < 0x4000_0000
    requires var off := RecordOffset(img, i, little);
      var r := RecordBytes(p, little, two);
      off + |r| <= |img| && img[off..off + |r|] == r
    ensures RecordInBounds(img, i, little, two)
    ensures var off := RecordOffset(img, i, little);
      var lw := WordAt(img, off, little);
      var start := off + 4 * (1 + DecWords(two));
      LengthOf(lw) == p.size && RleOf(lw) == p.rle &&
      img[start..start + LengthOf(lw) as int] == Content(p) &&
      WordAt(img, start - 4, little) == p.decSize
  {
    var off := RecordOffset(img, i, little);
    ParseRecord(img, off, p, little, two);
    LengthRoundTrip(p.size, p.rle);
  }

  /** A present slot whose table entries and record are found where its
      location says is read back as it was stored. */
  lemma ReadPresentSlot(img: seq<u8>, prev: Slot, s: Slot, i: nat, little: bool, two: bool)
    requires HasTables(img) && i < CHUNK_COUNT && Present(s) && Storable(s)
    requires SectorsOf(HeaderWord(img, i, little)) == s.sectors && LocationOf(HeaderWord(img, i, little)) == s.location
    requires WordAt(img, SECTOR_SIZE + 4 * i, little) == s.timestamp
    requires var off := s.location as nat * SECTOR_SIZE;
      var r := RecordBytes(s.payload, little, two);
      off + |r| <= |img| && img[off..off + |r|] == r
    ensures RecordInBounds(img, i, little, two)
    ensures ReadSlot(prev, img, i, little, two, true) == Restored(prev, s)
  {
    var p := s.payload;
    var off := RecordOffset(img, i, little);
    assert off == s.location as nat * SECTOR_SIZE;
    ReadStoredRecord(img, p, i, little, two);
  }

  /** A slot whose table entries and record are found where its location
      says, inside the file, is read back as it was stored. */
  lemma ReadStoredSlot(img: seq<u8>, prev: Slot, s: Slot, i: nat, little: bool, two: bool)
    requires HasTables(img) && i < CHUNK_COUNT && Storable(s)
    requires SectorsOf(HeaderWord(img, i, little)) == s.sectors && LocationOf(HeaderWord(img, i, little)) == s.location
    requires WordAt(img, SECTOR_SIZE + 4 * i, little) == s.timestamp
    requires Present(s) ==> s.location as int + s.sectors as int <= TotalSectorsOf(|img|)
    requires Present(s) ==>
      var off := s.location as nat * SECTOR_SIZE;
      var r := RecordBytes(s.payload, little, two);
      off + |r| <= |img| && img[off..off + |r|] == r
    ensures !OutsideFile(img, i, little)
    ensures Present(s) ==> RecordInBounds(img, i, little, two)
    ensures ReadSlot(prev, img, i, little, two, true) == Restored(prev, s)
  {
    if Present(s) {
      ReadPresentSlot(img, prev, s, i, little, two);
    }
  }

  /** A file of whole sectors spans exactly those sectors. */
  lemma TotalSectorsOfWhole(n: nat)
    requires n <= FIRST_DATA_SECTOR + 255 * CHUNK_COUNT
    ensures n * SECTOR_SIZE < U32_LIMIT && TotalSectorsOf(n * SECTOR_SIZE) == n
  {
    assert (n * SECTOR_SIZE + SECTOR_SIZE - 1) / SECTOR_SIZE == n;
  }

  /** A present slot's record lies in the image and within the sectors the
      image spans. */
  lemma RecordWithinImage(slots: seq<Slot>, i: nat, little: bool, two: bool)
    requires |slots| == CHUNK_COUNT && LaidOut(slots) && WithinTotal(slots)
    requires forall j :: 0 <= j < |slots| ==> Storable(slots[j])
    requires i < CHUNK_COUNT && Present(slots[i])
    ensures WriteDefined(slots, little, two) && Readable(slots[i].payload)
    ensures var img := Image(slots, little, two);
      var s := slots[i];
      |img| < U32_LIMIT &&
      s.location as int + s.sectors as int <= TotalSectorsOf(|img|) &&
      var off := s.location as nat * SECTOR_SIZE;
      var r := RecordBytes(s.payload, little, two);
      off + |r| <= |img| && img[off..off + |r|] == r
  {
    RecordInImage(slots, i, little, two);
    TotalSectorsOfWhole(Total(slots));
  }

  /** Where slot `i`'s table entries and record lie in the image. */
  lemma StoredInImage(slots: seq<Slot>, i: nat, little: bool, two: bool)
    requires |slots| == CHUNK_COUNT && LaidOut(slots) && WithinTotal(slots)
    requires forall j :: 0 <= j < |slots| ==> Storable(slots[j])
    requires i < CHUNK_COUNT
    ensures WriteDefined(slots, little, two) && Storable(slots[i])
    ensures var img := Image(slots, little, two);
      var s := slots[i];
      HasTables(img) &&
      SectorsOf(HeaderWord(img, i, little)) == s.sectors && LocationOf(HeaderWord(img, i, little)) == s.location &&
      WordAt(img, SECTOR_SIZE + 4 * i, little) == s.timestamp &&
      (Present(s) ==> s.location as int + s.sectors as int <= TotalSectorsOf(|img|)) &&
      (Present(s) ==>
        var off := s.location as nat * SECTOR_SIZE;
        var r := RecordBytes(s.payload, little, two);
        off + |r| <= |img| && img[off..off + |r|] == r)
  {
    WriteDefinedWhenStorable(slots, little, two);
    PlacedTablesApart(slots);
    TablesReadBack(slots, i, little, two);
    if Present(slots[i]) {
      RecordWithinImage(slots, i, little, two);
    }
  }

  /** Slot `i` of the image is read back as it was stored. */
  lemma SlotReadsBack(slots: seq<Slot>, prev: Slot, i: nat, little: bool, two: bool)
    requires |slots| == CHUNK_COUNT && LaidOut(slots) && WithinTotal(slots)
    requires forall j :: 0 <= j < |slots| ==> Storable(slots[j])
    requires i < CHUNK_COUNT
    ensures WriteDefined(slots, little, two)
    ensures var img := Image(slots, little, two);
      HasTables(img) && !OutsideFile(img, i, little) &&
      (SectorsOf(HeaderWord(img, i, little)) != 0 ==> RecordInBounds(img, i, little, two)) &&
      ReadSlot(prev, img, i, little, two, true) == Restored(prev, slots[i])
  {
    StoredInImage(slots, i, little, two);
    ReadStoredSlot(Image(slots, little, two), prev, slots[i], i, little, two);
  }

  /** What `write` stores, `read` gets back: reading the image of a laid-out
      region of storable slots, with the same byte order and the same number
      of decompressed-size words, reaches every record without throwing and
      restores every slot's header fields and, for present slots, the size,
      RLE flag, decompressed size and payload bytes. */
  lemma WriteReadRoundTrip(slots: seq<Slot>, prevs: seq<Slot>, little: bool, two: bool)
    requires |slots| == CHUNK_COUNT && |prevs| == CHUNK_COUNT && LaidOut(slots) && WithinTotal(slots)
    requires forall i :: 0 <= i < |slots| ==> Storable(slots[i])
    ensures WriteDefined(slots, little, two)
    ensures ReadDefined(Image(slots, little, two), little, two)
    ensures FirstOutside(Image(slots, little, two), little, 0) == CHUNK_COUNT
    ensures forall i :: 0 <= i < CHUNK_COUNT ==>
      ReadRegion(prevs, Image(slots, little, two), little, two)[i] == Restored(prevs[i], slots[i])
  {
    WriteDefinedWhenStorable(slots, little, two);
    var img := Image(slots, little, two);
    forall i | 0 <= i < CHUNK_COUNT
      ensures HasTables(img) && !OutsideFile(img, i, little)
      ensures SectorsOf(HeaderWord(img, i, little)) != 0 ==> RecordInBounds(img, i, little, two)
      ensures ReadSlot(prevs[i], img, i, little, two, true) == Restored(prevs[i], slots[i])
    {
      SlotReadsBack(slots, prevs[i], i, little, two);
    }
    assert HasTables(img);
    assert FirstOutside(img, little, 0) == CHUNK_COUNT;
    ReadRegionWhole(prevs, img, little, two);
  }

  /** Whatever sector counts the slots carry, `write`'s layout of storable
      compressed slots places every record after the tables, inside the
      buffer `write` allocates, and apart from every other record. */
  lemma WriteSlotsFit(olds: seq<Slot>, console: Console, c: Codecs, little: bool, two: bool)
    requires |olds| == CHUNK_COUNT && CompressAllDefined(olds, console)
    requires forall i :: 0 <= i < CHUNK_COUNT ==> Storable(CompressAll(olds, console, c)[i])
    ensures var w := WriteSlots(olds, console, c);
      LaidOut(w) && TablesApart(w) && WriteDefined(w, little, two) &&
      Total(w) == Total(CompressAll(olds, console, c)) &&
      var rs := RecordWrites(w, little, two);
      forall i, j :: 0 <= i < j < CHUNK_COUNT && Present(w[i]) ==> Disjoint(rs[j], rs[i])
  {
    var w := WriteSlots(olds, console, c);
    PlaceAsWrittenLaidOut(CompressAll(olds, console, c));
    assert forall j :: 0 <= j < CHUNK_COUNT ==> Storable(w[j]);
    WriteDefinedWhenStorable(w, little, two);
    PlacedTablesApart(w);
    var rs := RecordWrites(w, little, two);
    forall i | 0 <= i < CHUNK_COUNT && Present(w[i])
      ensures forall j :: i < j < CHUNK_COUNT ==> Disjoint(rs[j], rs[i])
    {
      RecordsApart(w, i, little, two);
    }
  }

  /** The round trip of `write` as the source has it: if every slot that
      `write` compresses keeps a storable payload, and no present slot's
      stored (possibly stale) sector count reaches past the region's end,
      reading the image gives every slot back. */
  lemma WrittenRegionReadsBack(prevs: seq<Slot>, olds: seq<Slot>, console: Console, c: Codecs, little: bool, two: bool)
    requires |prevs| == CHUNK_COUNT && |olds| == CHUNK_COUNT && CompressAllDefined(olds, console)
    requires forall i :: 0 <= i < CHUNK_COUNT ==> Storable(CompressAll(olds, console, c)[i])
    requires WithinTotal(WriteSlots(olds, console, c))
    ensures var w := WriteSlots(olds, console, c);
      WriteDefined(w, little, two) &&
      ReadDefined(Image(w, little, two), little, two) &&
      FirstOutside(Image(w, little, two), little, 0) == CHUNK_COUNT &&
      forall i :: 0 <= i < CHUNK_COUNT ==> ReadRegion(prevs, Image(w, little, two), little, two)[i] == Restored(prevs[i], w[i])
  {
    var w := WriteSlots(olds, console, c);
    PlaceAsWrittenLaidOut(CompressAll(olds, console, c));
    assert forall i :: 0 <= i < CHUNK_COUNT ==> Storable(w[i]);
    WriteReadRoundTrip(w, prevs, little, two);
  }

  /** The other side of that boundary: if some present slot's stored
      sector count reaches past the region's end, `write` still stays
      inside its buffer, but `read` throws on the image it produced. */
  lemma WrittenRegionThrows(olds: seq<Slot>, console: Console, c: Codecs, little: bool, two: bool)
    requires |olds| == CHUNK_COUNT && CompressAllDefined(olds, console)
    requires forall i :: 0 <= i < CHUNK_COUNT ==> Storable(CompressAll(olds, console, c)[i])
    requires !WithinTotal(WriteSlots(olds, console, c))
    ensures var w := WriteSlots(olds, console, c);
      WriteDefined(w, little, two) &&
      FirstOutside(Image(w, little, two), little, 0) < CHUNK_COUNT
  {
    var w := WriteSlots(olds, console, c);
    PlaceAsWrittenLaidOut(CompressAll(olds, console, c));
    assert forall j :: 0 <= j < CHUNK_COUNT ==> Storable(w[j]);
    WriteDefinedWhenStorable(w, little, two);
    PlacedTablesApart(w);
    var i :| 0 <= i < |w| && Present(w[i]) && w[i].location as int + w[i].sectors as int > Total(w);
    TablesReadBack(w, i, little, two);
    TotalSectorsOfWhole(Total(w));
    assert OutsideFile(Image(w, little, two), i, little);
  }

  /** When no slot is outside the file, `read` reads every record. */
  lemma ReadRegionWhole(prevs: seq<Slot>, bytes: seq<u8>, little: bool, two: bool)
    requires |prevs| == CHUNK_COUNT && ReadDefined(bytes, little, two)
    requires FirstOutside(bytes, little, 0) == CHUNK_COUNT
    ensures forall i :: 0 <= i < CHUNK_COUNT ==>
      ReadRegion(prevs, bytes, little, two)[i] == ReadSlot(prevs[i], bytes, i, little, two, true)
  {
  }

  // ---------------------------------------------------------------------
  // `write` keeps the sector count a chunk was read with.

  /** A region whose only chunk, in slot 0, carried `stale` sectors when it
      was read and now holds payload `p`. */
  function OneChunk(stale: u8, p: Payload): (r: seq<Slot>)
    ensures |r| == CHUNK_COUNT
  {
    [Slot(stale, 0, 0, p)] + seq(CHUNK_COUNT - 1, _ => Slot(0, 0, 0, p))
  }

  lemma {:induction false} OneChunkTotal(stale: u8, p: Payload, n: nat)
    requires stale != 0 && 1 <= n <= CHUNK_COUNT
    ensures SectorsBefore(OneChunk(stale, p), n) == FIRST_DATA_SECTOR + SectorsFor(p.size) as int
  {
    if n > 1 {
      OneChunkTotal(stale, p, n - 1);
      assert !Present(OneChunk(stale, p)[n - 1]);
    }
  }

  /** The layout `write` gives that region as written: the chunk goes to
      sector 2 with its stale count, and the region is 4 sectors long. */
  lemma OneChunkAsWritten(p: Payload, little: bool, two: bool)
    requires Readable(p) && p.size == 100
    ensures var slots := PlaceAsWritten(OneChunk(5, p));
      slots[0] == Slot(5, 2, 0, p) && Total(slots) == 4 &&
      TablesApart(slots) && WriteDefined(slots, little, two)
  {
    var slots := PlaceAsWritten(OneChunk(5, p));
    assert SectorsFor(100) == 2;
    OneChunkTotal(5, p, CHUNK_COUNT);
    SectorsBeforeSame(slots, OneChunk(5, p), CHUNK_COUNT);
    assert slots[0] == Slot(5, 2, 0, p);
    assert forall i :: 1 <= i < CHUNK_COUNT ==> !Present(slots[i]) && slots[i].location == 0;
    assert End(RecordWrite(slots[0], little, two)) <= 4 * SECTOR_SIZE;
  }

  /** As written, `write` stores the sector count the chunk was read with. A
      chunk read with 5 sectors whose payload is now 100 bytes gets 2 new
      sectors, so the image is 4 sectors long, yet its location word says
      it runs from sector 2 for 5 sectors: `read` throws on the image that
      `write` produced. */
  lemma StaleSectorsThrow(p: Payload, little: bool, two: bool)
    requires Readable(p) && p.size == 100
    ensures var slots := PlaceAsWritten(OneChunk(5, p));
      WriteDefined(slots, little, two) &&
      FirstOutside(Image(slots, little, two), little, 0) == 0
  {
    var slots := PlaceAsWritten(OneChunk(5, p));
    OneChunkAsWritten(p, little, two);
    TablesReadBack(slots, 0, little, two);
    ThrowsAtFirst(Image(slots, little, two), little);
  }

  /** A four-sector file whose first slot claims five sectors from sector 2
      throws at that slot. */
  lemma ThrowsAtFirst(img: seq<u8>, little: bool)
    requires |img| == 4 * SECTOR_SIZE
    requires SectorsOf(HeaderWord(img, 0, little)) == 5 && LocationOf(HeaderWord(img, 0, little)) == 2
    ensures FirstOutside(img, little, 0) == 0
  {
    TotalSectorsOfWhole(4);
    assert OutsideFile(img, 0, little);
  }

  /** With the sector count `write` computes stored instead, the same region
      reads back whole. */
  lemma FreshSectorsRead(p: Payload, prevs: seq<Slot>, little: bool, two: bool)
    requires Readable(p) && p.size == 100 && |prevs| == CHUNK_COUNT
    ensures var slots := Place(OneChunk(5, p));
      WriteDefined(slots, little, two) &&
      FirstOutside(Image(slots, little, two), little, 0) == CHUNK_COUNT
  {
    var slots := Place(OneChunk(5, p));
    PlacePlaced(OneChunk(5, p));
    PlacedWithinTotal(slots);
    WriteReadRoundTrip(slots, prevs, little, two);
  }
}
