/** A region file in memory (`RegionManager` in
    `LCE/Region/RegionManager.cpp`): the console it belongs to, the sector
    count of the file last read, and 1024 chunk slots, looked up by index or
    by coordinates, read from a file image and written back to one. */
module Region {
  import opened Bytes
  import opened Codecs
  import opened Pipeline
  import opened Writes
  import opened RegionFormat
  import opened Chunk

  /** The slot index of chunk coordinates inside a region. */
  function ChunkIndex(x: int, z: int): int {
    x + z * REGION_WIDTH
  }

  /** Coordinates inside the region's 32 by 32 chunks name every slot once. */
  lemma ChunkIndexBijective(x: int, z: int, index: int)
    ensures 0 <= x < REGION_WIDTH && 0 <= z < REGION_WIDTH ==>
      0 <= ChunkIndex(x, z) < CHUNK_COUNT &&
      ChunkIndex(x, z) % REGION_WIDTH == x && ChunkIndex(x, z) / REGION_WIDTH == z
    ensures 0 <= index < CHUNK_COUNT ==>
      0 <= index % REGION_WIDTH < REGION_WIDTH && 0 <= index / REGION_WIDTH < REGION_WIDTH &&
      ChunkIndex(index % REGION_WIDTH, index / REGION_WIDTH) == index
  {
  }

  /** The bounds check `getChunk` performs as written: only indices above
      the slot count are turned away. */
  predicate GuardAsWritten(index: int) {
    !(index > CHUNK_COUNT)
  }

  /** The check lets through the index one past the last slot and every
      negative index, both outside the slot array. */
  lemma GuardAdmitsOutside()
    ensures GuardAsWritten(CHUNK_COUNT) && !(0 <= CHUNK_COUNT < CHUNK_COUNT)
    ensures GuardAsWritten(-1) && !(0 <= -1 < CHUNK_COUNT)
    ensures GuardAsWritten(ChunkIndex(0, REGION_WIDTH))
  {
  }

  /** The first slot from `from` on whose size is not zero, or
      `CHUNK_COUNT` when there is none. */
  function FirstNonEmpty(slots: seq<Slot>, from: nat): (k: nat)
    requires |slots| == CHUNK_COUNT && from <= CHUNK_COUNT
    ensures from <= k <= CHUNK_COUNT
    ensures forall j :: from <= j < k ==> slots[j].payload.size == 0
    ensures k < CHUNK_COUNT ==> slots[k].payload.size != 0
    decreases CHUNK_COUNT - from
  {
    if from == CHUNK_COUNT || slots[from].payload.size != 0 then from
    else FirstNonEmpty(slots, from + 1)
  }

  /** A slot after `read`'s first loop: the location word's sector count
      and first sector. */
  function Located(prev: Slot, bytes: seq<u8>, i: nat, little: bool): Slot
    requires HasTables(bytes) && i < CHUNK_COUNT
  {
    var w := HeaderWord(bytes, i, little);
    prev.(sectors := SectorsOf(w), location := LocationOf(w))
  }

  /** The slots after `read`'s first loop. */
  function LocatedAll(prevs: seq<Slot>, bytes: seq<u8>, little: bool): (r: seq<Slot>)
    requires |prevs| == CHUNK_COUNT && HasTables(bytes)
    ensures |r| == CHUNK_COUNT && forall i :: 0 <= i < CHUNK_COUNT ==> r[i] == Located(prevs[i], bytes, i, little)
  {
    seq(CHUNK_COUNT, i requires 0 <= i < CHUNK_COUNT => Located(prevs[i], bytes, i, little))
  }

  /** The slots after `read`'s second loop. */
  function Headers(prevs: seq<Slot>, bytes: seq<u8>, little: bool): (r: seq<Slot>)
    requires |prevs| == CHUNK_COUNT && HasTables(bytes)
    ensures |r| == CHUNK_COUNT && forall i :: 0 <= i < CHUNK_COUNT ==> r[i] == Header(prevs[i], bytes, i, little)
  {
    seq(CHUNK_COUNT, i requires 0 <= i < CHUNK_COUNT => Header(prevs[i], bytes, i, little))
  }

  class RegionManager {
    var chunks: array<ChunkManager>
    var console: Console
    /** The sector count of the file last read. */
    var totalSectors: u32
    /** Each slot's index in the table, which makes the slots distinct. */
    ghost var indexOf: map<ChunkManager, nat>

    /** A full table of distinct slots. */
    ghost predicate Valid()
      reads this`chunks, this`indexOf, chunks
    {
      chunks.Length == CHUNK_COUNT &&
      forall i :: 0 <= i < chunks.Length ==> chunks[i] in indexOf && indexOf[chunks[i]] == i
    }

    ghost function Repr(): set<ChunkManager>
      reads this`chunks, chunks
    {
      set i | 0 <= i < chunks.Length :: chunks[i]
    }

    /** The slots in table order. */
    function Slots(): (r: seq<Slot>)
      reads this`chunks, chunks, Repr()
      ensures |r| == chunks.Length && forall i :: 0 <= i < chunks.Length ==> r[i] == chunks[i].AsSlot()
    {
      var a := chunks;
      seq(a.Length, i requires 0 <= i < a.Length reads a, if 0 <= i < a.Length then {a[i]} else {} => a[i].AsSlot())
    }

    lemma SlotsAre(t: seq<Slot>)
      requires Valid() && |t| == CHUNK_COUNT
      requires forall i :: 0 <= i < CHUNK_COUNT ==> chunks[i].AsSlot() == t[i]
      ensures Slots() == t
    {
    }

    /** A region for `consoleIn` whose 1024 slots are all empty. */
    constructor(consoleIn: Console)
      ensures Valid() && fresh(chunks) && fresh(Repr())
      ensures console == consoleIn && totalSectors == 0
      ensures forall i :: 0 <= i < CHUNK_COUNT ==>
        chunks[i].AsSlot() == Slot(0, 0, 0, Payload(None, 0, true, false, 0)) && chunks[i].chunkData == EmptyChunkData()
    {
      var first := new ChunkManager();
      var a := new ChunkManager[CHUNK_COUNT](_ => first);
      ghost var m: map<ChunkManager, nat> := map[first := 0];
      var k := 1;
      while k < CHUNK_COUNT
        invariant 1 <= k <= CHUNK_COUNT && a[0] == first
        invariant forall i :: 0 <= i < k ==> fresh(a[i]) && a[i] in m && m[a[i]] == i
        invariant forall i :: 0 <= i < CHUNK_COUNT ==>
          a[i].AsSlot() == Slot(0, 0, 0, Payload(None, 0, true, false, 0)) && a[i].chunkData == EmptyChunkData()
      {
        var c := new ChunkManager();
        a[k] := c;
        m := m[c := k];
        k := k + 1;
      }
      chunks := a;
      indexOf := m;
      console := consoleIn;
      totalSectors := 0;
    }

    /** `getChunk(x, z)`, with the bounds check the slot array needs: the
        slot at `x + 32 z`, or null outside the table. */
    function GetChunk(x: int, z: int): (c: ChunkManager?)
      requires Valid()
      reads this`chunks, this`indexOf, chunks
      ensures c != null <==> 0 <= ChunkIndex(x, z) < CHUNK_COUNT
      ensures c != null ==> c == chunks[ChunkIndex(x, z)]
      ensures 0 <= x < REGION_WIDTH && 0 <= z < REGION_WIDTH ==> c != null
    {
      GetChunkAt(ChunkIndex(x, z))
    }

    /** `getChunk(index)`, with the bounds check the slot array needs. */
    function GetChunkAt(index: int): (c: ChunkManager?)
      requires Valid()
      reads this`chunks, this`indexOf, chunks
      ensures c != null <==> 0 <= index < CHUNK_COUNT
      ensures c != null ==> c == chunks[index]
    {
      if 0 <= index < CHUNK_COUNT then chunks[index] else null
    }

    /** `getNonEmptyChunk`: the first slot whose size is not zero, or null
        when every slot is empty. */
    method GetNonEmptyChunk() returns (c: ChunkManager?)
      requires Valid()
      ensures c == null <==> forall i :: 0 <= i < CHUNK_COUNT ==> chunks[i].size == 0
      ensures c != null ==> c == chunks[FirstNonEmpty(Slots(), 0)]
      ensures c != null ==> c.size != 0
    {
      ghost var slots := Slots();
      var k := 0;
      while k < CHUNK_COUNT
        invariant 0 <= k <= CHUNK_COUNT
        invariant FirstNonEmpty(slots, 0) == FirstNonEmpty(slots, k)
      {
        if chunks[k].size != 0 {
          return chunks[k];
        }
        k := k + 1;
      }
      return null;
    }

    /** `read`: the location table and then the timestamp table fill in
        every slot's header; then each present slot's record is read, in slot
        order, until a slot whose sectors reach past the end of the file,
        where `read` throws (`threw`) and the slots after it keep their
        headers only. The slots become what `ReadRegion` says; their
        compressed flags and decoded records stay as they were. */
    method Read(bytes: seq<u8>) returns (threw: bool)
      requires Valid() && ReadDefined(bytes, LittleEndian(console), TwoDecWords(console))
      modifies this`totalSectors, Repr()`sectors, Repr()`location, Repr()`timestamp,
        Repr()`data, Repr()`size, Repr()`rle, Repr()`decSize
      ensures totalSectors as nat == TotalSectorsOf(|bytes|)
      ensures threw <==> FirstOutside(bytes, LittleEndian(old(console)), 0) < CHUNK_COUNT
      ensures Slots() == ReadRegion(old(Slots()), bytes, LittleEndian(old(console)), TwoDecWords(old(console)))
    {
      var little, two := LittleEndian(console), TwoDecWords(console);
      ghost var prevs := Slots();
      totalSectors := TotalSectorsOf(|bytes|) as u32;
      ReadLocations(bytes, little, prevs);
      ReadTimestamps(bytes, little, prevs);
      threw := ReadRecords(bytes, little, two, prevs);
    }

    /** `read`'s first loop: the location table. */
    method ReadLocations(bytes: seq<u8>, little: bool, ghost prevs: seq<Slot>)
      requires Valid() && HasTables(bytes) && prevs == Slots()
      modifies Repr()`sectors, Repr()`location
      ensures Slots() == LocatedAll(prevs, bytes, little)
    {
      ghost var after := LocatedAll(prevs, bytes, little);
      var k := 0;
      while k < CHUNK_COUNT
        invariant 0 <= k <= CHUNK_COUNT
        invariant forall i :: 0 <= i < CHUNK_COUNT ==> chunks[i].AsSlot() == if i < k then after[i] else prevs[i]
      {
        LocationStep(k, bytes, little);
        k := k + 1;
      }
      SlotsAre(after);
    }

    /** One pass of `read`'s first loop: slot `k`'s location word. */
    method LocationStep(k: nat, bytes: seq<u8>, little: bool)
      requires Valid() && HasTables(bytes) && k < CHUNK_COUNT
      modifies {chunks[k]}`sectors, {chunks[k]}`location
      ensures chunks[k].AsSlot() == Located(old(chunks[k].AsSlot()), bytes, k, little)
      ensures forall i :: 0 <= i < CHUNK_COUNT && i != k ==> chunks[i].AsSlot() == old(chunks[i].AsSlot())
    {
      assert forall i :: 0 <= i < CHUNK_COUNT && i != k ==> chunks[i] != chunks[k];
      var w := WordAt(bytes, 4 * k, little);
      chunks[k].sectors := SectorsOf(w);
      chunks[k].location := LocationOf(w);
    }

    /** `read`'s second loop: the timestamp table. */
    method ReadTimestamps(bytes: seq<u8>, little: bool, ghost prevs: seq<Slot>)
      requires Valid() && HasTables(bytes) && |prevs| == CHUNK_COUNT
      requires Slots() == LocatedAll(prevs, bytes, little)
      modifies Repr()`timestamp
      ensures Slots() == Headers(prevs, bytes, little)
    {
      ghost var before, after := LocatedAll(prevs, bytes, little), Headers(prevs, bytes, little);
      var k := 0;
      while k < CHUNK_COUNT
        invariant 0 <= k <= CHUNK_COUNT
        invariant forall i :: 0 <= i < CHUNK_COUNT ==> chunks[i].AsSlot() == if i < k then after[i] else before[i]
      {
        TimestampStep(k, bytes, little, prevs);
        k := k + 1;
      }
      SlotsAre(after);
    }

    /** One pass of `read`'s second loop: slot `k`'s timestamp word. */
    method TimestampStep(k: nat, bytes: seq<u8>, little: bool, ghost prevs: seq<Slot>)
      requires Valid() && HasTables(bytes) && |prevs| == CHUNK_COUNT && k < CHUNK_COUNT
      requires chunks[k].AsSlot() == Located(prevs[k], bytes, k, little)
      modifies {chunks[k]}`timestamp
      ensures chunks[k].AsSlot() == Header(prevs[k], bytes, k, little)
      ensures forall i :: 0 <= i < CHUNK_COUNT && i != k ==> chunks[i].AsSlot() == old(chunks[i].AsSlot())
    {
      assert forall i :: 0 <= i < CHUNK_COUNT && i != k ==> chunks[i] != chunks[k];
      chunks[k].timestamp := WordAt(bytes, SECTOR_SIZE + 4 * k, little);
    }

    /** One pass of `read`'s record loop, on slot `k` alone: it throws
        exactly at the first slot outside the file, and otherwise the slot
        becomes what `ReadRegion` says. */
    method RecordStep(k: nat, bytes: seq<u8>, little: bool, two: bool, ghost prevs: seq<Slot>)
      returns (outside: bool)
      requires Valid() && ReadDefined(bytes, little, two) && |prevs| == CHUNK_COUNT
      requires totalSectors as nat == TotalSectorsOf(|bytes|)
      requires k < CHUNK_COUNT && k <= FirstOutside(bytes, little, 0)
      requires chunks[k].AsSlot() == Header(prevs[k], bytes, k, little)
      modifies {chunks[k]}`data, {chunks[k]}`size, {chunks[k]}`rle, {chunks[k]}`decSize
      ensures outside <==> k == FirstOutside(bytes, little, 0)
      ensures chunks[k].AsSlot() ==
        if outside then Header(prevs[k], bytes, k, little) else ReadRegion(prevs, bytes, little, two)[k]
      ensures forall i :: 0 <= i < CHUNK_COUNT && i != k ==> chunks[i].AsSlot() == old(chunks[i].AsSlot())
    {
      ReadStep(prevs, bytes, little, two, k);
      assert forall i :: 0 <= i < CHUNK_COUNT && i != k ==> chunks[i] != chunks[k];
      outside := ReadRecord(chunks[k], bytes, little, two, totalSectors,
        Header(prevs[k], bytes, k, little), ReadRegion(prevs, bytes, little, two)[k]);
    }

    /** Where the record loop throws, the slots already are what
        `ReadRegion` says. */
    lemma RecordsStoppedAt(prevs: seq<Slot>, bytes: seq<u8>, little: bool, two: bool, k: nat)
      requires Valid() && ReadDefined(bytes, little, two) && |prevs| == CHUNK_COUNT
      requires k == FirstOutside(bytes, little, 0)
      requires forall i :: 0 <= i < CHUNK_COUNT ==>
        chunks[i].AsSlot() == if i < k then ReadRegion(prevs, bytes, little, two)[i] else Headers(prevs, bytes, little)[i]
      ensures Slots() == ReadRegion(prevs, bytes, little, two)
    {
      RecordsStopped(prevs, bytes, little, two, k);
      SlotsAre(ReadRegion(prevs, bytes, little, two));
    }

    /** `read`'s third loop: the records, up to the first slot outside the
        file. */
    method ReadRecords(bytes: seq<u8>, little: bool, two: bool, ghost prevs: seq<Slot>) returns (threw: bool)
      requires Valid() && ReadDefined(bytes, little, two) && |prevs| == CHUNK_COUNT
      requires totalSectors as nat == TotalSectorsOf(|bytes|)
      requires Slots() == Headers(prevs, bytes, little)
      modifies Repr()`data, Repr()`size, Repr()`rle, Repr()`decSize
      ensures threw <==> FirstOutside(bytes, little, 0) < CHUNK_COUNT
      ensures Slots() == ReadRegion(prevs, bytes, little, two)
    {
      ghost var target, before := ReadRegion(prevs, bytes, little, two), Headers(prevs, bytes, little);
      var k := 0;
      while k < CHUNK_COUNT
        invariant 0 <= k <= FirstOutside(bytes, little, 0)
        invariant forall i :: 0 <= i < CHUNK_COUNT ==> chunks[i].AsSlot() == if i < k then target[i] else before[i]
      {
        var outside := RecordStep(k, bytes, little, two, prevs);
        if outside {
          RecordsStoppedAt(prevs, bytes, little, two, k);
          return true;
        }
        k := k + 1;
      }
      SlotsAre(target);
      return false;
    }

    /** `write(consoleIn)`: every present slot's payload is compressed for
        `consoleIn` and placed afresh, keeping its old sector count
        (`WriteSlots`); the image
        is then a zeroed buffer of the region's sectors holding the location
        table, the timestamp table and the records, byte order chosen by
        `consoleIn` and the number of decompressed-size words by the
        region's own console. */
    method Write(consoleIn: Console, c: Codecs) returns (out: seq<u8>)
      requires Valid() && CompressAllDefined(Slots(), consoleIn)
      requires WriteDefined(WriteSlots(Slots(), consoleIn, c), LittleEndian(consoleIn), TwoDecWords(console))
      modifies Repr()`data, Repr()`size, Repr()`compressed, Repr()`decSize, Repr()`location
      ensures Slots() == WriteSlots(old(Slots()), consoleIn, c)
      ensures out == Image(Slots(), LittleEndian(consoleIn), TwoDecWords(old(console)))
    {
      var little, two := LittleEndian(consoleIn), TwoDecWords(console);
      ghost var prevs := Slots();
      var total := Layout(consoleIn, c, prevs);
      out := Serialize(Slots(), total, little, two);
    }

    /** `write`'s first loop: compress and place each slot in turn. Returns
        the region's size in sectors. */
    method Layout(consoleIn: Console, c: Codecs, ghost prevs: seq<Slot>) returns (total: nat)
      requires Valid() && prevs == Slots() && CompressAllDefined(prevs, consoleIn)
      modifies Repr()`data, Repr()`size, Repr()`compressed, Repr()`decSize, Repr()`location
      ensures Slots() == WriteSlots(prevs, consoleIn, c)
      ensures total == Total(WriteSlots(prevs, consoleIn, c))
    {
      ghost var after := WriteSlots(prevs, consoleIn, c);
      total := FIRST_DATA_SECTOR;
      var k := 0;
      while k < CHUNK_COUNT
        invariant 0 <= k <= CHUNK_COUNT
        invariant total == SectorsBefore(CompressAll(prevs, consoleIn, c), k)
        invariant forall i :: 0 <= i < CHUNK_COUNT ==> chunks[i].AsSlot() == if i < k then after[i] else prevs[i]
      {
        total := LayoutStep(k, consoleIn, c, total, prevs);
        k := k + 1;
      }
      SlotsAre(after);
      SectorsBeforeSame(after, CompressAll(prevs, consoleIn, c), CHUNK_COUNT);
    }

    /** One pass of `write`'s first loop: an absent slot gets location 0; a
        present slot's payload is compressed and the slot gets the next free
        sector. The new sector count only advances the running total: the
        slot keeps the count it was read with. */
    method LayoutStep(k: nat, consoleIn: Console, c: Codecs, total: nat, ghost prevs: seq<Slot>) returns (next: nat)
      requires Valid() && |prevs| == CHUNK_COUNT && k < CHUNK_COUNT && CompressAllDefined(prevs, consoleIn)
      requires chunks[k].AsSlot() == prevs[k]
      requires total == SectorsBefore(CompressAll(prevs, consoleIn, c), k)
      modifies {chunks[k]}`data, {chunks[k]}`size, {chunks[k]}`compressed, {chunks[k]}`decSize,
        {chunks[k]}`location
      ensures chunks[k].AsSlot() == WriteSlots(prevs, consoleIn, c)[k]
      ensures next == SectorsBefore(CompressAll(prevs, consoleIn, c), k + 1)
      ensures forall i :: 0 <= i < CHUNK_COUNT && i != k ==> chunks[i].AsSlot() == old(chunks[i].AsSlot())
    {
      assert forall i :: 0 <= i < CHUNK_COUNT && i != k ==> chunks[i] != chunks[k];
      var chunk := chunks[k];
      if chunk.sectors == 0 {
        chunk.location := 0;
        return total;
      }
      chunk.EnsureCompressed(consoleIn, c);
      var sectors := SectorsFor(chunk.size);
      chunk.location := total as u32;
      next := total + sectors as nat;
    }
  }

  /** One iteration of `read`'s record loop: an absent slot is skipped; a
      present slot whose sectors reach past the file's `totalSectors` is
      `outside` (where `read` throws); otherwise seek to its first sector,
      read the length word, the decompressed size (twice on PS3 and RPCS3,
      the second read counting) and then the payload into a fresh buffer. */
  method ReadRecord(chunk: ChunkManager, bytes: seq<u8>, little: bool, two: bool, totalSectors: u32,
                    ghost h: Slot, ghost t: Slot) returns (outside: bool)
    requires chunk.AsSlot() == h
    requires Present(h) && h.location as int + h.sectors as int <= totalSectors as int ==>
      RecordFits(bytes, h.location as nat * SECTOR_SIZE, little, two) &&
      t == h.(payload := RecordAt(h.payload, bytes, h.location as nat * SECTOR_SIZE, little, two))
    requires !Present(h) ==> t == h
    modifies chunk`data, chunk`size, chunk`rle, chunk`decSize
    ensures outside <==> Present(h) && h.location as int + h.sectors as int > totalSectors as int
    ensures chunk.AsSlot() == if outside then h else t
  {
    if chunk.sectors == 0 {
      return false;
    }
    if chunk.location as int + chunk.sectors as int > totalSectors as int {
      return true;
    }
    var pos := chunk.location as nat * SECTOR_SIZE;
    var lw := WordAt(bytes, pos, little);
    pos := pos + 4;
    chunk.rle := RleOf(lw);
    chunk.size := LengthOf(lw);
    chunk.decSize := WordAt(bytes, pos, little);
    pos := pos + 4;
    if two {
      chunk.decSize := WordAt(bytes, pos, little);
      pos := pos + 4;
    }
    chunk.data := Some(bytes[pos..pos + chunk.size as int]);
    outside := false;
  }

  /** The bytes `write` returns for the laid-out `slots` of a region of
      `total` sectors: a zeroed buffer, then the location table, the
      timestamp table and the records. */
  method Serialize(slots: seq<Slot>, total: nat, little: bool, two: bool) returns (out: seq<u8>)
    requires WriteDefined(slots, little, two) && total == Total(slots)
    ensures out == Image(slots, little, two)
  {
    var buf := new u8[total * SECTOR_SIZE](_ => 0);
    ghost var zeros := buf[..];
    assert zeros == Zeros(total * SECTOR_SIZE);
    WriteHeaders(buf, slots, little);
    WriteTimestamps(buf, slots, little);
    WriteRecords(buf, slots, little, two);
    out := buf[..];
  }

  /** `write`'s second loop: the location table, one word per slot. */
  method WriteHeaders(buf: array<u8>, slots: seq<Slot>, little: bool)
    requires |slots| == CHUNK_COUNT && 2 * SECTOR_SIZE <= buf.Length
    modifies buf
    ensures Fits(HeaderWrites(slots, little), buf.Length)
    ensures buf[..] == Apply(old(buf[..]), HeaderWrites(slots, little))
  {
    ghost var ws := HeaderWrites(slots, little);
    ghost var start := buf[..];
    TableWritesFit(slots, little, buf.Length);
    var k := 0;
    while k < CHUNK_COUNT
      invariant 0 <= k <= CHUNK_COUNT
      invariant Fits(ws[..k], buf.Length) && buf[..] == Apply(start, ws[..k])
    {
      ApplyPrefix(start, ws, k);
      WriteAt(buf, HeaderWrite(slots[k], k, little));
      k := k + 1;
    }
    assert ws[..k] == ws;
  }

  /** `write`'s third loop: the timestamp table, one word per slot. */
  method WriteTimestamps(buf: array<u8>, slots: seq<Slot>, little: bool)
    requires |slots| == CHUNK_COUNT && 2 * SECTOR_SIZE <= buf.Length
    modifies buf
    ensures Fits(TimestampWrites(slots, little), buf.Length)
    ensures buf[..] == Apply(old(buf[..]), TimestampWrites(slots, little))
  {
    ghost var ws := TimestampWrites(slots, little);
    ghost var start := buf[..];
    TableWritesFit(slots, little, buf.Length);
    var k := 0;
    while k < CHUNK_COUNT
      invariant 0 <= k <= CHUNK_COUNT
      invariant Fits(ws[..k], buf.Length) && buf[..] == Apply(start, ws[..k])
    {
      ApplyPrefix(start, ws, k);
      WriteAt(buf, TimestampWrite(slots[k], k, little));
      k := k + 1;
    }
    assert ws[..k] == ws;
  }

  /** `write`'s last loop: each present slot's record at its first sector. */
  method WriteRecords(buf: array<u8>, slots: seq<Slot>, little: bool, two: bool)
    requires WriteDefined(slots, little, two) && buf.Length == Total(slots) * SECTOR_SIZE
    modifies buf
    ensures Fits(RecordWrites(slots, little, two), buf.Length)
    ensures buf[..] == Apply(old(buf[..]), RecordWrites(slots, little, two))
  {
    ghost var ws := RecordWrites(slots, little, two);
    ghost var start := buf[..];
    RecordWritesFit(slots, little, two);
    var k := 0;
    while k < CHUNK_COUNT
      invariant 0 <= k <= CHUNK_COUNT
      invariant Fits(ws[..k], buf.Length) && buf[..] == Apply(start, ws[..k])
    {
      ApplyPrefix(start, ws, k);
      WriteRecord(buf, slots[k], little, two);
      k := k + 1;
    }
    assert ws[..k] == ws;
  }

  /** One pass of `write`'s record loop: nothing for an absent slot;
      otherwise seek to the slot's first sector and write the length word
      (the size cut to 24 bits with the top two bits set when the RLE flag
      is set), the decompressed size (twice on PS3 and RPCS3) and the
      payload. */
  method WriteRecord(buf: array<u8>, s: Slot, little: bool, two: bool)
    requires Present(s) ==> Readable(s.payload)
    requires End(RecordWrite(s, little, two)) <= buf.Length
    modifies buf
    ensures buf[..] == Put(old(buf[..]), RecordWrite(s, little, two))
  {
    if s.sectors == 0 {
      PutNothing(buf[..], 0);
      return;
    }
    ghost var start := buf[..];
    var pos := s.location as nat * SECTOR_SIZE;
    var dw := WordBytes(s.payload.decSize, little);
    var words := WordBytes(LengthWord(s.payload.size, s.payload.rle), little) + dw + (if two then dw else []);
    var body := s.payload.data.value[..s.payload.size];
    WriteAt(buf, Write(pos, words));
    WriteAt(buf, Write(pos + |words|, body));
    PutConcat(start, pos, words, body);
  }
}
