/** partition_format of fs/fs.c and the mount behind it: the first state of a partition. */
module Format {
  import opened Disks
  import opened InodeTable
  import opened Bitmaps
  import opened Partitions
  import opened DirEntries
  import opened Directory
  import opened Dirs

  const BITS_PER_SECTOR: nat := 4096
  /** The boot sector, the super block, the inode bitmap and the inode table. */
  const FIXED: nat := 2 + 1 + TABLE_SECTORS

  function DivRoundUp(x: nat, y: nat): nat
    requires y > 0
  {
    (x + y - 1) / y
  }

  /** The first guess at the sectors of the block bitmap counts those sectors among the blocks. */
  function FirstGuess(sectors: nat): nat
    requires sectors > FIXED + 1
  {
    DivRoundUp(sectors - FIXED, BITS_PER_SECTOR)
  }

  /** block_bitmap_bit_len. */
  function Bits(sectors: nat): (b: nat)
    requires sectors > FIXED + 1
    ensures b >= 1
  {
    sectors - FIXED - FirstGuess(sectors)
  }

  function BitmapSectors(sectors: nat): (n: nat)
    requires sectors > FIXED + 1
    ensures n >= 1 && n <= FirstGuess(sectors)
  {
    DivRoundUp(Bits(sectors), BITS_PER_SECTOR)
  }

  function TableStart(start: nat, sectors: nat): nat
    requires sectors > FIXED + 1
  {
    start + 2 + BitmapSectors(sectors) + 1
  }

  function DataStart(start: nat, sectors: nat): (d: nat)
    requires sectors > FIXED + 1
    ensures d < start + sectors
  {
    TableStart(start, sectors) + TABLE_SECTORS
  }

  /** Boot sector and super block, the two bitmaps and the inode table come before the data blocks; the bits are as many as the
      sectors behind them, less those that the second count of bitmap sectors saves. */
  lemma LayoutFills(start: nat, sectors: nat)
    requires sectors > FIXED + 1
    ensures var g, n := FirstGuess(sectors), BitmapSectors(sectors);
            && 4096 * (g - 1) < sectors - 611 <= 4096 * g && 4096 * (n - 1) < Bits(sectors) <= 4096 * n && n <= g
            && TableStart(start, sectors) == start + 2 + n + 1 && DataStart(start, sectors) == start + 611 + n
            && DataStart(start, sectors) + Bits(sectors) == start + sectors - (g - n)
  {
  }

  // ---------------------------------------------------------------- the block bitmap

  /** The bits behind bit n. */
  ghost function After(n: nat, size: nat): (s: set<nat>)
    ensures forall b: nat :: b in s <==> n < b < size
  {
    if n < size then Interval(n + 1, size - n - 1) else {}
  }

  /** The bits of bytes k to n - 1. */
  ghost function BitsOfBytes(k: nat, n: nat): (s: set<nat>)
    ensures forall b: nat :: b in s <==> 8 * k <= b < 8 * n
  {
    if k < n then Interval(8 * k, 8 * (n - k)) else {}
  }

  lemma FilledByte(bytes: seq<bv8>, k: nat, full: bv8)
    requires k < |bytes| && full == 0xff
    ensures UsedIn(bytes[k := full]) == UsedIn(bytes) + BitsOfBytes(k, k + 1)
  {
    MaskValues();
    var after := bytes[k := full];
    forall b: nat | b < 8 * |bytes| ensures b in UsedIn(after) <==> b in UsedIn(bytes) || b in BitsOfBytes(k, k + 1) {
      assert b / 8 == k <==> 8 * k <= b < 8 * (k + 1);
      MaskTest(full, b % 8);
    }
  }

  /** The memset. What goes behind the bitmap's sectors is not kept. */
  method Fill(bitmap: Bitmap, from: nat, n: nat)
    requires from + n >= bitmap.bits.Length
    modifies bitmap.bits
    ensures bitmap.Used() == old(bitmap.Used()) + BitsOfBytes(from, bitmap.bits.Length)
  {
    hide UsedIn;
    var k := from;
    while k < from + n && k < bitmap.bits.Length
      invariant from <= k && bitmap.Used() == old(bitmap.Used()) + BitsOfBytes(from, if k < bitmap.bits.Length then k else bitmap.bits.Length)
    {
      FilledByte(bitmap.bits[..], k, 0xff);
      ghost var before := bitmap.bits[..];
      bitmap.bits[k] := 0xff;
      assert bitmap.bits[..] == before[k := 0xff];
      k := k + 1;
    }
  }

  /** The block bitmap in memory after the mount. Its loop clears bit `bits` as well, which is the first past the end. */
  method FormatBlockBitmap(bits: nat, bitmapSectors: nat) returns (bitmap: Bitmap)
    requires bits >= 1 && bitmapSectors == DivRoundUp(bits, BITS_PER_SECTOR)
    ensures fresh(bitmap) && fresh(bitmap.bits) && bitmap.Size() == BITS_PER_SECTOR * bitmapSectors
    ensures bitmap.Used() == (if bits >= 8 then {0} else {}) + After(bits, bitmap.Size())
  {
    hide UsedIn;
    bitmap := new Bitmap(512 * bitmapSectors);
    bitmap.Set(0, true);
    var lastByte, lastBit := bits / 8, bits % 8;
    var lastSize := 512 - lastByte % 512;
    Fill(bitmap, lastByte, lastSize);
    ghost var filled := bitmap.Used();
    var bit := 0;
    while bit <= lastBit
      invariant bit <= lastBit + 1 && bitmap.Used() == filled - Interval(8 * lastByte, bit)
    {
      if lastByte < bitmap.bits.Length {
        bitmap.Set(8 * lastByte + bit, false);
      } else {
        assert 8 * lastByte + bit !in filled;
      }
      bit := bit + 1;
    }
    forall b: nat ensures b in bitmap.Used() <==> (bits >= 8 && b == 0) || b in After(bits, bitmap.Size()) {
    }
  }

  /** The bits that may be handed out lie on the partition, or one of them is past its end. */
  lemma RoomIff(start: nat, sectors: nat)
    requires sectors > FIXED + 1
    ensures var size := BITS_PER_SECTOR * BitmapSectors(sectors);
            Room(size, After(Bits(sectors), size), DataStart(start, sectors), start + sectors) <==> NothingPastEnd(sectors)
  {
    var size := BITS_PER_SECTOR * BitmapSectors(sectors);
    var bits := Bits(sectors);
    assert DataStart(start, sectors) + bits == start + sectors - (FirstGuess(sectors) - BitmapSectors(sectors));
    if !NothingPastEnd(sectors) {
      assert bits < size && bits !in After(bits, size);
    } else {
      forall b: nat | b < size && b !in After(bits, size) ensures DataStart(start, sectors) + b < start + sectors {
        assert b <= bits;
      }
    }
  }

  /** The cleared bit past the end is in a sector that is not kept, or the second count of sectors left a block over. */
  predicate NothingPastEnd(sectors: nat)
    requires sectors > FIXED + 1
  {
    Bits(sectors) % BITS_PER_SECTOR == 0 || BitmapSectors(sectors) < FirstGuess(sectors)
  }

  // ---------------------------------------------------------------- the root directory

  const DOT := Entry(".", 0, FT_DIRECTORY)
  const DOTDOT := Entry("..", 0, FT_DIRECTORY)

  /** The first sector of the data blocks. */
  function RootSector(): Sector {
    Patch(Patch(Zeros(SECTOR_SIZE), 0, EntryBytes(DOT)), ENTRY_SIZE, EntryBytes(DOTDOT))
  }

  function RootSlots(lba: u32): (s: seq<u32>)
    ensures |s| == SLOTS && s[0] == lba && forall k | 1 <= k < SLOTS :: s[k] == 0
  {
    seq<u32>(SLOTS, k => if k == 0 then lba else 0)
  }

  function RootInode(lba: u32): Inode {
    InodeRecord(0, 2 * ENTRY_SIZE, 0, false, RootSlots(lba)[..13])
  }

  lemma RootEntries(j: nat)
    requires j < PER_SECTOR
    ensures EntryAt(RootSector(), j) == if j == 0 then DOT else if j == 1 then DOTDOT else NO_ENTRY
  {
    EntryOfBytes(DOT);
    EntryOfBytes(DOTDOT);
    EmptySector(j);
    hide EntryAt, EntryOf, EntryBytes, Patch, Zeros;
    var zeros: Sector := Zeros(SECTOR_SIZE);
    var first: Sector := Patch(zeros, ENTRY_SIZE * 0, EntryBytes(DOT));
    EntryPatched(zeros, 0, EntryBytes(DOT), j);
    EntryPatched(first, 1, EntryBytes(DOTDOT), j);
  }

  /** The root directory has its dots and nothing else, and its size counts them. */
  lemma RootIsShaped(disk: seq<Sector>, lba: u32)
    requires 0 < lba < |disk| && disk[lba] == RootSector()
    ensures DirShaped(disk, RootSlots(lba), 2 * ENTRY_SIZE, 0) && DirOf(disk, RootSlots(lba))[1] == DOTDOT
  {
    hide RootSector, EntryAt;
    var slots := RootSlots(lba);
    var es := DirOf(disk, slots);
    forall s: nat | s < PLACES ensures es[s] == if s == 0 then DOT else if s == 1 then DOTDOT else NO_ENTRY {
      RootEntries(s % PER_SECTOR);
      assert s == PER_SECTOR * (s / PER_SECTOR) + s % PER_SECTOR;
      DirOfAt(disk, slots, s / PER_SECTOR, s % PER_SECTOR);
    }
    assert GoodDir(es, 0);
    EmptyIsExact(es, 0);
  }

  // ---------------------------------------------------------------- the partition

  /** The maps of a partition with a root directory only. */
  lemma RootIsAll(disk: seq<Sector>, lba: u32)
    requires lba != 0
    ensures Owns(map[lba := (0, 0)], map[0 := RootSlots(lba)])
    ensures Agree(map[0 := RootInode(lba)], map[], {0})
    ensures Loaded(disk, map[0 := RootInode(lba)], map[0 := RootSlots(lba)], {})
  {
    assert SlotsOf(disk, RootInode(lba)) == RootSlots(lba);
  }

  lemma RootIsSynced(before: seq<Sector>, disk: seq<Sector>, table: nat, lba: u32)
    requires table + TABLE_SECTORS <= |before| && SlotWritten(before, disk, table, 0, Record(RootInode(lba)))
    ensures Synced(disk, table, map[0 := RootInode(lba)], {})
  {
    hide Record, InodeOf, Slot, TableByte;
    WrittenSlot(before, disk, table, 0, Record(RootInode(lba)));
    InodeOfRecord(RootInode(lba));
    assert Pure(RootInode(lba)) == RootInode(lba);
  }

  /** The root's bit is set, unless the partition is for less than eight blocks. */
  lemma CoveredIff(bits: nat, size: nat, lba: u32, used: set<nat>, reserved: set<nat>)
    requires reserved == After(bits, size) && used == (if bits >= 8 then {0} else {}) + reserved
    ensures Covers(map[lba := (0, 0)], used, reserved, lba) <==> bits >= 8
  {
    var owner: map<u32, (nat, nat)> := map[lba := (0, 0)];
    assert lba + 0 in owner && 0 !in reserved;
    if bits >= 8 {
      assert Covers(owner, used, reserved, lba);
    } else {
      assert lba in owner && lba - lba !in used;
    }
  }

  /** A clear bit past the end is for the sector right behind the partition. */
  lemma RoomOnDisk(start: nat, sectors: nat, disk: nat)
    requires sectors > FIXED + 1 && start + sectors <= disk
    ensures var size := BITS_PER_SECTOR * BitmapSectors(sectors);
            Room(size, After(Bits(sectors), size), DataStart(start, sectors), disk) <==> NothingPastEnd(sectors) || start + sectors < disk
  {
    var size := BITS_PER_SECTOR * BitmapSectors(sectors);
    var bits := Bits(sectors);
    if !NothingPastEnd(sectors) {
      assert DataStart(start, sectors) + bits == start + sectors;
      assert bits < size && bits !in After(bits, size);
    }
    forall b: nat | b < size && b !in After(bits, size)
      ensures DataStart(start, sectors) + b < start + sectors + if NothingPastEnd(sectors) then 0 else 1
    {
      assert b <= bits;
    }
  }

  /** The bits that are set are those of the root and those behind the last. */
  lemma FormatIsValidIff(part: Partition, start: nat, sectors: nat)
    requires sectors > FIXED + 1 && start > 0 && start + sectors <= |part.disk| <= 0x1_0000_0000
    requires part.table == TableStart(start, sectors) && part.dataStart == DataStart(start, sectors)
    requires part.blockBitmap.bits != part.inodeBitmap.bits && part.inodeBitmap.Size() == MAX_FILES
    requires part.blockBitmap.Size() == BITS_PER_SECTOR * BitmapSectors(sectors) && part.reserved == After(Bits(sectors), part.blockBitmap.Size())
    requires part.blockBitmap.Used() == (if Bits(sectors) >= 8 then {0} else {}) + part.reserved
    requires part.owner == map[part.dataStart := (0, 0)] && part.blocks == map[0 := RootSlots(part.dataStart)]
    requires part.live == map[0 := RootInode(part.dataStart)] && part.open == map[] && part.inodeBitmap.Used() == {0}
    requires Synced(part.disk, part.table, part.live, {})
    ensures part.Valid() <==> Bits(sectors) >= 8 && (NothingPastEnd(sectors) || start + sectors < |part.disk|)
  {
    hide UsedIn, Owns, Agree, Loaded, Synced, Room, Covers, RootSlots, RootInode, NothingPastEnd, Bits, BitmapSectors, After;
    RoomOnDisk(start, sectors, |part.disk|);
    CoveredIff(Bits(sectors), part.blockBitmap.Size(), part.dataStart, part.blockBitmap.Used(), part.reserved);
    RootIsAll(part.disk, part.dataStart);
  }

  /** A partition is formatted and mounted. It has a root directory and nothing else. What the operations on partitions need
      holds exactly when there is room for eight blocks and no bit that may be handed out is past the end of the disk; that no
      such bit is past the end of the partition takes more. */
  method PartitionFormat(disk: seq<Sector>, start: nat, sectors: nat) returns (part: Partition)
    requires sectors > FIXED + 1 && start > 0 && start + sectors <= |disk| <= 0x1_0000_0000
    ensures fresh(part) && fresh(part.blockBitmap.bits) && fresh(part.inodeBitmap.bits)
    ensures part.dataStart == DataStart(start, sectors) && |part.disk| == |disk|
    ensures part.Valid() <==> Bits(sectors) >= 8 && (NothingPastEnd(sectors) || start + sectors < |disk|)
    ensures Room(part.blockBitmap.Size(), part.reserved, part.dataStart, start + sectors) <==> NothingPastEnd(sectors)
    ensures part.live == map[0 := RootInode(part.dataStart)] && part.open == map[]
    ensures part.owner == map[part.dataStart := (0, 0)] && part.blocks == map[0 := RootSlots(part.dataStart)]
    ensures DirShaped(part.disk, RootSlots(part.dataStart), 2 * ENTRY_SIZE, 0)
    ensures DirOf(part.disk, RootSlots(part.dataStart))[1] == Entry("..", 0, FT_DIRECTORY)
    ensures forall l | 0 <= l < |disk| && !(start <= l < start + sectors) :: part.disk[l] == disk[l]
  {
    hide UsedIn, Owns, Agree, Loaded, Synced, Room, Covers, RootSector, RootSlots, RootInode, Record, DirShaped, NothingPastEnd,
      Partition.Valid, Partition.ValidBut;
    var table, dataStart := TableStart(start, sectors), DataStart(start, sectors);
    var blockBitmap := FormatBlockBitmap(Bits(sectors), BitmapSectors(sectors));
    var inodeBitmap := new Bitmap(512);
    inodeBitmap.Set(0, true);
    assert inodeBitmap.Used() == {0};
    ghost var reserved := After(Bits(sectors), blockBitmap.Size());
    part := new Partition(table, dataStart, disk, blockBitmap, inodeBitmap, reserved);
    part.WriteSlot(0, Record(RootInode(dataStart)));
    RootIsSynced(disk, part.disk, table, dataStart);
    WriteKeepsSynced(part.disk, dataStart, RootSector(), table, map[0 := RootInode(dataStart)], {});
    part.disk := part.disk[dataStart := RootSector()];
    part.live := map[0 := RootInode(dataStart)];
    part.blocks := map[0 := RootSlots(dataStart)];
    part.owner := map[dataStart := (0, 0)];
    RootIsShaped(part.disk, dataStart);
    RoomIff(start, sectors);
    FormatIsValidIff(part, start, sectors);
  }

  /** Sizes of partitions with and without a bit past the end. */
  lemma BothHappen()
    ensures !NothingPastEnd(FIXED + 5000) && NothingPastEnd(FIXED + 4097) && Bits(FIXED + 5000) >= 8
  {
  }
}
