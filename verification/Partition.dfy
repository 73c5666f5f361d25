/** A mounted partition: its sectors, its two bitmaps in memory, and the inodes in memory. */
module Partitions {
  import opened Disks
  import opened InodeTable
  import opened Bitmaps

  /** The blocks an inode can hold: slots 0 to 11 are direct, 12 to 139 are in the indirect table, and slot 140 is
      the sector of that table. */
  const SLOTS: nat := 141
  const INDIRECT: nat := 140

  function NoWords(): (ws: seq<u32>)
    ensures |ws| == 128 && forall k | 0 <= k < 128 :: ws[k] == 0
  {
    seq(128, i => 0)
  }

  /** The 128 entries of an indirect table. */
  function TableWords(disk: seq<Sector>, lba: u32): (ws: seq<u32>)
    ensures |ws| == 128
  {
    if lba == 0 || lba >= |disk| then NoWords() else Words(disk[lba], 128)
  }

  function With(s: seq<u32>, k: nat, v: u32): seq<u32>
    requires k < |s|
  {
    s[k := v]
  }

  /** Every block of an inode, as the inode and the disk together say; 0 stands for none. */
  function SlotsOf(disk: seq<Sector>, ino: Inode): (s: seq<u32>)
    ensures |s| == SLOTS && s[..12] == ino.sectors[..12] && s[INDIRECT] == ino.sectors[12]
    ensures s[12..INDIRECT] == TableWords(disk, ino.sectors[12])
  {
    ino.sectors[..12] + TableWords(disk, ino.sectors[12]) + [ino.sectors[12]]
  }

  function ByteAt(disk: seq<Sector>, lba: u32, off: nat): byte
    requires off < SECTOR_SIZE
  {
    if lba < |disk| then disk[lba][off] else 0
  }

  /** The first `size` bytes kept in a list of blocks. */
  function Data(disk: seq<Sector>, slots: seq<u32>, size: nat): (s: seq<byte>)
    requires |slots| == SLOTS && size <= 512 * INDIRECT
    ensures |s| == size
  {
    seq<byte>(size, p requires 0 <= p < size => ByteAt(disk, slots[p / 512], p % 512))
  }

  /** No block is in two places: each is the one slot of the one inode its owner entry names. */
  ghost predicate Owns(owner: map<u32, (nat, nat)>, blocks: map<nat, seq<u32>>) {
    && (forall i | i in blocks :: |blocks[i]| == SLOTS)
    && (forall i, k: nat | i in blocks && k < SLOTS && blocks[i][k] != 0 ::
          blocks[i][k] in owner && owner[blocks[i][k]] == (i, k))
    && (forall l | l in owner ::
          l != 0 && owner[l].0 in blocks && owner[l].1 < SLOTS && blocks[owner[l].0][owner[l].1] == l)
  }

  lemma OwnerOf(owner: map<u32, (nat, nat)>, blocks: map<nat, seq<u32>>, i: nat, k: nat)
    requires Owns(owner, blocks) && i in blocks && k < SLOTS
    ensures |blocks[i]| == SLOTS
    ensures blocks[i][k] != 0 ==> blocks[i][k] in owner && owner[blocks[i][k]] == (i, k)
  {
  }

  lemma NotOwned(owner: map<u32, (nat, nat)>, blocks: map<nat, seq<u32>>, i: nat, lba: u32)
    requires Owns(owner, blocks) && i in blocks && lba != 0 && lba !in owner
    ensures |blocks[i]| == SLOTS && forall k: nat | k < SLOTS :: blocks[i][k] != lba
  {
  }

  lemma SlotOfOwner(owner: map<u32, (nat, nat)>, blocks: map<nat, seq<u32>>, lba: u32)
    requires Owns(owner, blocks) && lba in owner
    ensures var (i, k) := owner[lba]; lba != 0 && i in blocks && k < SLOTS && |blocks[i]| == SLOTS && blocks[i][k] == lba
  {
  }

  lemma OnlySlot(owner: map<u32, (nat, nat)>, blocks: map<nat, seq<u32>>, i: nat, k: nat)
    requires Owns(owner, blocks) && i in blocks && k < SLOTS && |blocks[i]| == SLOTS && blocks[i][k] != 0
    ensures forall m: nat | m < SLOTS && m != k :: blocks[i][m] != blocks[i][k]
  {
    hide Owns;
    OwnerOf(owner, blocks, i, k);
    forall m: nat | m < SLOTS && m != k ensures blocks[i][m] != blocks[i][k] {
      OwnerOf(owner, blocks, i, m);
    }
  }

  /** The bits that are 1 are those of the owned blocks, and the reserved ones, which stand for no inode's block. */
  ghost predicate Covers(owner: map<u32, (nat, nat)>, used: set<nat>, reserved: set<nat>, dataStart: nat) {
    && (forall b: nat | b in used :: b in reserved || dataStart + b in owner)
    && reserved <= used
    && (forall l | l in owner :: l >= dataStart && l - dataStart in used && l - dataStart !in reserved)
  }

  lemma TakeSlot(owner: map<u32, (nat, nat)>, blocks: map<nat, seq<u32>>, i: nat, k: nat, lba: u32)
    requires Owns(owner, blocks) && i in blocks && k < SLOTS && blocks[i][k] == 0 && lba != 0 && lba !in owner
    ensures Owns(owner[lba := (i, k)], blocks[i := With(blocks[i], k, lba)])
  {
  }

  lemma GiveSlot(owner: map<u32, (nat, nat)>, blocks: map<nat, seq<u32>>, i: nat, k: nat)
    requires Owns(owner, blocks) && i in blocks && k < SLOTS && blocks[i][k] != 0
    ensures Owns(owner - {blocks[i][k]}, blocks[i := With(blocks[i], k, 0)])
  {
  }

  lemma NotReserved(owner: map<u32, (nat, nat)>, used: set<nat>, reserved: set<nat>, dataStart: nat, bit: nat)
    requires Covers(owner, used, reserved, dataStart) && bit !in used
    ensures bit !in reserved
  {
  }

  lemma TakeBit(owner: map<u32, (nat, nat)>, used: set<nat>, reserved: set<nat>, dataStart: nat, bit: nat, i: nat, k: nat)
    requires Covers(owner, used, reserved, dataStart) && bit !in used && dataStart + bit < 0x1_0000_0000
    ensures dataStart + bit !in owner && bit !in reserved
    ensures Covers(owner[dataStart + bit := (i, k)], used + {bit}, reserved, dataStart)
  {
  }

  lemma GiveBit(owner: map<u32, (nat, nat)>, used: set<nat>, reserved: set<nat>, dataStart: nat, lba: u32)
    requires Covers(owner, used, reserved, dataStart) && lba in owner
    ensures lba >= dataStart
    ensures Covers(owner - {lba}, used - {lba - dataStart}, reserved, dataStart)
  {
  }

  /** The ghost list of every inode's blocks is what a walk over the inode and its table finds. */
  ghost predicate Loaded(disk: seq<Sector>, live: map<nat, Inode>, blocks: map<nat, seq<u32>>, except: set<nat>) {
    live.Keys == blocks.Keys && forall i | i in live && i !in except :: blocks[i] == SlotsOf(disk, live[i])
  }

  /** The part of the list that the inode itself holds. */
  ghost predicate Holds(ino: Inode, slots: seq<u32>) {
    |slots| == SLOTS && slots[..12] == ino.sectors[..12] && slots[INDIRECT] == ino.sectors[12]
  }

  lemma LoadedHolds(disk: seq<Sector>, live: map<nat, Inode>, blocks: map<nat, seq<u32>>, except: set<nat>, i: nat)
    requires Loaded(disk, live, blocks, except) && i in live && i !in except
    ensures Holds(live[i], blocks[i]) && blocks[i][12..INDIRECT] == TableWords(disk, live[i].sectors[12])
  {
  }

  /** What an excepted inode is or has does not matter. */
  lemma LoadedBut(disk: seq<Sector>, live: map<nat, Inode>, blocks: map<nat, seq<u32>>, except: set<nat>, i: nat,
                  ino: Inode, slots: seq<u32>)
    requires Loaded(disk, live, blocks, except) && i in live && (i in except || slots == SlotsOf(disk, ino))
    ensures Loaded(disk, live[i := ino], blocks[i := slots], except)
  {
  }

  lemma LoadedNow(disk: seq<Sector>, live: map<nat, Inode>, blocks: map<nat, seq<u32>>, i: nat)
    requires Loaded(disk, live, blocks, {i}) && i in live && i in blocks && blocks[i] == SlotsOf(disk, live[i])
    ensures Loaded(disk, live, blocks, {})
  {
  }

  lemma LoadedWeaker(disk: seq<Sector>, live: map<nat, Inode>, blocks: map<nat, seq<u32>>, i: nat)
    requires Loaded(disk, live, blocks, {})
    ensures Loaded(disk, live, blocks, {i})
  {
  }

  lemma SyncedWeaker(disk: seq<Sector>, table: nat, live: map<nat, Inode>, i: nat)
    requires Synced(disk, table, live, {})
    ensures Synced(disk, table, live, {i})
  {
  }

  /** Only the blocks of an inode matter to its list. */
  lemma LoadedSize(disk: seq<Sector>, live: map<nat, Inode>, blocks: map<nat, seq<u32>>, except: set<nat>, i: nat, ino: Inode)
    requires Loaded(disk, live, blocks, except) && i in live && (i in except || ino.sectors == live[i].sectors)
    ensures Loaded(disk, live[i := ino], blocks, except)
  {
  }

  lemma SyncedBut(disk: seq<Sector>, table: nat, live: map<nat, Inode>, except: set<nat>, i: nat, ino: Inode)
    requires Synced(disk, table, live, except) && i in except
    ensures Synced(disk, table, live[i := ino], except)
  {
  }

  lemma AgreeAt(live: map<nat, Inode>, open: map<nat, Inode>, used: set<nat>, i: nat)
    requires Agree(live, open, used) && (i in live || i in open)
    ensures i in live && i in used && live[i].no == i && i < 256 && live[i].size <= 512 * INDIRECT
    ensures i in open ==> open[i] == live[i]
  {
  }

  lemma AgreeBut(live: map<nat, Inode>, open: map<nat, Inode>, used: set<nat>, i: nat, ino: Inode)
    requires Agree(live, open, used) && i in open && ino.no == i && ino.size <= 512 * INDIRECT
    ensures Agree(live[i := ino], open[i := ino], used) && i in live && open[i] == live[i]
  {
  }

  /** The records on the disk are up to date. */
  ghost predicate Synced(disk: seq<Sector>, table: nat, live: map<nat, Inode>, except: set<nat>) {
    && table + TABLE_SECTORS <= |disk|
    && forall i | i in live && i !in except :: i < 256 && OnDisk(disk, table, i) == Pure(live[i])
  }

  ghost predicate Agree(live: map<nat, Inode>, open: map<nat, Inode>, used: set<nat>) {
    && used == live.Keys
    && (forall i | i in live :: live[i].no == i && i < 256 && live[i].size <= 512 * INDIRECT)
    && (forall i | i in open :: i in live && open[i] == live[i])
    && (forall i | i in live && i !in open :: live[i] == Pure(live[i]))
  }

  /** Slots depend on one sector of the disk only. */
  lemma SameSlots(before: seq<Sector>, after: seq<Sector>, ino: Inode)
    requires |before| == |after|
    requires 0 < ino.sectors[12] < |before| ==> after[ino.sectors[12]] == before[ino.sectors[12]]
    ensures SlotsOf(after, ino) == SlotsOf(before, ino)
  {
  }

  /** A block of inode i is rewritten: no other inode's list of blocks changes, and not i's unless it is i's table. */
  lemma WriteKeepsLoaded(disk: seq<Sector>, lba: nat, s: Sector, live: map<nat, Inode>, blocks: map<nat, seq<u32>>,
                         owner: map<u32, (nat, nat)>, i: nat, k: nat, except: set<nat>)
    requires Owns(owner, blocks) && Loaded(disk, live, blocks, except)
    requires lba < |disk| && lba < 0x1_0000_0000 && lba in owner && owner[lba] == (i, k) && (k < INDIRECT || i in except)
    ensures Loaded(disk[lba := s], live, blocks, except)
  {
    hide Owns, SlotsOf;
    forall j | j in live && j !in except ensures blocks[j] == SlotsOf(disk[lba := s], live[j]) {
      OwnerOf(owner, blocks, j, INDIRECT);
      assert blocks[j][INDIRECT] == live[j].sectors[12];
      SameSlots(disk, disk[lba := s], live[j]);
    }
  }

  /** Sectors outside the table do not matter to the records. */
  lemma WriteKeepsSynced(disk: seq<Sector>, lba: nat, s: Sector, table: nat, live: map<nat, Inode>, except: set<nat>)
    requires Synced(disk, table, live, except) && lba < |disk| && !(table <= lba < table + TABLE_SECTORS)
    ensures Synced(disk[lba := s], table, live, except)
  {
    var d := disk[lba := s];
    forall n: nat | n < MAX_FILES ensures Slot(d, table, n) == Slot(disk, table, n) {
      assert forall q: nat | q < 512 * TABLE_SECTORS :: TableByte(d, table, q) == TableByte(disk, table, q);
    }
  }

  /** Two disks that agree on a file's blocks agree on its data. */
  lemma SameData(before: seq<Sector>, after: seq<Sector>, slots: seq<u32>, size: nat)
    requires |slots| == SLOTS && size <= 512 * INDIRECT && |before| == |after|
    requires forall k: nat | 512 * k < size && slots[k] < |before| :: after[slots[k]] == before[slots[k]]
    ensures Data(after, slots, size) == Data(before, slots, size)
  {
    forall p: nat | p < size ensures Data(after, slots, size)[p] == Data(before, slots, size)[p] {
      assert 512 * (p / 512) <= p;
    }
  }

  /** A block of inode i is rewritten: nobody else's data changes, whatever blocks that data is in. */
  lemma WriteKeepsData(disk: seq<Sector>, lba: nat, s: Sector, blocks: map<nat, seq<u32>>, owner: map<u32, (nat, nat)>,
                       i: nat, k: nat, j: nat, size: nat)
    requires Owns(owner, blocks) && lba < |disk| && lba < 0x1_0000_0000 && lba in owner && owner[lba] == (i, k)
    requires j in blocks && (j != i || k == INDIRECT) && size <= 512 * INDIRECT
    ensures Data(disk[lba := s], blocks[j], size) == Data(disk, blocks[j], size)
  {
    SameData(disk, disk[lba := s], blocks[j], size);
  }

  ghost function AllData(disk: seq<Sector>, live: map<nat, Inode>, blocks: map<nat, seq<u32>>): (m: map<nat, seq<byte>>)
    ensures m.Keys <= live.Keys && m.Keys <= blocks.Keys
  {
    map j | j in live && j in blocks && |blocks[j]| == SLOTS && live[j].size <= 512 * INDIRECT :: Data(disk, blocks[j], live[j].size)
  }

  /** One record was rewritten: it is up to date, and the others are as they were. */
  lemma RecordKeeps(before: seq<Sector>, after: seq<Sector>, table: nat, live: map<nat, Inode>, i: nat)
    requires Synced(before, table, live, {i}) && i in live && i < 256 && |after| == |before|
    requires SlotWritten(before, after, table, i, Record(Pure(live[i])))
    ensures Synced(after, table, live, {})
  {
    hide TableByte, Record, InodeOf, Slot, SlotWritten;
    WrittenSlot(before, after, table, i, Record(Pure(live[i])));
    InodeOfRecord(Pure(live[i]));
  }

  lemma RecordKeepsLoaded(before: seq<Sector>, after: seq<Sector>, table: nat, dataStart: nat, live: map<nat, Inode>,
                          blocks: map<nat, seq<u32>>, owner: map<u32, (nat, nat)>, used: set<nat>, reserved: set<nat>,
                          unread: set<nat>)
    requires |before| == |after| && forall l | dataStart <= l < |before| :: after[l] == before[l]
    requires Owns(owner, blocks) && Covers(owner, used, reserved, dataStart) && Loaded(before, live, blocks, unread)
    ensures Loaded(after, live, blocks, unread)
  {
    hide Owns, Covers, SlotsOf;
    forall j | j in live && j !in unread ensures blocks[j] == SlotsOf(after, live[j]) {
      OwnerOf(owner, blocks, j, INDIRECT);
      assert blocks[j][INDIRECT] == live[j].sectors[12];
      if blocks[j][INDIRECT] != 0 {
        InData(owner, used, reserved, dataStart, blocks[j][INDIRECT]);
      }
      SameSlots(before, after, live[j]);
    }
  }

  /** Sectors before the data blocks hold no data; sector 0 stands for the blocks that are not there. */
  lemma RecordKeepsData(before: seq<Sector>, after: seq<Sector>, dataStart: nat, live: map<nat, Inode>,
                        blocks: map<nat, seq<u32>>, owner: map<u32, (nat, nat)>, used: set<nat>, reserved: set<nat>)
    requires |before| == |after| && 0 < dataStart <= |before| && before[0] == after[0]
    requires forall l | dataStart <= l < |before| :: after[l] == before[l]
    requires Owns(owner, blocks) && Covers(owner, used, reserved, dataStart)
    ensures AllData(after, live, blocks) == AllData(before, live, blocks)
  {
    hide Owns, Covers, Data;
    forall j | j in live && j in blocks && |blocks[j]| == SLOTS && live[j].size <= 512 * INDIRECT
      ensures Data(after, blocks[j], live[j].size) == Data(before, blocks[j], live[j].size)
    {
      forall k: nat | 512 * k < live[j].size && blocks[j][k] < |before| ensures after[blocks[j][k]] == before[blocks[j][k]] {
        OwnerOf(owner, blocks, j, k);
        if blocks[j][k] != 0 {
          InData(owner, used, reserved, dataStart, blocks[j][k]);
        }
      }
      SameData(before, after, blocks[j], live[j].size);
    }
  }

  /** Every bit that may be handed out stands for a sector of the disk. */
  ghost predicate Room(bits: nat, reserved: set<nat>, dataStart: nat, sectors: nat) {
    forall b: nat | b < bits && b !in reserved :: dataStart + b < sectors
  }

  lemma RoomFor(bits: nat, reserved: set<nat>, dataStart: nat, sectors: nat, b: nat)
    requires Room(bits, reserved, dataStart, sectors) && b < bits && b !in reserved
    ensures dataStart + b < sectors
  {
  }

  lemma TakeBlock(owner: map<u32, (nat, nat)>, blocks: map<nat, seq<u32>>, used: set<nat>, reserved: set<nat>, dataStart: nat,
                  bits: nat, sectors: nat, bit: nat, i: nat, k: nat)
    requires Owns(owner, blocks) && Covers(owner, used, reserved, dataStart) && Room(bits, reserved, dataStart, sectors)
    requires bit < bits && bit !in used && i in blocks && k < SLOTS && |blocks[i]| == SLOTS && blocks[i][k] == 0 && 0 < dataStart && sectors <= 0x1_0000_0000
    ensures dataStart + bit < sectors && dataStart + bit !in owner
    ensures Owns(owner[dataStart + bit := (i, k)], blocks[i := With(blocks[i], k, dataStart + bit)])
    ensures Covers(owner[dataStart + bit := (i, k)], used + {bit}, reserved, dataStart)
  {
    hide Owns, Covers, Room;
    NotReserved(owner, used, reserved, dataStart, bit);
    RoomFor(bits, reserved, dataStart, sectors, bit);
    TakeBit(owner, used, reserved, dataStart, bit, i, k);
    TakeSlot(owner, blocks, i, k, dataStart + bit);
  }

  class Partition {
    const table: nat
    const dataStart: nat
    const blockBitmap: Bitmap
    const inodeBitmap: Bitmap
    /** The bits that the formatter set past the end, and those of blocks that were lost. */
    ghost var reserved: set<nat>

    var disk: seq<Sector>
    /** The open inode list; no number is on it twice because inode_open looks there first. */
    var open: map<nat, Inode>

    /** Every inode in use as the kernel sees it now: its copy in memory if it is open, else its record. */
    ghost var live: map<nat, Inode>
    ghost var blocks: map<nat, seq<u32>>
    ghost var owner: map<u32, (nat, nat)>

    constructor (table: nat, dataStart: nat, disk: seq<Sector>, blockBitmap: Bitmap, inodeBitmap: Bitmap, ghost reserved: set<nat>)
      ensures this.table == table && this.dataStart == dataStart && this.disk == disk
      ensures this.blockBitmap == blockBitmap && this.inodeBitmap == inodeBitmap && this.reserved == reserved
      ensures open == map[] && live == map[] && blocks == map[] && owner == map[]
    {
      this.table, this.dataStart, this.disk := table, dataStart, disk;
      this.blockBitmap, this.inodeBitmap, this.reserved := blockBitmap, inodeBitmap, reserved;
      open, live, blocks, owner := map[], map[], map[], map[];
    }

    /** The layout: the table lies before the data blocks, and every block the bitmap may hand out is on the disk. */
    ghost predicate Layout()
      reads this, blockBitmap, inodeBitmap
    {
      && table > 0 && table + TABLE_SECTORS <= dataStart <= |disk| <= 0x1_0000_0000
      && blockBitmap.bits != inodeBitmap.bits
      && inodeBitmap.Size() == MAX_FILES
      && Room(blockBitmap.Size(), reserved, dataStart, |disk|)
    }

    /** Blocks and bits agree. */
    ghost predicate Owned()
      reads this, blockBitmap, blockBitmap.bits
    {
      && Owns(owner, blocks)
      && Covers(owner, blockBitmap.Used(), reserved, dataStart)
    }

    /** All is well, save for the lists of blocks of the inodes `unread` and the records of the inodes `dirty`. */
    ghost predicate ValidBut(unread: set<nat>, dirty: set<nat>)
      reads this, blockBitmap, inodeBitmap, blockBitmap.bits, inodeBitmap.bits
    {
      && Layout() && Owned()
      && Agree(live, open, inodeBitmap.Used())
      && Loaded(disk, live, blocks, unread)
      && Synced(disk, table, live, dirty)
    }

    ghost predicate Valid()
      reads this, blockBitmap, inodeBitmap, blockBitmap.bits, inodeBitmap.bits
    {
      ValidBut({}, {})
    }

    /** What is in every inode. */
    ghost function Contents(): (m: map<nat, seq<byte>>)
      reads this
      ensures m.Keys <= live.Keys
    {
      AllData(disk, live, blocks)
    }

    ghost predicate Opened(i: nat)
      reads this
    {
      i in open && i in live && i in blocks
    }

    ghost function Free(): (s: set<nat>)
      reads blockBitmap, blockBitmap.bits
    {
      FreeIn(blockBitmap.Used(), blockBitmap.Size())
    }

    /** bitmap_scan for one bit, and bitmap_set. */
    method FreeBit() returns (bit: int)
      requires Layout()
      modifies blockBitmap.bits
      ensures bit == -1 <==> old(Free()) == {}
      ensures bit == -1 ==> blockBitmap.Used() == old(blockBitmap.Used())
      ensures bit != -1 ==> 0 <= bit < blockBitmap.Size() && bit !in old(blockBitmap.Used())
                            && blockBitmap.Used() == old(blockBitmap.Used()) + {bit} && |Free()| == |old(Free())| - 1
    {
      hide UsedIn, Room, FreeIn;
      ghost var used := blockBitmap.Used();
      bit := AllocBit(blockBitmap);
      if bit != -1 {
        TakeFree(used, blockBitmap.Size(), bit);
      }
    }

    /** The block of a bit that was clear becomes slot k of inode i. */
    ghost method Claim(used: set<nat>, bit: nat, i: nat, k: nat)
      requires Layout() && Owns(owner, blocks) && Covers(owner, used, reserved, dataStart) && bit !in used && bit < blockBitmap.Size()
      requires i in blocks && k < SLOTS && |blocks[i]| == SLOTS && blocks[i][k] == 0
      modifies this`owner, this`blocks
      ensures Layout() && dataStart + bit < |disk| && dataStart + bit !in old(owner)
      ensures owner == old(owner)[dataStart + bit := (i, k)] && blocks == old(blocks)[i := With(old(blocks[i]), k, dataStart + bit)]
      ensures Owns(owner, blocks) && Covers(owner, used + {bit}, reserved, dataStart)
    {
      hide Owns, Covers, UsedIn, Room, FreeIn, With;
      TakeBlock(owner, blocks, used, reserved, dataStart, blockBitmap.Size(), |disk|, bit, i, k);
      owner, blocks := owner[dataStart + bit := (i, k)], blocks[i := With(blocks[i], k, dataStart + bit)];
    }

    /** block_bitmap_alloc, for slot k of inode i. */
    method BlockBitmapAlloc(ghost i: nat, ghost k: nat) returns (lba: int)
      requires Layout() && Owned() && i in blocks && k < SLOTS && blocks[i][k] == 0
      modifies this`owner, this`blocks, blockBitmap.bits
      ensures Layout() && Owned()
      ensures lba == -1 <==> old(Free()) == {}
      ensures lba == -1 ==> owner == old(owner) && blocks == old(blocks) && Free() == {}
      ensures lba != -1 ==> dataStart <= lba < |disk| && lba !in old(owner) && owner == old(owner)[lba := (i, k)]
                            && blocks == old(blocks)[i := With(old(blocks[i]), k, lba)]
                            && |Free()| == |old(Free())| - 1
    {
      hide Owns, Covers, UsedIn, Room, FreeIn, With;
      OwnerOf(owner, blocks, i, k);
      ghost var used := blockBitmap.Used();
      var bit := FreeBit();
      if bit == -1 {
        return -1;
      }
      Claim(used, bit, i, k);
      lba := dataStart + bit;
    }

    /** The inode in memory is changed, in its size or its blocks. */
    method SetInode(i: nat, ino: Inode, ghost unread: set<nat>, ghost dirty: set<nat>)
      requires ValidBut(unread, dirty) && i in open && i in dirty && ino.no == i && ino.size <= 512 * INDIRECT
      requires i in unread || ino.sectors == open[i].sectors
      modifies this`open, this`live
      ensures ValidBut(unread, dirty) && live == old(live)[i := ino] && open == old(open)[i := ino]
    {
      hide Owns, Covers, Room, FreeIn, Agree, Loaded, Synced;
      AgreeBut(live, open, inodeBitmap.Used(), i, ino);
      LoadedSize(disk, live, blocks, unread, i, ino);
      SyncedBut(disk, table, live, dirty, i, ino);
      open := open[i := ino];
      live := live[i := ino];
    }

    /** block_bitmap_alloc, and the store into the inode where slot k is one that the inode holds itself. */
    method AllocSlot(i: nat, k: nat) returns (lba: int)
      requires ValidBut({i}, {i}) && i in open && k < SLOTS
      requires i in blocks && Holds(live[i], blocks[i]) && blocks[i][k] == 0
      modifies this`owner, this`blocks, this`open, this`live, blockBitmap.bits
      ensures ValidBut({i}, {i}) && i in open && i in blocks && Holds(live[i], blocks[i])
      ensures lba == -1 <==> old(Free()) == {}
      ensures lba == -1 ==> owner == old(owner) && blocks == old(blocks) && live == old(live) && open == old(open) && Free() == {}
      ensures lba != -1 ==> 0 < lba < |disk| && blocks == old(blocks)[i := With(old(blocks[i]), k, lba)]
      ensures lba != -1 ==> lba !in old(owner) && owner == old(owner)[lba := (i, k)]
      ensures lba != -1 ==> |Free()| == |old(Free())| - 1
      ensures live == old(live)[i := old(live[i]).(sectors := live[i].sectors)]
      ensures open == old(open)[i := live[i]]
    {
      hide Owns, Covers, Room, FreeIn, Agree, Loaded, Synced, UsedIn;
      AgreeAt(live, open, inodeBitmap.Used(), i);
      lba := BlockBitmapAlloc(i, k);
      if lba == -1 {
        return;
      }
      LoadedBut(disk, live, old(blocks), {i}, i, live[i], blocks[i]);
      assert live == live[i := live[i]];
      if k < 12 {
        SetInode(i, open[i].(sectors := With(open[i].sectors, k, lba)), {i}, {i});
      } else if k == INDIRECT {
        SetInode(i, open[i].(sectors := With(open[i].sectors, 12, lba)), {i}, {i});
      }
    }

    /** ide_write of one block of inode i. */
    method WriteBlock(lba: u32, s: Sector, ghost i: nat, ghost k: nat, ghost unread: set<nat>, ghost dirty: set<nat>)
      requires ValidBut(unread, dirty) && lba in owner && owner[lba] == (i, k) && (k < INDIRECT || i in unread)
      modifies this`disk
      ensures ValidBut(unread, dirty) && disk == old(disk)[lba := s]
    {
      hide Owns, Covers, Room, FreeIn, Agree, Loaded, Synced;
      assert lba < |disk| by {
        InData(owner, blockBitmap.Used(), reserved, dataStart, lba);
        UsedInSize(blockBitmap.bits[..]);
        RoomFor(blockBitmap.Size(), reserved, dataStart, |disk|, lba - dataStart);
      }
      InData(owner, blockBitmap.Used(), reserved, dataStart, lba);
      WriteKeepsLoaded(disk, lba, s, live, blocks, owner, i, k, unread);
      WriteKeepsSynced(disk, lba, s, table, live, dirty);
      disk := disk[lba := s];
    }

    /** The sector or two of a slot are read, patched and written. */
    method WriteSlot(no: nat, record: seq<byte>)
      requires table + TABLE_SECTORS <= |disk| && no < MAX_FILES && |record| == INODE_SIZE
      modifies this`disk
      ensures SlotWritten(old(disk), disk, table, no, record)
    {
      var at := Locate(no);
      var lba := table + at.sector;
      if at.twoSectors {
        var buf := Patch(TwoSectors(disk, lba), at.offset, record);
        disk := disk[lba := buf[..512]][lba + 1 := buf[512..]];
      } else {
        disk := disk[lba := Patch(disk[lba], at.offset, record)];
      }
      PatchedSlot(old(disk), disk, table, no, record);
    }

    /** inode_sync. The record goes to the slot whose number is the low byte of the inode's number. */
    method InodeSync(ino: Inode)
      requires table + TABLE_SECTORS <= |disk|
      modifies this`disk
      ensures SlotWritten(old(disk), disk, table, ino.no % 256, Record(Pure(ino)))
    {
      WriteSlot(ino.no % 256, Record(Pure(ino)));
    }

    /** inode_delete: the record is cleared. */
    method InodeDelete(no: nat)
      requires table + TABLE_SECTORS <= |disk| && no < MAX_FILES
      modifies this`disk
      ensures SlotWritten(old(disk), disk, table, no, Zeros(INODE_SIZE))
    {
      WriteSlot(no, Zeros(INODE_SIZE));
    }

    /** bitmap_set to 0 for the block in slot k of inode i. */
    method FreeBlock(lba: u32, ghost i: nat, ghost k: nat)
      requires Layout() && Owned() && i in blocks && k < |blocks[i]| == SLOTS && blocks[i][k] == lba != 0
      modifies this`owner, this`blocks, blockBitmap.bits
      ensures Layout() && Owned()
      ensures owner == old(owner) - {lba} && lba in old(owner) && old(owner)[lba] == (i, k)
      ensures blocks == old(blocks)[i := With(old(blocks[i]), k, 0)]
    {
      hide Owns, Covers, UsedIn, Room;
      OwnerOf(owner, blocks, i, k);
      InData(owner, blockBitmap.Used(), reserved, dataStart, lba);
      UsedInSize(blockBitmap.bits[..]);
      GiveBit(owner, blockBitmap.Used(), reserved, dataStart, lba);
      GiveSlot(owner, blocks, i, k);
      blockBitmap.Set(lba - dataStart, false);
      owner := owner - {lba};
      blocks := blocks[i := With(blocks[i], k, 0)];
    }

    /** inode_sync of an open inode whose number fits its low byte. */
    method SyncOpen(i: nat)
      requires ValidBut({}, {i}) && Opened(i)
      modifies this`disk
      ensures Valid() && Contents() == old(Contents()) && |disk| == |old(disk)|
      ensures forall l | 0 <= l < |disk| && !(table <= l < table + TABLE_SECTORS) :: disk[l] == old(disk)[l]
    {
      hide Owns, Covers, Room, Agree, Loaded, Synced, Record, AllData, UsedIn, TableByte;
      AgreeAt(live, open, inodeBitmap.Used(), i);
      InodeSync(open[i]);
      RecordKeeps(old(disk), disk, table, live, i);
      RecordKeepsLoaded(old(disk), disk, table, dataStart, live, blocks, owner, blockBitmap.Used(), reserved, {});
      RecordKeepsData(old(disk), disk, dataStart, live, blocks, owner, blockBitmap.Used(), reserved);
    }
  }

  lemma ValidWeaker(part: Partition, i: nat)
    requires part.Valid()
    ensures part.ValidBut({}, {i})
  {
    SyncedWeaker(part.disk, part.table, part.live, i);
  }

  /** Every block of an inode lies on the disk. */
  lemma OnTheDisk(part: Partition, i: nat, k: nat)
    requires part.Layout() && part.Owned() && i in part.blocks && k < SLOTS
    ensures |part.blocks[i]| == SLOTS
    ensures var lba := part.blocks[i][k];
            lba != 0 ==> part.dataStart <= lba < |part.disk| && lba in part.owner && part.owner[lba] == (i, k)
  {
    hide Owns, Covers, UsedIn, Room;
    OwnerOf(part.owner, part.blocks, i, k);
    var lba := part.blocks[i][k];
    if lba != 0 {
      InData(part.owner, part.blockBitmap.Used(), part.reserved, part.dataStart, lba);
      UsedInSize(part.blockBitmap.bits[..]);
      RoomFor(part.blockBitmap.Size(), part.reserved, part.dataStart, |part.disk|, lba - part.dataStart);
    }
  }

  lemma InData(owner: map<u32, (nat, nat)>, used: set<nat>, reserved: set<nat>, dataStart: nat, lba: u32)
    requires Covers(owner, used, reserved, dataStart) && lba in owner
    ensures lba >= dataStart && lba - dataStart in used && lba - dataStart !in reserved
  {
  }
}
