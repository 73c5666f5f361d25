/** What sync_dir_entry does for a directory whose direct blocks are full: it takes the table for missing, whether it is or
    not. */
module FullDirs {
  import opened Disks
  import opened InodeTable
  import opened Bitmaps
  import opened Partitions
  import opened DirEntries
  import opened Directory
  import opened Dirs
  import Files
  import opened Wrappers

  /** All direct blocks are there, and every place in them is taken. */
  ghost predicate FullDirect(disk: seq<Sector>, slots: seq<u32>) {
    |slots| == SLOTS && (forall k | 0 <= k < 12 :: slots[k] != 0) && AllLive(DirOf(disk, slots), PLACES)
  }

  /** The slots with the table forgotten. */
  function Shortened(slots: seq<u32>): (s: seq<u32>)
    requires |slots| == SLOTS
    ensures |s| == SLOTS && s[..12] == slots[..12] && DirectOnly(s)
  {
    slots[..12] + seq(SLOTS - 12, _ => 0)
  }

  /** The blocks that are then nobody's: the table, and what is in it. */
  ghost predicate IsLost(owner: map<u32, (nat, nat)>, i: nat, l: nat) {
    l in owner && owner[l].0 == i && owner[l].1 >= 12
  }

  ghost function Remaining(owner: map<u32, (nat, nat)>, i: nat): map<u32, (nat, nat)> {
    map l | l in owner && !IsLost(owner, i, l) :: owner[l]
  }

  ghost function LostBits(owner: map<u32, (nat, nat)>, used: set<nat>, i: nat, dataStart: nat): set<nat> {
    set b | b in used && IsLost(owner, i, dataStart + b)
  }

  lemma ForgottenOwns(owner: map<u32, (nat, nat)>, blocks: map<nat, seq<u32>>, i: nat)
    requires Owns(owner, blocks) && i in blocks && |blocks[i]| == SLOTS
    ensures Owns(Remaining(owner, i), blocks[i := Shortened(blocks[i])])
  {
    var slots := Shortened(blocks[i]);
    forall k: nat | k < 12 ensures slots[k] == blocks[i][k] {
      assert slots[..12][k] == blocks[i][..12][k];
    }
  }

  lemma BitIsCovered(owner: map<u32, (nat, nat)>, used: set<nat>, reserved: set<nat>, dataStart: nat, b: nat)
    requires Covers(owner, used, reserved, dataStart) && b in used
    ensures b in reserved || dataStart + b in owner
  {
  }

  lemma OwnerIsCovered(owner: map<u32, (nat, nat)>, used: set<nat>, reserved: set<nat>, dataStart: nat, l: u32)
    requires Covers(owner, used, reserved, dataStart) && l in owner
    ensures l >= dataStart && l - dataStart in used && l - dataStart !in reserved
  {
  }

  ghost predicate BitsAreOwned(owner: map<u32, (nat, nat)>, used: set<nat>, reserved: set<nat>, dataStart: nat) {
    reserved <= used && forall b: nat | b in used :: b in reserved || dataStart + b in owner
  }

  ghost predicate OwnersHaveBits(owner: map<u32, (nat, nat)>, used: set<nat>, reserved: set<nat>, dataStart: nat) {
    forall l: u32 | l in owner :: l >= dataStart && l - dataStart in used && l - dataStart !in reserved
  }

  lemma AreCovered(owner: map<u32, (nat, nat)>, used: set<nat>, reserved: set<nat>, dataStart: nat)
    requires BitsAreOwned(owner, used, reserved, dataStart) && OwnersHaveBits(owner, used, reserved, dataStart)
    ensures Covers(owner, used, reserved, dataStart)
  {
  }

  lemma ReservedIsUsed(owner: map<u32, (nat, nat)>, used: set<nat>, reserved: set<nat>, dataStart: nat)
    requires Covers(owner, used, reserved, dataStart)
    ensures reserved <= used
  {
  }

  lemma ForgottenBits(owner: map<u32, (nat, nat)>, used: set<nat>, reserved: set<nat>, dataStart: nat, i: nat)
    requires Covers(owner, used, reserved, dataStart)
    ensures BitsAreOwned(Remaining(owner, i), used, reserved + LostBits(owner, used, i, dataStart), dataStart)
  {
    hide IsLost, Covers;
    ReservedIsUsed(owner, used, reserved, dataStart);
    forall b: nat | b in used ensures b in reserved + LostBits(owner, used, i, dataStart) || dataStart + b in Remaining(owner, i) {
      BitIsCovered(owner, used, reserved, dataStart, b);
    }
  }

  lemma ForgottenOwners(owner: map<u32, (nat, nat)>, used: set<nat>, reserved: set<nat>, dataStart: nat, i: nat)
    requires Covers(owner, used, reserved, dataStart)
    ensures OwnersHaveBits(Remaining(owner, i), used, reserved + LostBits(owner, used, i, dataStart), dataStart)
  {
    hide IsLost, Covers;
    forall l: u32 | l in Remaining(owner, i)
      ensures l >= dataStart && l - dataStart in used && l - dataStart !in reserved + LostBits(owner, used, i, dataStart)
    {
      OwnerIsCovered(owner, used, reserved, dataStart, l);
      assert dataStart + (l - dataStart) == l;
    }
  }

  lemma ForgottenCovers(owner: map<u32, (nat, nat)>, used: set<nat>, reserved: set<nat>, dataStart: nat, i: nat)
    requires Covers(owner, used, reserved, dataStart)
    ensures Covers(Remaining(owner, i), used, reserved + LostBits(owner, used, i, dataStart), dataStart)
  {
    hide Covers, BitsAreOwned, OwnersHaveBits, Remaining, LostBits;
    ForgottenBits(owner, used, reserved, dataStart, i);
    ForgottenOwners(owner, used, reserved, dataStart, i);
    AreCovered(Remaining(owner, i), used, reserved + LostBits(owner, used, i, dataStart), dataStart);
  }

  lemma ShortenedLoaded(disk: seq<Sector>, ino: Inode, slots: seq<u32>)
    requires Holds(ino, slots)
    ensures Shortened(slots) == SlotsOf(disk, ino.(sectors := With(ino.sectors, 12, 0)))
  {
    var ino1, slots1 := ino.(sectors := With(ino.sectors, 12, 0)), Shortened(slots);
    assert ino1.sectors[..12] == ino.sectors[..12];
    assert Holds(ino1, slots1);
    DirectIsLoadedToo(disk, ino1, slots1);
  }

  /** The pointer to the table is dropped, and what was reached by it stays taken. */
  method Forget(part: Partition, i: nat)
    requires part.ValidBut({}, {i}) && part.Opened(i)
    modifies part`owner, part`blocks, part`open, part`live, part`reserved
    ensures part.ValidBut({}, {i}) && |old(part.blocks[i])| == SLOTS
    ensures part.owner == Remaining(old(part.owner), i) && part.blocks == old(part.blocks)[i := Shortened(old(part.blocks[i]))]
    ensures part.reserved == old(part.reserved) + LostBits(old(part.owner), part.blockBitmap.Used(), i, part.dataStart)
    ensures part.live == old(part.live)[i := part.live[i]] && part.open == old(part.open)[i := part.live[i]]
    ensures part.live[i] == old(part.live[i]).(sectors := With(old(part.live[i]).sectors, 12, 0))
  {
    hide Owns, Covers, Room, FreeIn, Agree, Loaded, Synced, UsedIn, SlotsOf, Shortened, Remaining, LostBits;
    AgreeAt(part.live, part.open, part.inodeBitmap.Used(), i);
    LoadedHolds(part.disk, part.live, part.blocks, {}, i);
    LoadedWeaker(part.disk, part.live, part.blocks, i);
    ForgottenOwns(part.owner, part.blocks, i);
    ForgottenCovers(part.owner, part.blockBitmap.Used(), part.reserved, part.dataStart, i);
    ShortenedLoaded(part.disk, part.live[i], part.blocks[i]);
    LoadedBut(part.disk, part.live, part.blocks, {i}, i, part.live[i], Shortened(part.blocks[i]));
    MoreReserved(part.blockBitmap.Size(), part.reserved, LostBits(part.owner, part.blockBitmap.Used(), i, part.dataStart), part.dataStart, |part.disk|);
    assert part.live == part.live[i := part.live[i]];
    part.reserved := part.reserved + LostBits(part.owner, part.blockBitmap.Used(), i, part.dataStart);
    part.owner, part.blocks := Remaining(part.owner, i), part.blocks[i := Shortened(part.blocks[i])];
    var ino: Inode := part.open[i];
    part.SetInode(i, ino.(sectors := With(ino.sectors, 12, 0)), {i}, {i});
    LoadedNow(part.disk, part.live, part.blocks, i);
  }

  lemma MoreReserved(bits: nat, reserved: set<nat>, more: set<nat>, dataStart: nat, sectors: nat)
    requires Room(bits, reserved, dataStart, sectors)
    ensures Room(bits, reserved + more, dataStart, sectors)
  {
  }

  /** One entry behind those in the direct blocks, and no other. */
  function WithOneBeyond(es: seq<Entry>, e: Entry): (r: seq<Entry>)
    requires |es| == PLACES
    ensures |r| == INDIRECT * PER_SECTOR
  {
    es + [e] + seq(INDIRECT * PER_SECTOR - PLACES - 1, _ => NO_ENTRY)
  }

  lemma FindBeyond(es: seq<Entry>, e: Entry, name: string)
    requires |es| == PLACES && name != ""
    ensures Find(WithOneBeyond(es, e), name) == if Find(es, name).Some? then Find(es, name) else if e.name == name then Some(e) else None
  {
    var all, s := WithOneBeyond(es, e), PlaceOf(es, name);
    if s < PLACES {
      EndSearch(all, name, s);
    } else {
      EndSearch(all, name, if e.name == name then PLACES else |all|);
    }
  }

  /** A new table whose only block has only one entry. */
  lemma PlacesBeyond(disk0: seq<Sector>, slots0: seq<u32>, disk: seq<Sector>, slots: seq<u32>, a: u32, b: u32, table: Sector, bytes: seq<byte>)
    requires DirectOnly(slots0) && slots == With(With(slots0, INDIRECT, a), 12, b) && |bytes| == ENTRY_SIZE
    requires 0 < a < |disk0| && 0 < b < |disk0| && a != b && forall k: nat | k < 12 :: slots0[k] != a && slots0[k] != b
    requires disk == disk0[a := table][b := Patch(Zeros(SECTOR_SIZE), 0, bytes)]
    ensures PlacesOf(disk, slots) == WithOneBeyond(DirOf(disk0, slots0), EntryOf(bytes))
  {
    hide DirOf, PlacesOf, EntryAt, EntryOf, Patch, Zeros;
    var all, es := PlacesOf(disk, slots), DirOf(disk0, slots0);
    forall s | 0 <= s < INDIRECT * PER_SECTOR ensures all[s] == WithOneBeyond(es, EntryOf(bytes))[s] {
      var m, r := s / PER_SECTOR, s % PER_SECTOR;
      assert s == PER_SECTOR * m + r && m < INDIRECT;
      PlacesOfAt(disk, slots, m, r);
      if m < 12 {
        DirOfAt(disk0, slots0, m, r);
      } else if m == 12 {
        EntryPatched(Zeros(SECTOR_SIZE), 0, bytes, r);
        EmptySector(r);
      }
    }
  }

  lemma ShortenedEnds(slots: seq<u32>)
    requires |slots| == SLOTS
    ensures Shortened(slots)[INDIRECT] == Shortened(slots)[12] == 0 && forall k: nat | k < 12 :: Shortened(slots)[k] == slots[k]
  {
    forall k: nat | k < 12 ensures Shortened(slots)[k] == slots[k] {
      assert Shortened(slots)[..12][k] == slots[..12][k];
    }
  }

  method GiveTableBack(part: Partition, i: nat, a: u32)
    requires part.ValidBut({i}, {i}) && part.Opened(i) && |part.blocks[i]| == SLOTS && part.blocks[i][INDIRECT] == a != 0
    requires Holds(part.live[i], part.blocks[i]) && forall k | 12 <= k < INDIRECT :: part.blocks[i][k] == 0
    modifies part`owner, part`blocks, part`open, part`live, part.blockBitmap.bits
    ensures part.ValidBut({}, {i}) && part.owner == old(part.owner) - {a} && part.blocks == old(part.blocks)[i := With(old(part.blocks[i]), INDIRECT, 0)]
    ensures part.live == old(part.live)[i := part.live[i]] && part.open == old(part.open)[i := part.live[i]]
    ensures part.live[i] == old(part.live[i]).(sectors := With(old(part.live[i]).sectors, 12, 0))
  {
    hide Owns, Covers, Room, FreeIn, Agree, Loaded, Synced, UsedIn, SlotsOf;
    AgreeAt(part.live, part.open, part.inodeBitmap.Used(), i);
    part.FreeBlock(a, i, INDIRECT);
    LoadedBut(part.disk, part.live, old(part.blocks), {i}, i, part.live[i], part.blocks[i]);
    assert part.live == part.live[i := part.live[i]];
    var ino: Inode := part.open[i];
    part.SetInode(i, ino.(sectors := With(ino.sectors, 12, 0)), {i}, {i});
    DirectIsLoadedToo(part.disk, part.live[i], part.blocks[i]);
    LoadedNow(part.disk, part.live, part.blocks, i);
  }

  lemma SameInode(ino: Inode, ino1: Inode, slots: seq<u32>)
    requires Holds(ino, slots) && Holds(ino1, slots) && ino1 == ino.(sectors := ino1.sectors)
    ensures ino1 == ino
  {
    assert ino.sectors == ino.sectors[..12] + [ino.sectors[12]];
    assert ino1.sectors == ino1.sectors[..12] + [ino1.sectors[12]];
  }

  lemma TakenBack(owner: map<u32, (nat, nat)>, blocks: map<nat, seq<u32>>, i: nat, a: u32)
    requires a !in owner && i in blocks && DirectOnly(blocks[i])
    ensures owner[a := (i, INDIRECT)] - {a} == owner
    ensures |blocks[i]| == |With(blocks[i], INDIRECT, a)| == SLOTS && With(blocks[i], INDIRECT, a)[INDIRECT] == a
    ensures forall k | 12 <= k < INDIRECT :: With(blocks[i], INDIRECT, a)[k] == 0
    ensures var taken := With(blocks[i], INDIRECT, a);
            With(taken, INDIRECT, 0) == blocks[i] && blocks[i := taken][i := With(taken, INDIRECT, 0)] == blocks
  {
  }

  /** Of the inodes only the sectors of inode i are others. */
  ghost predicate SectorsOnly(live0: map<nat, Inode>, live: map<nat, Inode>, i: nat) {
    i in live0 && i in live && live == live0[i := live[i]] && live[i] == live0[i].(sectors := live[i].sectors)
  }

  /** Inode i has got table a with block b in it. */
  ghost predicate TableMade(owner0: map<u32, (nat, nat)>, blocks0: map<nat, seq<u32>>, owner: map<u32, (nat, nat)>, blocks: map<nat, seq<u32>>,
                            i: nat, a: nat, b: nat, sectors: nat) {
    && 0 < a < sectors <= 0x1_0000_0000 && 0 < b < sectors && a != b && a !in owner0 && b !in owner0
    && owner == owner0[a := (i, INDIRECT)][b := (i, 12 as nat)]
    && i in blocks0 && |blocks0[i]| == SLOTS && blocks == blocks0[i := With(With(blocks0[i], INDIRECT, a), 12, b)]
  }

  /** block_bitmap_alloc for the table. */
  method TableBlock(part: Partition, i: nat) returns (a: nat)
    requires part.ValidBut({}, {i}) && part.Opened(i) && part.Free() != {} && DirectOnly(part.blocks[i])
    modifies part`owner, part`blocks, part`open, part`live, part.blockBitmap.bits
    ensures part.ValidBut({i}, {i}) && part.Opened(i) && Holds(part.live[i], part.blocks[i]) && Holds(old(part.live[i]), old(part.blocks[i]))
    ensures SectorsOnly(old(part.live), part.live, i) && part.open.Keys == old(part.open).Keys
    ensures 0 < a < |part.disk| <= 0x1_0000_0000 && a !in old(part.owner) && part.owner == old(part.owner)[a := (i, INDIRECT)]
    ensures part.blocks == old(part.blocks)[i := With(old(part.blocks[i]), INDIRECT, a)] && |part.Free()| == |old(part.Free())| - 1
  {
    hide Owns, Covers, Room, FreeIn, Agree, Loaded, Synced, UsedIn, SlotsOf, Holds;
    LoadedHolds(part.disk, part.live, part.blocks, {}, i);
    LoadedWeaker(part.disk, part.live, part.blocks, i);
    AgreeAt(part.live, part.open, part.inodeBitmap.Used(), i);
    a := part.AllocSlot(i, INDIRECT);
  }

  /** block_bitmap_alloc twice, for the table and for its first block; without a second block the first is given back. */
  method TwoBlocks(part: Partition, i: nat) returns (a: int, b: int)
    requires part.ValidBut({}, {i}) && part.Opened(i) && part.Free() != {} && DirectOnly(part.blocks[i])
    modifies part`owner, part`blocks, part`open, part`live, part.blockBitmap.bits
    ensures b == -1 <==> |old(part.Free())| < 2
    ensures part.Opened(i) && SectorsOnly(old(part.live), part.live, i) && part.open.Keys == old(part.open).Keys
    ensures b == -1 ==> part.ValidBut({}, {i}) && part.live == old(part.live) && part.blocks == old(part.blocks) && part.owner == old(part.owner)
    ensures b != -1 ==>
      && a > 0 && b > 0 && part.ValidBut({i}, {i}) && Holds(part.live[i], part.blocks[i])
      && |part.Free()| == |old(part.Free())| - 2
      && TableMade(old(part.owner), old(part.blocks), part.owner, part.blocks, i, a, b, |part.disk|)
  {
    hide Owns, Covers, Room, FreeIn, Agree, Loaded, Synced, UsedIn, SlotsOf, Holds, Partition.ValidBut, DirectOnly, With;
    ghost var live0, blocks0, owner0 := part.live, part.blocks, part.owner;
    a := TableBlock(part, i);
    TakenBack(owner0, blocks0, i, a);
    OpenedAs(part, {i}, i);
    b := part.AllocSlot(i, 12);
    if b == -1 {
      GiveTableBack(part, i, a);
      HoldsStill(part, i, live0);
      SameInode(live0[i], part.live[i], blocks0[i]);
    }
  }

  lemma HoldsStill(part: Partition, i: nat, live0: map<nat, Inode>)
    requires part.ValidBut({}, {i}) && i in part.live
    ensures i in part.blocks && Holds(part.live[i], part.blocks[i])
  {
    hide Owns, Covers, Room, Agree, Synced, UsedIn, SlotsOf;
    LoadedHolds(part.disk, part.live, part.blocks, {}, i);
  }

  lemma OneInTable(all: seq<u32>, slots: seq<u32>, b: u32)
    requires |all| == INDIRECT && |slots| == SLOTS && slots[12] == b && forall k | 13 <= k < INDIRECT :: slots[k] == 0
    requires all[12..] == [b] + seq(127, _ => 0)
    ensures Files.Listed(all, slots, 12, INDIRECT)
  {
    forall k | 12 <= k < INDIRECT ensures all[k] == slots[k] {
      assert all[12..][k - 12] == all[k];
    }
  }

  /** ide_write of the table and of the block with the entry. */
  method WriteBeyond(part: Partition, i: nat, a: u32, b: u32, bytes: seq<byte>) returns (ghost table: Sector)
    requires part.ValidBut({i}, {i}) && part.Opened(i) && Holds(part.live[i], part.blocks[i]) && |bytes| == ENTRY_SIZE
    requires part.blocks[i][INDIRECT] == a != 0 && part.blocks[i][12] == b != 0 && forall k | 13 <= k < INDIRECT :: part.blocks[i][k] == 0
    modifies part`disk
    ensures part.ValidBut({}, {i}) && a < |old(part.disk)| && b < |old(part.disk)|
    ensures part.disk == old(part.disk)[a := table][b := Patch(Zeros(SECTOR_SIZE), 0, bytes)]
  {
    hide Owns, Covers, Room, FreeIn, Agree, Loaded, Synced, UsedIn, SlotsOf, Files.TableSector, Patch, Zeros;
    AgreeAt(part.live, part.open, part.inodeBitmap.Used(), i);
    var all: seq<u32> := part.open[i].sectors[..12] + ([b] + seq(127, _ => 0));
    OneInTable(all, part.blocks[i], b);
    table := Files.TableSector(all);
    Files.WriteTable(part, i, a, all);
    OnTheDisk(part, i, 12);
    part.WriteBlock(b, Patch(Zeros(SECTOR_SIZE), 0, bytes), i, 12, {}, {i});
  }

  /** bitmap_scan of block_bitmap_alloc: whether there is a block at all. */
  method HasBlock(part: Partition) returns (has: bool)
    ensures has <==> part.Free() != {}
  {
    hide UsedIn, FreeIn, HasRun, WholeTail, FirstFit;
    var bit := part.blockBitmap.Scan(1);
    OneBit(part.blockBitmap.Used(), part.blockBitmap.bits.Length);
    has := bit != -1;
  }

  lemma OpenedAs(part: Partition, unread: set<nat>, i: nat)
    requires part.ValidBut(unread, {i}) && i in part.open
    ensures i in part.live && part.open[i] == part.live[i] && part.open[i].no == i && Owns(part.owner, part.blocks)
  {
    hide Owns, Covers, Room, Loaded, Synced, UsedIn;
    AgreeAt(part.live, part.open, part.inodeBitmap.Used(), i);
  }

  lemma AllDifferent(owner: map<u32, (nat, nat)>, blocks: map<nat, seq<u32>>, i: nat, a: u32, b: u32)
    requires Owns(owner, blocks) && i in blocks && a !in owner && b !in owner && a != 0 && b != 0
    ensures |blocks[i]| == SLOTS && forall k: nat | k < SLOTS :: blocks[i][k] != a && blocks[i][k] != b
  {
    hide Owns;
    NotOwned(owner, blocks, i, a);
    NotOwned(owner, blocks, i, b);
  }

  /** The rest of it, for a directory without a table: the new table, its block and the size. */
  method NewTable(part: Partition, i: nat, e: Entry) returns (ok: bool)
    requires part.ValidBut({}, {i}) && part.Opened(i) && DirectOnly(part.blocks[i]) && IsName(e.name) && part.Free() != {}
    requires part.live[i].size + ENTRY_SIZE <= 512 * INDIRECT
    modifies part`owner, part`blocks, part`open, part`live, part`disk, part.blockBitmap.bits
    ensures part.ValidBut({}, {i}) && part.Opened(i) && part.open.Keys == old(part.open).Keys
    ensures (ok <==> |old(part.Free())| >= 2) && (ok ==> |part.Free()| == |old(part.Free())| - 2)
    ensures !ok ==> part.live == old(part.live) && part.blocks == old(part.blocks) && part.disk == old(part.disk)
    ensures ok ==> Extended(old(part.disk), old(part.live), old(part.blocks), part.disk, part.live, part.blocks, i, e)
  {
    hide Owns, Covers, Room, FreeIn, Agree, Loaded, Synced, UsedIn, SlotsOf, DirOf, PlacesOf, EntryBytes, EntryOf, WithOneBeyond,
      Partition.ValidBut, Patch, Zeros, Holds;
    ghost var slots, disk0, owner1, blocks1 := part.blocks[i], part.disk, part.owner, part.blocks;
    OpenedAs(part, {}, i);
    var a, b := TwoBlocks(part, i);
    if b == -1 {
      return false;
    }
    AllDifferent(owner1, blocks1, i, a, b);
    assert part.blocks[i][..12] == slots[..12];
    EntryOfBytes(e);
    ghost var table := WriteBeyond(part, i, a, b, EntryBytes(e));
    PlacesBeyond(disk0, slots, part.disk, part.blocks[i], a, b, table, EntryBytes(e));
    OpenedAs(part, {}, i);
    part.SetInode(i, part.open[i].(size := part.open[i].size + ENTRY_SIZE), {}, {i});
    ok := true;
  }

  /** The directory has a new table, and behind the direct blocks there is only the new entry. */
  ghost predicate Extended(disk0: seq<Sector>, live0: map<nat, Inode>, blocks0: map<nat, seq<u32>>,
                           disk: seq<Sector>, live: map<nat, Inode>, blocks: map<nat, seq<u32>>, i: nat, e: Entry) {
    && i in live0 && i in live && i in blocks0 && i in blocks && |blocks0[i]| == |blocks[i]| == SLOTS
    && live == live0[i := live[i]] && blocks == blocks0[i := blocks[i]] && blocks[i][..12] == blocks0[i][..12]
    && PlacesOf(disk, blocks[i]) == WithOneBeyond(DirOf(disk0, blocks0[i]), e) && live[i].size == live0[i].size + ENTRY_SIZE
  }

  /** Nothing has become of a directory with full direct blocks without a block; without a second one its table is gone; else it
      has a new one. */
  ghost predicate Outcome(disk0: seq<Sector>, live0: map<nat, Inode>, blocks0: map<nat, seq<u32>>, free: nat,
                          disk: seq<Sector>, live: map<nat, Inode>, blocks: map<nat, seq<u32>>, i: nat, e: Entry) {
    if free == 0 then disk == disk0 && live == live0 && blocks == blocks0
    else if free == 1 then
      && i in live0 && i in live && i in blocks0 && |blocks0[i]| == SLOTS && disk == disk0
      && live == live0[i := live[i]] && blocks == blocks0[i := Shortened(blocks0[i])] && live[i].size == live0[i].size
    else Extended(disk0, live0, blocks0, disk, live, blocks, i, e)
  }

  lemma SameDirect(disk0: seq<Sector>, live0: map<nat, Inode>, blocks0: map<nat, seq<u32>>, live1: map<nat, Inode>, blocks1: map<nat, seq<u32>>,
                   disk: seq<Sector>, live: map<nat, Inode>, blocks: map<nat, seq<u32>>, i: nat, e: Entry)
    requires i in live0 && i in blocks0 && |blocks0[i]| == SLOTS && blocks1 == blocks0[i := Shortened(blocks0[i])]
    requires i in live1 && live1 == live0[i := live1[i]] && live1[i].size == live0[i].size
    requires Extended(disk0, live1, blocks1, disk, live, blocks, i, e)
    ensures Extended(disk0, live0, blocks0, disk, live, blocks, i, e)
  {
    hide PlacesOf, WithOneBeyond, EntryAt;
    ShortenedEnds(blocks0[i]);
    assert DirOf(disk0, blocks1[i]) == DirOf(disk0, blocks0[i]);
  }

  /** sync_dir_entry for a directory whose direct blocks are full. */
  method SyncBeyond(part: Partition, i: nat, e: Entry) returns (ok: bool)
    requires part.Valid() && part.Opened(i) && FullDirect(part.disk, part.blocks[i]) && IsName(e.name)
    requires part.live[i].size + ENTRY_SIZE <= 512 * INDIRECT
    modifies part`owner, part`blocks, part`open, part`live, part`disk, part`reserved, part.blockBitmap.bits
    ensures part.ValidBut({}, {i}) && part.Opened(i) && part.open.Keys == old(part.open).Keys
    ensures (ok <==> |old(part.Free())| >= 2) && (ok ==> |part.Free()| == |old(part.Free())| - 2)
    ensures Outcome(old(part.disk), old(part.live), old(part.blocks), |old(part.Free())|, part.disk, part.live, part.blocks, i, e)
    ensures old(part.Free()) == {} ==> part.disk == old(part.disk) && part.live == old(part.live) && part.blocks == old(part.blocks)
    ensures i in old(part.blocks) && i in part.blocks && |old(part.blocks)[i]| == |part.blocks[i]| == SLOTS
    ensures |old(part.Free())| == 1 ==> part.disk == old(part.disk)
    ensures |old(part.Free())| == 1 ==> forall k | 0 <= k < SLOTS :: part.blocks[i][k] == if k < 12 then old(part.blocks)[i][k] else 0
    ensures ok ==> var places, es := PlacesOf(part.disk, part.blocks[i]), DirOf(old(part.disk), old(part.blocks)[i]);
                   places[..PLACES] == es && places[PLACES] == e && forall s | PLACES < s < |places| :: places[s] == NO_ENTRY
    ensures part.reserved == old(part.reserved) + (if old(part.Free()) == {} then {}
                             else LostBits(old(part.owner), old(part.blockBitmap.Used()), i, part.dataStart))
  {
    hide Owns, Covers, Room, FreeIn, Agree, Loaded, Synced, UsedIn, SlotsOf, DirOf, PlacesOf, Shortened, LostBits, Remaining, WithOneBeyond,
      Partition.ValidBut, Extended;
    ghost var disk0, live0, blocks0 := part.disk, part.live, part.blocks;
    ValidWeaker(part, i);
    var has := HasBlock(part);
    if !has {
      return false;
    }
    Forget(part, i);
    ghost var live1, blocks1 := part.live, part.blocks;
    ok := NewTable(part, i, e);
    if ok {
      SameDirect(disk0, live0, blocks0, live1, blocks1, part.disk, part.live, part.blocks, i, e);
    }
    OutcomeMeans(disk0, live0, blocks0, |old(part.Free())|, part.disk, part.live, part.blocks, i, e);
  }

  lemma OutcomeMeans(disk0: seq<Sector>, live0: map<nat, Inode>, blocks0: map<nat, seq<u32>>, free: nat,
                     disk: seq<Sector>, live: map<nat, Inode>, blocks: map<nat, seq<u32>>, i: nat, e: Entry)
    requires Outcome(disk0, live0, blocks0, free, disk, live, blocks, i, e) && i in blocks0 && |blocks0[i]| == SLOTS
    ensures i in blocks && |blocks[i]| == SLOTS
    ensures free == 1 ==> forall k | 0 <= k < SLOTS :: blocks[i][k] == if k < 12 then blocks0[i][k] else 0
    ensures free >= 2 ==> var places, es := PlacesOf(disk, blocks[i]), DirOf(disk0, blocks0[i]);
                          places[..PLACES] == es && places[PLACES] == e && forall s | PLACES < s < |places| :: places[s] == NO_ENTRY
  {
    hide PlacesOf, DirOf;
  }

  /** Writing the record leaves the places as they are. */
  lemma SamePlaces(part: Partition, disk0: seq<Sector>, i: nat)
    requires part.Layout() && part.Owned() && i in part.blocks
    requires |disk0| == |part.disk| && forall l | 0 <= l < |disk0| && !(part.table <= l < part.table + TABLE_SECTORS) :: part.disk[l] == disk0[l]
    ensures |part.blocks[i]| == SLOTS && PlacesOf(part.disk, part.blocks[i]) == PlacesOf(disk0, part.blocks[i])
  {
    hide Owns, Covers, Room, EntryAt, UsedIn;
    OnTheDisk(part, i, 0);
    forall s | 0 <= s < INDIRECT * PER_SECTOR ensures PlacesOf(part.disk, part.blocks[i])[s] == PlacesOf(disk0, part.blocks[i])[s] {
      OnTheDisk(part, i, s / PER_SECTOR);
    }
  }

  lemma StillFull(disk0: seq<Sector>, slots0: seq<u32>, disk: seq<Sector>, slots: seq<u32>, e: Entry)
    requires FullDirect(disk0, slots0) && |slots| == SLOTS && slots[..12] == slots0[..12]
    requires PlacesOf(disk, slots) == WithOneBeyond(DirOf(disk0, slots0), e)
    ensures FullDirect(disk, slots) && DirOf(disk, slots) == DirOf(disk0, slots0)
  {
    hide DirOf, PlacesOf;
    DirectPlaces(disk, slots);
    assert WithOneBeyond(DirOf(disk0, slots0), e)[..PLACES] == DirOf(disk0, slots0);
    forall k | 0 <= k < 12 ensures slots[k] != 0 {
      assert slots[..12][k] == slots0[..12][k];
    }
  }

  /** sync_dir_entry and inode_sync, for a directory with full direct blocks. Of what was behind the direct blocks nothing is
      found any more: a name leads where it led exactly when it is in them, and otherwise only the new one is found. */
  method AddBeyond(part: Partition, i: nat, e: Entry) returns (ok: bool)
    requires part.Valid() && part.Opened(i) && FullDirect(part.disk, part.blocks[i]) && IsName(e.name)
    requires part.live[i].size + ENTRY_SIZE <= 512 * INDIRECT
    modifies part`owner, part`blocks, part`open, part`live, part`disk, part`reserved, part.blockBitmap.bits
    ensures ok <==> |old(part.Free())| >= 2
    ensures ok ==>
      && part.Valid() && part.Opened(i) && FullDirect(part.disk, part.blocks[i]) && |part.Free()| == |old(part.Free())| - 2
      && DirOf(part.disk, part.blocks[i]) == DirOf(old(part.disk), old(part.blocks[i])) && part.live[i].size == old(part.live[i].size) + ENTRY_SIZE
      && PlacesOf(part.disk, part.blocks[i]) == WithOneBeyond(DirOf(old(part.disk), old(part.blocks[i])), e)
      && part.reserved == old(part.reserved) + LostBits(old(part.owner), old(part.blockBitmap.Used()), i, part.dataStart)
  {
    hide Owns, Covers, Room, FreeIn, Agree, Loaded, Synced, UsedIn, SlotsOf, DirOf, PlacesOf, WithOneBeyond, LostBits, AllData, FullDirect;
    IsFull(part.disk, part.blocks[i]);
    ghost var disk0, slots0 := part.disk, part.blocks[i];
    ok := SyncBeyond(part, i, e);
    if ok {
      ghost var disk1 := part.disk;
      part.SyncOpen(i);
      SamePlaces(part, disk1, i);
      StillFull(disk0, slots0, part.disk, part.blocks[i], e);
    }
  }

  lemma IsFull(disk: seq<Sector>, slots: seq<u32>)
    requires FullDirect(disk, slots)
    ensures |slots| == SLOTS
  {
  }

  /** Two entries for a directory whose direct blocks are full: the first is found until the second is added. */
  method SecondLosesFirst(part: Partition, i: nat, first: Entry, second: Entry) returns (before: Option<Entry>, after: Option<Entry>)
    requires part.Valid() && part.Opened(i) && FullDirect(part.disk, part.blocks[i]) && IsName(first.name) && IsName(second.name)
    requires part.live[i].size + 2 * ENTRY_SIZE <= 512 * INDIRECT && |part.Free()| >= 4
    requires first.name != second.name && Find(DirOf(part.disk, part.blocks[i]), first.name) == None
    modifies part`owner, part`blocks, part`open, part`live, part`disk, part`reserved, part.blockBitmap.bits
    ensures before == Some(first) && after == None
  {
    hide Owns, Covers, Room, FreeIn, Agree, Loaded, Synced, UsedIn, SlotsOf, DirOf, PlacesOf, WithOneBeyond, LostBits, FullDirect, Find,
      Partition.Valid;
    IsFull(part.disk, part.blocks[i]);
    ghost var es := DirOf(part.disk, part.blocks[i]);
    FindBeyond(es, first, first.name);
    FindBeyond(es, second, first.name);
    var ok := AddBeyond(part, i, first);
    before := SearchDirEntry(part, i, first.name);
    ok := AddBeyond(part, i, second);
    after := SearchDirEntry(part, i, first.name);
  }
}
