/** Directories on a partition: searching, adding, deleting and listing of fs/dir.c, within the 12 direct blocks but for the
    search. */
module Dirs {
  import opened Disks
  import opened InodeTable
  import opened Bitmaps
  import opened Partitions
  import opened DirEntries
  import opened Directory
  import opened Wrappers

  function PlaceAt(disk: seq<Sector>, lba: u32, j: nat): Entry
    requires j < PER_SECTOR
  {
    if lba == 0 || lba >= |disk| then NO_ENTRY else EntryAt(disk[lba], j)
  }

  /** The places of a directory: 21 in every direct block, all free in a block that is not there. */
  function DirOf(disk: seq<Sector>, slots: seq<u32>): (es: seq<Entry>)
    requires |slots| == SLOTS
    ensures |es| == PLACES
  {
    seq(PLACES, s requires 0 <= s < PLACES => PlaceAt(disk, slots[s / PER_SECTOR], s % PER_SECTOR))
  }

  lemma DirOfAt(disk: seq<Sector>, slots: seq<u32>, k: nat, j: nat)
    requires |slots| == SLOTS && k < 12 && j < PER_SECTOR
    ensures PER_SECTOR * k + j < PLACES && DirOf(disk, slots)[PER_SECTOR * k + j] == PlaceAt(disk, slots[k], j)
  {
    assert (PER_SECTOR * k + j) / PER_SECTOR == k && (PER_SECTOR * k + j) % PER_SECTOR == j;
  }

  ghost predicate HasEntry(es: seq<Entry>, k: nat)
    requires |es| == PLACES && k < 12
  {
    exists s :: PER_SECTOR * k <= s < PER_SECTOR * k + PER_SECTOR && IsLive(es[s])
  }

  ghost predicate DirectOnly(slots: seq<u32>) {
    |slots| == SLOTS && forall k | 12 <= k < SLOTS :: slots[k] == 0
  }

  /** Directory `self`: no indirect blocks, a size that counts the entries, and no block but the first without one. */
  ghost predicate DirShaped(disk: seq<Sector>, slots: seq<u32>, size: nat, self: nat) {
    && DirectOnly(slots) && slots[0] != 0 && self < 0x1_0000_0000
    && GoodDir(DirOf(disk, slots), self)
    && size == ENTRY_SIZE * Count(DirOf(disk, slots))
    && forall k | 1 <= k < 12 && slots[k] != 0 :: HasEntry(DirOf(disk, slots), k)
  }

  // ---------------------------------------------------------------- searching

  /** The inner loop of search_dir_entry: strcmp with every name in the sector. */
  method FindInSector(s: Sector, name: string) returns (j: nat)
    ensures j <= PER_SECTOR && (j < PER_SECTOR ==> EntryAt(s, j).name == name)
    ensures forall m: nat | m < j :: EntryAt(s, m).name != name
  {
    hide EntryOf;
    j := 0;
    while j < PER_SECTOR && EntryAt(s, j).name != name
      invariant j <= PER_SECTOR && forall m: nat | m < j :: EntryAt(s, m).name != name
    {
      j := j + 1;
    }
  }

  /** all_blocks as every function here builds it for a directory without a table. */
  function DirBlocks(ino: Inode): (all: seq<u32>)
    ensures |all| == INDIRECT
  {
    ino.sectors[..12] + NoWords()
  }

  lemma DirBlocksAreSlots(part: Partition, i: nat)
    requires part.Valid() && part.Opened(i) && DirectOnly(part.blocks[i])
    ensures DirBlocks(part.open[i]) == part.blocks[i][..INDIRECT] && OnDiskAll(part.disk, part.blocks[i])
  {
    hide Owns, Covers, Room, Agree, Loaded, Synced, SlotsOf, UsedIn;
    LoadedHolds(part.disk, part.live, part.blocks, {}, i);
    AgreeAt(part.live, part.open, part.inodeBitmap.Used(), i);
    var slots := part.blocks[i];
    assert slots[..INDIRECT] == slots[..12] + slots[12..INDIRECT] && slots[12..INDIRECT] == NoWords();
    forall k: nat | k < SLOTS && slots[k] != 0 ensures slots[k] < |part.disk| {
      OnTheDisk(part, i, k);
    }
  }

  ghost predicate OnDiskAll(disk: seq<Sector>, slots: seq<u32>) {
    |slots| == SLOTS && forall k: nat | k < SLOTS && slots[k] != 0 :: slots[k] < |disk|
  }

  /** The places of all the blocks that a directory could have. */
  function PlacesOf(disk: seq<Sector>, slots: seq<u32>): (es: seq<Entry>)
    requires |slots| == SLOTS
    ensures |es| == INDIRECT * PER_SECTOR
  {
    seq(INDIRECT * PER_SECTOR, s requires 0 <= s < INDIRECT * PER_SECTOR => PlaceAt(disk, slots[s / PER_SECTOR], s % PER_SECTOR))
  }

  lemma PlacesOfAt(disk: seq<Sector>, slots: seq<u32>, k: nat, j: nat)
    requires |slots| == SLOTS && k < INDIRECT && j < PER_SECTOR
    ensures PER_SECTOR * k + j < INDIRECT * PER_SECTOR && PlacesOf(disk, slots)[PER_SECTOR * k + j] == PlaceAt(disk, slots[k], j)
  {
    assert (PER_SECTOR * k + j) / PER_SECTOR == k && (PER_SECTOR * k + j) % PER_SECTOR == j;
  }

  /** The direct blocks come first. */
  lemma DirectPlaces(disk: seq<Sector>, slots: seq<u32>)
    requires |slots| == SLOTS
    ensures PlacesOf(disk, slots)[..PLACES] == DirOf(disk, slots)
    ensures DirectOnly(slots) ==> forall s | PLACES <= s < INDIRECT * PER_SECTOR :: PlacesOf(disk, slots)[s] == NO_ENTRY
  {
    hide EntryAt;
  }

  lemma FindInDirect(disk: seq<Sector>, slots: seq<u32>, name: string)
    requires DirectOnly(slots) && name != ""
    ensures Find(PlacesOf(disk, slots), name) == Find(DirOf(disk, slots), name)
  {
    hide PlacesOf, DirOf;
    DirectPlaces(disk, slots);
    var all, es := PlacesOf(disk, slots), DirOf(disk, slots);
    var s := PlaceOf(es, name);
    forall t | 0 <= t < s ensures all[t].name != name {
      assert all[..PLACES][t] == es[t];
    }
    if s < PLACES {
      assert all[..PLACES][s] == es[s];
      EndSearch(all, name, s);
    } else {
      EndSearch(all, name, |all|);
    }
  }

  ghost predicate NotBefore(es: seq<Entry>, name: string, s: nat) {
    s <= |es| && forall t | 0 <= t < s :: es[t].name != name
  }

  lemma SearchedBlock(disk: seq<Sector>, slots: seq<u32>, k: nat, j: nat, name: string)
    requires |slots| == SLOTS && k < INDIRECT && j <= PER_SECTOR && NotBefore(PlacesOf(disk, slots), name, PER_SECTOR * k) && name != ""
    requires slots[k] == 0 || (slots[k] < |disk| && forall m: nat | m < j :: EntryAt(disk[slots[k]], m).name != name)
    ensures NotBefore(PlacesOf(disk, slots), name, PER_SECTOR * k + j)
  {
    hide PlacesOf, EntryAt;
    var es := PlacesOf(disk, slots);
    forall t | PER_SECTOR * k <= t < PER_SECTOR * k + j ensures es[t].name != name {
      PlacesOfAt(disk, slots, k, t - PER_SECTOR * k);
    }
  }

  /** all_blocks as search_dir_entry builds it, with the table read. */
  function AllBlocks(disk: seq<Sector>, ino: Inode): (all: seq<u32>)
    ensures |all| == INDIRECT
  {
    ino.sectors[..12] + TableWords(disk, ino.sectors[12])
  }

  lemma AllBlocksAreSlots(part: Partition, i: nat)
    requires part.Valid() && part.Opened(i)
    ensures |part.blocks[i]| == SLOTS && AllBlocks(part.disk, part.open[i]) == part.blocks[i][..INDIRECT] && OnDiskAll(part.disk, part.blocks[i])
  {
    hide Owns, Covers, Room, Agree, Loaded, Synced, SlotsOf, UsedIn;
    LoadedHolds(part.disk, part.live, part.blocks, {}, i);
    AgreeAt(part.live, part.open, part.inodeBitmap.Used(), i);
    var slots := part.blocks[i];
    assert slots[..INDIRECT] == slots[..12] + slots[12..INDIRECT];
    forall k: nat | k < SLOTS && slots[k] != 0 ensures slots[k] < |part.disk| {
      OnTheDisk(part, i, k);
    }
  }

  /** search_dir_entry. */
  method SearchDirEntry(part: Partition, i: nat, name: string) returns (r: Option<Entry>)
    requires part.Valid() && part.Opened(i) && name != ""
    ensures |part.blocks[i]| == SLOTS && r == Find(PlacesOf(part.disk, part.blocks[i]), name)
    ensures DirectOnly(part.blocks[i]) ==> r == Find(DirOf(part.disk, part.blocks[i]), name)
  {
    hide Owns, Covers, Room, Agree, Loaded, Synced, SlotsOf, PlacesOf, DirOf, EntryAt, Find, NotBefore, AllBlocks, UsedIn;
    AllBlocksAreSlots(part, i);
    ghost var slots := part.blocks[i];
    ghost var es := PlacesOf(part.disk, slots);
    var disk, all := part.disk, AllBlocks(part.disk, part.open[i]);
    if DirectOnly(slots) {
      FindInDirect(disk, slots, name);
    }
    var k := 0;
    StartSearch(es, name);
    while k < 140
      invariant k <= 140 && NotBefore(es, name, PER_SECTOR * k)
    {
      assert all[k] == slots[k];
      if all[k] == 0 {
        SearchedBlock(disk, slots, k, PER_SECTOR, name);
      } else {
        var j := FindInSector(disk[all[k]], name);
        SearchedBlock(disk, slots, k, j, name);
        if j < PER_SECTOR {
          PlacesOfAt(disk, slots, k, j);
          EndSearch(es, name, PER_SECTOR * k + j);
          return Some(EntryAt(disk[all[k]], j));
        }
      }
      k := k + 1;
    }
    EndSearch(es, name, |es|);
    return None;
  }

  lemma StartSearch(es: seq<Entry>, name: string)
    ensures NotBefore(es, name, 0)
  {
  }

  lemma EndSearch(es: seq<Entry>, name: string, s: nat)
    requires NotBefore(es, name, s) && (s < |es| ==> es[s].name == name)
    ensures Find(es, name) == if s < |es| then Some(es[s]) else None
  {
  }

  // ---------------------------------------------------------------- adding

  /** Only inode i's own sectors differ, and only it may own others than before. */
  ghost predicate KeepsOthers(disk0: seq<Sector>, owner0: map<u32, (nat, nat)>, disk: seq<Sector>, i: nat) {
    |disk| == |disk0| && forall l | l in owner0 && owner0[l].0 != i && l < |disk0| :: disk[l] == disk0[l]
  }

  /** The places of other directories and the data of other files are then as they were. */
  lemma OthersSeeNothing(disk0: seq<Sector>, owner0: map<u32, (nat, nat)>, blocks0: map<nat, seq<u32>>, disk: seq<Sector>,
                         blocks: map<nat, seq<u32>>, i: nat, j: nat, size: nat)
    requires KeepsOthers(disk0, owner0, disk, i) && Owns(owner0, blocks0) && disk0 != [] && disk[0] == disk0[0]
    requires j != i && j in blocks0 && j in blocks && blocks[j] == blocks0[j] && size <= 512 * INDIRECT
    ensures |blocks[j]| == SLOTS
    ensures DirOf(disk, blocks[j]) == DirOf(disk0, blocks0[j])
    ensures Data(disk, blocks[j], size) == Data(disk0, blocks0[j], size)
  {
    hide Owns, EntryAt;
    OwnerOf(owner0, blocks0, j, 0);
    forall k: nat | k < SLOTS && blocks[j][k] < |disk0| ensures disk[blocks[j][k]] == disk0[blocks[j][k]] {
      OwnerOf(owner0, blocks0, j, k);
    }
    SameData(disk0, disk, blocks[j], size);
    forall s | 0 <= s < PLACES ensures DirOf(disk, blocks[j])[s] == DirOf(disk0, blocks0[j])[s] {
      assert s / PER_SECTOR < 12;
    }
  }

  /** The inner loop of sync_dir_entry: the first free place in the sector. */
  method FreeInSector(s: Sector) returns (j: nat)
    ensures j <= PER_SECTOR && (j < PER_SECTOR ==> !IsLive(EntryAt(s, j)))
    ensures forall m: nat | m < j :: IsLive(EntryAt(s, m))
  {
    hide EntryOf;
    j := 0;
    while j < PER_SECTOR && EntryAt(s, j).kind != FT_UNKNOWN
      invariant j <= PER_SECTOR && forall m: nat | m < j :: IsLive(EntryAt(s, m))
    {
      j := j + 1;
    }
  }

  ghost predicate AllLive(es: seq<Entry>, s: nat) {
    s <= |es| && forall t | 0 <= t < s :: IsLive(es[t])
  }

  lemma LiveBlock(disk: seq<Sector>, slots: seq<u32>, k: nat, j: nat)
    requires |slots| == SLOTS && k < 12 && j <= PER_SECTOR && AllLive(DirOf(disk, slots), PER_SECTOR * k)
    requires j == 0 || (slots[k] < |disk| && slots[k] != 0 && forall m: nat | m < j :: IsLive(EntryAt(disk[slots[k]], m)))
    ensures AllLive(DirOf(disk, slots), PER_SECTOR * k + j)
  {
    hide DirOf, EntryAt;
    var es := DirOf(disk, slots);
    forall t | PER_SECTOR * k <= t < PER_SECTOR * k + j ensures IsLive(es[t]) {
      DirOfAt(disk, slots, k, t - PER_SECTOR * k);
    }
  }

  lemma FreePlaceIs(es: seq<Entry>, s: nat)
    requires AllLive(es, s) && s < |es| && !IsLive(es[s])
    ensures FreePlace(es) == s
  {
  }

  lemma AllLiveBefore(es: seq<Entry>, s: nat)
    requires AllLive(es, s) && FreePlace(es) < |es|
    ensures s <= FreePlace(es)
  {
  }

  /** An entry written into an existing block. */
  lemma DirPatched(disk: seq<Sector>, slots: seq<u32>, k: nat, j: nat, bytes: seq<byte>)
    requires |slots| == SLOTS && k < 12 && j < PER_SECTOR && 0 < slots[k] < |disk| && |bytes| == ENTRY_SIZE
    requires forall m: nat | m < 12 && m != k :: slots[m] != slots[k]
    ensures DirOf(disk[slots[k] := Patch(disk[slots[k]], ENTRY_SIZE * j, bytes)], slots)
            == DirOf(disk, slots)[PER_SECTOR * k + j := EntryOf(bytes)]
  {
    hide DirOf, EntryAt, EntryOf, Patch;
    var s: Sector := Patch(disk[slots[k]], ENTRY_SIZE * j, bytes);
    var d := disk[slots[k] := s];
    var es, fs := DirOf(disk, slots), DirOf(d, slots);
    forall t | 0 <= t < PLACES ensures fs[t] == es[PER_SECTOR * k + j := EntryOf(bytes)][t] {
      var m, r := t / PER_SECTOR, t % PER_SECTOR;
      assert t == PER_SECTOR * m + r && m < 12;
      DirOfAt(disk, slots, m, r);
      DirOfAt(d, slots, m, r);
      EntryPatched(disk[slots[k]], j, bytes, r);
      assert t == PER_SECTOR * k + j <==> m == k && r == j;
    }
  }

  /** A block with one entry where there was none. */
  lemma DirExtended(disk: seq<Sector>, slots: seq<u32>, k: nat, lba: u32, bytes: seq<byte>)
    requires |slots| == SLOTS && k < 12 && slots[k] == 0 && 0 < lba < |disk| && |bytes| == ENTRY_SIZE
    requires forall m: nat | m < 12 :: slots[m] != lba
    ensures DirOf(disk[lba := Patch(Zeros(SECTOR_SIZE), 0, bytes)], With(slots, k, lba))
            == DirOf(disk, slots)[PER_SECTOR * k := EntryOf(bytes)]
  {
    hide DirOf, EntryAt, EntryOf, Patch, Zeros;
    var s: Sector := Patch(Zeros(SECTOR_SIZE), ENTRY_SIZE * 0, bytes);
    var d := disk[lba := s];
    var slots1 := With(slots, k, lba);
    var es, fs := DirOf(disk, slots), DirOf(d, slots1);
    forall t | 0 <= t < PLACES ensures fs[t] == es[PER_SECTOR * k := EntryOf(bytes)][t] {
      var m, r := t / PER_SECTOR, t % PER_SECTOR;
      assert t == PER_SECTOR * m + r && m < 12;
      DirOfAt(disk, slots, m, r);
      DirOfAt(d, slots1, m, r);
      EntryPatched(Zeros(SECTOR_SIZE), 0, bytes, r);
      EmptySector(r);
      assert t == PER_SECTOR * k <==> m == k && r == 0;
    }
  }

  lemma HasEntryKept(es: seq<Entry>, fs: seq<Entry>, k: nat)
    requires |es| == |fs| == PLACES && k < 12 && HasEntry(es, k)
    requires forall s | PER_SECTOR * k <= s < PER_SECTOR * k + PER_SECTOR && IsLive(es[s]) :: IsLive(fs[s])
    ensures HasEntry(fs, k)
  {
    var s :| PER_SECTOR * k <= s < PER_SECTOR * k + PER_SECTOR && IsLive(es[s]);
    assert IsLive(fs[s]);
  }

  lemma InsertedShape(disk: seq<Sector>, slots: seq<u32>, size: nat, self: nat, e: Entry, disk1: seq<Sector>, slots1: seq<u32>)
    requires DirShaped(disk, slots, size, self) && CanAdd(DirOf(disk, slots), e) && FreePlace(DirOf(disk, slots)) < PLACES
    requires DirectOnly(slots1) && DirOf(disk1, slots1) == Insert(DirOf(disk, slots), e)
    requires forall k: nat | k < 12 && k != FreePlace(DirOf(disk, slots)) / PER_SECTOR :: slots1[k] == slots[k]
    requires slots[0] != 0 ==> slots1[0] != 0
    ensures DirShaped(disk1, slots1, size + ENTRY_SIZE, self)
  {
    hide DirOf, GoodDir, CanAdd;
    var es, fs := DirOf(disk, slots), DirOf(disk1, slots1);
    var s := FreePlace(es);
    InsertIsGood(es, self, e);
    assert IsLive(e) by { CanAddIsLive(es, e); }
    forall k | 1 <= k < 12 && slots1[k] != 0 ensures HasEntry(fs, k) {
      if k == s / PER_SECTOR {
        assert PER_SECTOR * k <= s < PER_SECTOR * k + PER_SECTOR && IsLive(fs[s]);
      } else {
        HasEntryKept(es, fs, k);
      }
    }
  }

  lemma CanAddIsLive(es: seq<Entry>, e: Entry)
    requires CanAdd(es, e)
    ensures IsLive(e) && IsName(e.name)
  {
  }

  /** 24 bytes of an existing block of a directory are rewritten. */
  method PatchEntry(part: Partition, i: nat, lba: u32, ghost k: nat, j: nat, bytes: seq<byte>)
    requires part.ValidBut({}, {i}) && part.Opened(i) && k < 12 && j < PER_SECTOR && |bytes| == ENTRY_SIZE
    requires |part.blocks[i]| == SLOTS && part.blocks[i][k] == lba != 0
    modifies part`disk
    ensures part.ValidBut({}, {i}) && KeepsOthers(old(part.disk), part.owner, part.disk, i) && part.disk[0] == old(part.disk)[0]
    ensures DirOf(part.disk, part.blocks[i]) == DirOf(old(part.disk), part.blocks[i])[PER_SECTOR * k + j := EntryOf(bytes)]
  {
    hide Owns, Covers, Room, Agree, Loaded, Synced, SlotsOf, DirOf, EntryOf;
    OnTheDisk(part, i, k);
    OnlySlot(part.owner, part.blocks, i, k);
    DirPatched(part.disk, part.blocks[i], k, j, bytes);
    part.WriteBlock(lba, Patch(part.disk[lba], ENTRY_SIZE * j, bytes), i, k, {}, {i});
  }

  lemma DirectIsLoadedToo(disk: seq<Sector>, ino: Inode, slots: seq<u32>)
    requires Holds(ino, slots) && DirectOnly(slots)
    ensures slots == SlotsOf(disk, ino)
  {
    assert slots == slots[..12] + slots[12..INDIRECT] + [slots[INDIRECT]];
    assert slots[12..INDIRECT] == NoWords();
  }

  /** A block is allocated for slot k of a directory, with one entry in it. */
  method AddBlock(part: Partition, i: nat, k: nat, bytes: seq<byte>) returns (ok: bool)
    requires part.ValidBut({}, {i}) && part.Opened(i) && k < 12 && |bytes| == ENTRY_SIZE
    requires DirectOnly(part.blocks[i]) && part.blocks[i][k] == 0
    modifies part`owner, part`blocks, part`open, part`live, part`disk, part.blockBitmap.bits
    ensures ok <==> old(part.Free()) != {}
    ensures ok ==> |part.Free()| == |old(part.Free())| - 1
    ensures part.ValidBut({}, {i}) && part.Opened(i)
    ensures part.live == old(part.live)[i := old(part.live[i]).(sectors := part.live[i].sectors)] && part.open == old(part.open)[i := part.live[i]]
    ensures ok ==> part.blocks == old(part.blocks)[i := part.blocks[i]] && DirectOnly(part.blocks[i])
                   && (forall m: nat | m < 12 && m != k :: part.blocks[i][m] == old(part.blocks[i])[m]) && part.blocks[i][k] != 0
                   && KeepsOthers(old(part.disk), old(part.owner), part.disk, i) && part.disk[0] == old(part.disk)[0]
                   && DirOf(part.disk, part.blocks[i]) == DirOf(old(part.disk), old(part.blocks[i]))[PER_SECTOR * k := EntryOf(bytes)]
    ensures !ok ==> part.blocks == old(part.blocks) && part.disk == old(part.disk) && part.live == old(part.live)
  {
    hide Owns, Covers, Room, FreeIn, Agree, Loaded, Synced, SlotsOf, DirOf, EntryOf, UsedIn;
    ghost var slots := part.blocks[i];
    LoadedHolds(part.disk, part.live, part.blocks, {}, i);
    LoadedWeaker(part.disk, part.live, part.blocks, i);
    AgreeAt(part.live, part.open, part.inodeBitmap.Used(), i);
    var lba := part.AllocSlot(i, k);
    if lba == -1 {
      return false;
    }
    NotOwned(old(part.owner), old(part.blocks), i, lba);
    DirExtended(part.disk, slots, k, lba, bytes);
    part.WriteBlock(lba, Patch(Zeros(SECTOR_SIZE), 0, bytes), i, k, {i}, {i});
    DirectIsLoadedToo(part.disk, part.live[i], part.blocks[i]);
    LoadedNow(part.disk, part.live, part.blocks, i);
    return true;
  }

  /** What any change of directory i leaves alone: all that is not its own, and its first block. */
  twostate predicate OnlyDir(part: Partition, i: nat)
    reads part
  {
    && part.Opened(i) && part.open[i] == part.live[i] && part.open.Keys == old(part.open).Keys && i in old(part.live) && i in old(part.blocks)
    && part.live == old(part.live)[i := part.live[i]] && part.blocks == old(part.blocks)[i := part.blocks[i]]
    && part.live[i] == old(part.live[i]).(size := part.live[i].size, sectors := part.live[i].sectors)
    && part.disk != [] && old(part.disk) != [] && part.disk[0] == old(part.disk)[0]
    && KeepsOthers(old(part.disk), old(part.owner), part.disk, i)
    && |part.blocks[i]| == |old(part.blocks)[i]| == SLOTS && (old(part.blocks)[i][0] != 0 ==> part.blocks[i][0] == old(part.blocks)[i][0])
  }

  lemma ShapeBounds(disk: seq<Sector>, slots: seq<u32>, size: nat, self: nat)
    requires DirShaped(disk, slots, size, self)
    ensures size <= ENTRY_SIZE * PLACES && DirectOnly(slots) && slots[0] != 0
  {
    hide DirOf, GoodDir;
  }

  /** The loops of sync_dir_entry that look for a free place: block k is not there, or place j in it is free. */
  method FindFreePlace(disk: seq<Sector>, all: seq<u32>, ghost slots: seq<u32>) returns (k: nat, j: nat)
    requires DirectOnly(slots) && OnDiskAll(disk, slots) && |all| == INDIRECT && all == slots[..INDIRECT]
    requires FreePlace(DirOf(disk, slots)) < PLACES
    ensures k < 12 && j < PER_SECTOR && FreePlace(DirOf(disk, slots)) == PER_SECTOR * k + j && (all[k] == 0 ==> j == 0)
  {
    hide DirOf, EntryOf, AllLive, EntryAt;
    ghost var es := DirOf(disk, slots);
    k := 0;
    AllLiveStart(es);
    while k < 12
      invariant k <= 12 && AllLive(es, PER_SECTOR * k)
    {
      DirOfAt(disk, slots, k, 0);
      assert all[k] == slots[k];
      if all[k] == 0 {
        FreePlaceIs(es, PER_SECTOR * k);
        return k, 0;
      }
      j := FreeInSector(disk[all[k]]);
      LiveBlock(disk, slots, k, j);
      if j < PER_SECTOR {
        DirOfAt(disk, slots, k, j);
        FreePlaceIs(es, PER_SECTOR * k + j);
        return;
      }
      k := k + 1;
    }
    AllLiveBefore(es, PLACES);
    assert false;
  }

  /** The entry's bytes go to place j of block k, which is allocated if it is not there. */
  method PutEntry(part: Partition, i: nat, lba: u32, k: nat, j: nat, bytes: seq<byte>) returns (ok: bool)
    requires part.ValidBut({}, {i}) && part.Opened(i) && k < 12 && j < PER_SECTOR && |bytes| == ENTRY_SIZE
    requires DirectOnly(part.blocks[i]) && part.blocks[i][k] == lba && (lba == 0 ==> j == 0)
    modifies part`owner, part`blocks, part`open, part`live, part`disk, part.blockBitmap.bits
    ensures ok <==> lba != 0 || old(part.Free()) != {}
    ensures ok && lba == 0 ==> |part.Free()| == |old(part.Free())| - 1
    ensures part.ValidBut({}, {i}) && OnlyDir(part, i) && part.live[i].size == old(part.live[i]).size
    ensures ok ==> DirectOnly(part.blocks[i]) && (forall m: nat | m < 12 && m != k :: part.blocks[i][m] == old(part.blocks[i])[m])
                   && part.blocks[i][k] != 0
                   && DirOf(part.disk, part.blocks[i]) == DirOf(old(part.disk), old(part.blocks[i]))[PER_SECTOR * k + j := EntryOf(bytes)]
    ensures !ok ==> part.blocks == old(part.blocks) && part.disk == old(part.disk) && part.live == old(part.live)
  {
    hide Owns, Covers, Room, FreeIn, Agree, Loaded, Synced, SlotsOf, DirOf, EntryOf, UsedIn;
    AgreeAt(part.live, part.open, part.inodeBitmap.Used(), i);
    if lba == 0 {
      ok := AddBlock(part, i, k, bytes);
    } else {
      PatchEntry(part, i, lba, k, j, bytes);
      ok := true;
    }
  }

  /** sync_dir_entry, for a directory that still has a free place in or for its direct blocks: the entry goes to the first
      one. It fails only if that place is in a block that is yet to be allocated and there is none. */
  method SyncDirEntry(part: Partition, i: nat, e: Entry) returns (ok: bool)
    requires part.Valid() && part.Opened(i) && DirShaped(part.disk, part.blocks[i], part.live[i].size, i)
    requires CanAdd(DirOf(part.disk, part.blocks[i]), e) && FreePlace(DirOf(part.disk, part.blocks[i])) < PLACES
    modifies part`owner, part`blocks, part`open, part`live, part`disk, part.blockBitmap.bits
    ensures part.ValidBut({}, {i}) && OnlyDir(part, i)
    ensures var es := DirOf(old(part.disk), old(part.blocks[i]));
            && (ok <==> old(part.blocks[i])[FreePlace(es) / PER_SECTOR] != 0 || old(part.Free()) != {})
            && (ok ==> DirOf(part.disk, part.blocks[i]) == Insert(es, e))
            && (ok ==> DirShaped(part.disk, part.blocks[i], part.live[i].size, i))
    ensures !ok ==> part.live == old(part.live) && part.blocks == old(part.blocks) && part.disk == old(part.disk)
  {
    hide Owns, Covers, Room, FreeIn, Agree, Loaded, Synced, SlotsOf, DirOf, EntryOf, UsedIn, DirShaped, CanAdd, EntryBytes, GoodDir;
    ghost var slots, size, disk0 := part.blocks[i], part.live[i].size, part.disk;
    ShapeBounds(part.disk, slots, size, i);
    CanAddIsLive(DirOf(part.disk, slots), e);
    EntryOfBytes(e);
    AgreeAt(part.live, part.open, part.inodeBitmap.Used(), i);
    ValidWeaker(part, i);
    DirBlocksAreSlots(part, i);
    hide Partition.ValidBut, DirBlocks;
    var all := DirBlocks(part.open[i]);
    var k, j := FindFreePlace(part.disk, all, slots);
    assert all[k] == slots[k];
    ok := PutEntry(part, i, all[k], k, j, EntryBytes(e));
    if ok {
      InsertedShape(disk0, slots, size, i, e, part.disk, part.blocks[i]);
      part.SetInode(i, part.open[i].(size := part.open[i].size + ENTRY_SIZE), {}, {i});
    }
  }

  lemma AllLiveStart(es: seq<Entry>)
    ensures AllLive(es, 0)
  {
  }

  // ---------------------------------------------------------------- deleting

  predicate IsEntry(e: Entry) {
    IsLive(e) && !IsDots(e.name)
  }

  /** The inner loop of delete_dir_entry: the place of the entry with that inode number, how many entries there are
      besides the dots, and whether "." is among them. p and q are two different places of entries, if there are two. */
  method ScanSector(s: Sector, ino: u32) returns (found: nat, count: nat, first: bool, ghost p: nat, ghost q: nat)
    requires forall m: nat, n: nat | m < n < PER_SECTOR :: !(IsLink(EntryAt(s, m), ino) && IsLink(EntryAt(s, n), ino))
    ensures found <= PER_SECTOR && (found < PER_SECTOR ==> IsLink(EntryAt(s, found), ino) && count >= 1)
    ensures forall m: nat | m < PER_SECTOR && IsLink(EntryAt(s, m), ino) :: m == found
    ensures count == 1 ==> p < PER_SECTOR && forall m: nat | m < PER_SECTOR && IsEntry(EntryAt(s, m)) :: m == p
    ensures count >= 2 ==> p < q < PER_SECTOR && IsEntry(EntryAt(s, p)) && IsEntry(EntryAt(s, q))
    ensures first <==> exists m: nat :: m < PER_SECTOR && IsLive(EntryAt(s, m)) && EntryAt(s, m).name == "."
  {
    hide EntryOf;
    found, count, first := PER_SECTOR, 0, false;
    var j := 0;
    p, q := 0, 0;
    while j < PER_SECTOR
      invariant j <= PER_SECTOR && (found < j || found == PER_SECTOR)
      invariant found < j ==> IsLink(EntryAt(s, found), ino) && count >= 1
      invariant forall m: nat | m < j && IsLink(EntryAt(s, m), ino) :: m == found
      invariant count == 0 ==> forall m: nat | m < j :: !IsEntry(EntryAt(s, m))
      invariant count == 1 ==> p < j && forall m: nat | m < j && IsEntry(EntryAt(s, m)) :: m == p
      invariant count >= 1 ==> p < j && IsEntry(EntryAt(s, p))
      invariant count >= 2 ==> p < q < j && IsEntry(EntryAt(s, q))
      invariant first <==> exists m: nat :: m < j && IsLive(EntryAt(s, m)) && EntryAt(s, m).name == "."
    {
      var e := EntryAt(s, j);
      if e.kind != FT_UNKNOWN {
        if e.name == "." {
          first := true;
        } else if e.name != ".." {
          count := count + 1;
          if count == 1 { p := j; } else if count == 2 { q := j; }
          if e.ino == ino {
            assert found == PER_SECTOR;
            found := j;
          }
        }
      }
      j := j + 1;
    }
  }

  ghost predicate NoLink(es: seq<Entry>, ino: u32, s: nat) {
    s <= |es| && forall t | 0 <= t < s :: !IsLink(es[t], ino)
  }

  lemma NoLinkBlock(disk: seq<Sector>, slots: seq<u32>, k: nat, j: nat, ino: u32)
    requires |slots| == SLOTS && k < 12 && j <= PER_SECTOR && NoLink(DirOf(disk, slots), ino, PER_SECTOR * k)
    requires slots[k] == 0 || (slots[k] < |disk| && forall m: nat | m < j :: !IsLink(EntryAt(disk[slots[k]], m), ino))
    ensures NoLink(DirOf(disk, slots), ino, PER_SECTOR * k + j)
  {
    hide DirOf, EntryAt;
    var es := DirOf(disk, slots);
    forall t | PER_SECTOR * k <= t < PER_SECTOR * k + j ensures !IsLink(es[t], ino) {
      DirOfAt(disk, slots, k, t - PER_SECTOR * k);
    }
  }

  lemma LinkPlaceIs(es: seq<Entry>, ino: u32, s: nat)
    requires NoLink(es, ino, s) && (s < |es| ==> IsLink(es[s], ino))
    ensures LinkPlace(es, ino) == s
  {
  }

  /** Inode numbers are not in a directory twice, so not in one of its sectors. */
  lemma OneLink(disk: seq<Sector>, slots: seq<u32>, self: u32, k: nat, ino: u32)
    requires |slots| == SLOTS && k < 12 && GoodDir(DirOf(disk, slots), self) && 0 < slots[k] < |disk|
    ensures forall m: nat, n: nat | m < n < PER_SECTOR ::
              !(IsLink(EntryAt(disk[slots[k]], m), ino) && IsLink(EntryAt(disk[slots[k]], n), ino))
  {
    hide DirOf, EntryAt;
    forall m: nat, n: nat | m < n < PER_SECTOR
      ensures !(IsLink(EntryAt(disk[slots[k]], m), ino) && IsLink(EntryAt(disk[slots[k]], n), ino))
    {
      DirOfAt(disk, slots, k, m);
      DirOfAt(disk, slots, k, n);
    }
  }

  /** What the search of delete_dir_entry knows of the sector it stopped at: whether the entry is alone in a block that
      is not the first. */
  ghost predicate Alone(es: seq<Entry>, k: nat, j: nat, alone: bool)
    requires |es| == PLACES && k < 12 && j < PER_SECTOR
  {
    if alone then k > 0 && forall s | PER_SECTOR * k <= s < PER_SECTOR * k + PER_SECTOR && s != PER_SECTOR * k + j :: !IsLive(es[s])
    else k == 0 || exists s :: PER_SECTOR * k <= s < PER_SECTOR * k + PER_SECTOR && s != PER_SECTOR * k + j && IsLive(es[s])
  }

  lemma IsAlone(disk: seq<Sector>, slots: seq<u32>, self: u32, k: nat, j: nat, ino: u32, count: nat, first: bool, p: nat, q: nat)
    requires |slots| == SLOTS && k < 12 && j < PER_SECTOR && GoodDir(DirOf(disk, slots), self) && 0 < slots[k] < |disk|
    requires var s := disk[slots[k]];
      && IsLink(EntryAt(s, j), ino) && count >= 1
      && (count == 1 ==> p < PER_SECTOR && forall m: nat | m < PER_SECTOR && IsEntry(EntryAt(s, m)) :: m == p)
      && (count >= 2 ==> p < q < PER_SECTOR && IsEntry(EntryAt(s, p)) && IsEntry(EntryAt(s, q)))
      && (first <==> exists m: nat :: m < PER_SECTOR && IsLive(EntryAt(s, m)) && EntryAt(s, m).name == ".")
    ensures Alone(DirOf(disk, slots), k, j, count == 1 && !first)
  {
    hide DirOf, EntryAt;
    var es := DirOf(disk, slots);
    forall m: nat | m < PER_SECTOR ensures es[PER_SECTOR * k + m] == EntryAt(disk[slots[k]], m) {
      DirOfAt(disk, slots, k, m);
    }
    if k == 0 {
      assert es[PER_SECTOR * 0 + 0].name == ".";
      assert IsLive(EntryAt(disk[slots[k]], 0)) && EntryAt(disk[slots[k]], 0).name == ".";
    } else {
      assert !first;
      if count >= 2 {
        var r := if p == j then q else p;
        assert IsLive(es[PER_SECTOR * k + r]);
      } else {
        forall s | PER_SECTOR * k <= s < PER_SECTOR * k + PER_SECTOR && s != PER_SECTOR * k + j ensures !IsLive(es[s]) {
          var m := s - PER_SECTOR * k;
          assert es[PER_SECTOR * k + m] == EntryAt(disk[slots[k]], m);
          assert !IsDots(es[s].name);
        }
      }
    }
  }

  lemma DeletedShape(disk: seq<Sector>, slots: seq<u32>, size: nat, self: nat, ino: u32, k: nat, j: nat, alone: bool,
                     disk1: seq<Sector>, slots1: seq<u32>)
    requires DirShaped(disk, slots, size, self) && Located(DirOf(disk, slots), ino, k, j, alone)
    requires |slots1| == SLOTS && DirOf(disk1, slots1) == DirOf(disk, slots)[PER_SECTOR * k + j := NO_ENTRY]
    requires slots1 == if alone then With(slots, k, 0) else slots
    ensures size >= ENTRY_SIZE && DirShaped(disk1, slots1, size - ENTRY_SIZE, self)
    ensures DirOf(disk1, slots1) == Delete(DirOf(disk, slots), ino)
  {
    hide DirOf, GoodDir;
    var es, fs := DirOf(disk, slots), DirOf(disk1, slots1);
    DeleteIsGood(es, self, ino);
    forall m | 1 <= m < 12 && slots1[m] != 0 ensures HasEntry(fs, m) {
      if m == k {
        var t :| PER_SECTOR * k <= t < PER_SECTOR * k + PER_SECTOR && t != PER_SECTOR * k + j && IsLive(es[t]);
        assert IsLive(fs[t]);
      } else {
        HasEntryKept(es, fs, m);
      }
    }
  }

  /** A block whose other places are all free is taken out of the directory. */
  lemma DirDropped(disk: seq<Sector>, slots: seq<u32>, self: u32, k: nat, j: nat)
    requires |slots| == SLOTS && 1 <= k < 12 && j < PER_SECTOR && GoodDir(DirOf(disk, slots), self) && Alone(DirOf(disk, slots), k, j, true)
    ensures DirOf(disk, With(slots, k, 0)) == DirOf(disk, slots)[PER_SECTOR * k + j := NO_ENTRY]
  {
    hide DirOf;
    var es, fs := DirOf(disk, slots), DirOf(disk, With(slots, k, 0));
    forall t | 0 <= t < PLACES ensures fs[t] == es[PER_SECTOR * k + j := NO_ENTRY][t] {
      var m, r := t / PER_SECTOR, t % PER_SECTOR;
      assert t == PER_SECTOR * m + r && m < 12;
      DirOfAt(disk, slots, m, r);
      DirOfAt(disk, With(slots, k, 0), m, r);
      if m == k && r != j {
        assert !IsLive(es[t]);
      }
    }
  }

  /** The entry with inode number ino is at place j of block k, alone there or not. */
  ghost predicate Located(es: seq<Entry>, ino: u32, k: nat, j: nat, alone: bool)
    requires |es| == PLACES
  {
    k < 12 && j < PER_SECTOR && LinkPlace(es, ino) == PER_SECTOR * k + j && Alone(es, k, j, alone)
  }

  /** The loops of delete_dir_entry that look for the entry. */
  method FindLink(disk: seq<Sector>, all: seq<u32>, ino: u32, ghost slots: seq<u32>, ghost self: u32)
    returns (found: bool, k: nat, j: nat, alone: bool)
    requires DirectOnly(slots) && OnDiskAll(disk, slots) && |all| == INDIRECT && all == slots[..INDIRECT] && GoodDir(DirOf(disk, slots), self)
    ensures found <==> LinkPlace(DirOf(disk, slots), ino) < PLACES
    ensures found ==> Located(DirOf(disk, slots), ino, k, j, alone) && k < 12 && all[k] != 0
  {
    hide DirOf, EntryOf, NoLink, EntryAt, GoodDir, Alone, IsLink, IsDots;
    ghost var es := DirOf(disk, slots);
    k := 0;
    NoLinkStart(es, ino);
    while k < 140
      invariant k <= 140 && NoLink(es, ino, if k < 12 then PER_SECTOR * k else PLACES)
    {
      assert all[k] == slots[k];
      if all[k] == 0 {
        if k < 12 {
          NoLinkBlock(disk, slots, k, PER_SECTOR, ino);
        }
      } else {
        OneLink(disk, slots, self, k, ino);
        var count, first;
        ghost var p, q;
        j, count, first, p, q := ScanSector(disk[all[k]], ino);
        LinkAt(disk, slots, k, j, ino);
        if j < PER_SECTOR {
          DirOfAt(disk, slots, k, j);
          LinkPlaceIs(es, ino, PER_SECTOR * k + j);
          alone := count == 1 && !first;
          IsAlone(disk, slots, self, k, j, ino, count, first, p, q);
          return true, k, j, alone;
        }
      }
      k := k + 1;
    }
    LinkPlaceIs(es, ino, PLACES);
    found, j, alone := false, 0, false;
  }

  lemma LinkAt(disk: seq<Sector>, slots: seq<u32>, k: nat, j: nat, ino: u32)
    requires |slots| == SLOTS && k < 12 && j <= PER_SECTOR && 0 < slots[k] < |disk| && NoLink(DirOf(disk, slots), ino, PER_SECTOR * k)
    requires forall m: nat | m < PER_SECTOR && IsLink(EntryAt(disk[slots[k]], m), ino) :: m == j
    ensures NoLink(DirOf(disk, slots), ino, PER_SECTOR * k + j)
  {
    hide DirOf, EntryAt, NoLink;
    NoLinkBlock(disk, slots, k, j, ino);
  }

  lemma NoLinkStart(es: seq<Entry>, ino: u32)
    ensures NoLink(es, ino, 0)
  {
  }

  /** A block goes back to the bitmap and out of the directory's inode. */
  method DropBlock(part: Partition, i: nat, lba: u32, k: nat)
    requires part.ValidBut({}, {i}) && part.Opened(i) && 1 <= k < 12 && DirectOnly(part.blocks[i]) && part.blocks[i][k] == lba != 0
    modifies part`owner, part`blocks, part`open, part`live, part.blockBitmap.bits
    ensures part.ValidBut({}, {i}) && OnlyDir(part, i) && part.live[i].size == old(part.live[i]).size
    ensures part.blocks == old(part.blocks)[i := With(old(part.blocks[i]), k, 0)] && part.owner == old(part.owner) - {lba}
  {
    hide Owns, Covers, Room, FreeIn, Agree, Loaded, Synced, SlotsOf, UsedIn;
    ghost var slots := part.blocks[i];
    LoadedHolds(part.disk, part.live, part.blocks, {}, i);
    LoadedWeaker(part.disk, part.live, part.blocks, i);
    AgreeAt(part.live, part.open, part.inodeBitmap.Used(), i);
    part.FreeBlock(lba, i, k);
    LoadedBut(part.disk, part.live, old(part.blocks), {i}, i, part.live[i], part.blocks[i]);
    assert part.live == part.live[i := part.live[i]];
    var ino: Inode := part.open[i];
    part.SetInode(i, ino.(sectors := With(ino.sectors, k, 0)), {i}, {i});
    DirectIsLoadedToo(part.disk, part.live[i], part.blocks[i]);
    LoadedNow(part.disk, part.live, part.blocks, i);
  }

  /** memset of an entry. */
  method ClearEntry(part: Partition, i: nat, lba: u32, ghost k: nat, j: nat)
    requires part.ValidBut({}, {i}) && part.Opened(i) && k < 12 && j < PER_SECTOR
    requires |part.blocks[i]| == SLOTS && part.blocks[i][k] == lba != 0
    modifies part`disk
    ensures part.ValidBut({}, {i}) && KeepsOthers(old(part.disk), part.owner, part.disk, i) && part.disk[0] == old(part.disk)[0]
    ensures DirOf(part.disk, part.blocks[i]) == DirOf(old(part.disk), part.blocks[i])[PER_SECTOR * k + j := NO_ENTRY]
  {
    hide Owns, Covers, Room, Agree, Loaded, Synced, SlotsOf, DirOf, EntryOf, Zeros, Partition.ValidBut;
    EntryOfZeros();
    PatchEntry(part, i, lba, k, j, Zeros(ENTRY_SIZE));
  }

  /** A place of a directory is freed: by giving its block back if nothing else is there, or else by clearing it. */
  method RemoveEntry(part: Partition, i: nat, lba: u32, k: nat, j: nat, alone: bool)
    requires part.ValidBut({}, {i}) && part.Opened(i) && k < 12 && j < PER_SECTOR
    requires DirectOnly(part.blocks[i]) && part.blocks[i][k] == lba != 0 && i < 0x1_0000_0000
    requires alone ==> k >= 1 && GoodDir(DirOf(part.disk, part.blocks[i]), i) && Alone(DirOf(part.disk, part.blocks[i]), k, j, true)
    modifies part`owner, part`blocks, part`open, part`live, part`disk, part.blockBitmap.bits
    ensures part.ValidBut({}, {i}) && OnlyDir(part, i) && part.live[i].size == old(part.live[i]).size
    ensures part.blocks[i] == if alone then With(old(part.blocks[i]), k, 0) else old(part.blocks[i])
    ensures DirOf(part.disk, part.blocks[i]) == DirOf(old(part.disk), old(part.blocks[i]))[PER_SECTOR * k + j := NO_ENTRY]
  {
    hide Owns, Covers, Room, FreeIn, Agree, Loaded, Synced, SlotsOf, DirOf, UsedIn, GoodDir, Alone;
    AgreeAt(part.live, part.open, part.inodeBitmap.Used(), i);
    if alone {
      DirDropped(part.disk, part.blocks[i], i, k, j);
      DropBlock(part, i, lba, k);
    } else {
      ClearEntry(part, i, lba, k, j);
    }
  }

  /** The found entry is taken out, and the size says so. */
  method TakeEntry(part: Partition, i: nat, lba: u32, k: nat, j: nat, alone: bool, ghost ino: u32)
    requires part.ValidBut({}, {i}) && part.Opened(i) && DirShaped(part.disk, part.blocks[i], part.live[i].size, i)
    requires Located(DirOf(part.disk, part.blocks[i]), ino, k, j, alone) && k < 12 && lba == part.blocks[i][k] != 0
    modifies part`owner, part`blocks, part`open, part`live, part`disk, part.blockBitmap.bits
    ensures part.ValidBut({}, {i}) && OnlyDir(part, i)
    ensures DirOf(part.disk, part.blocks[i]) == Delete(DirOf(old(part.disk), old(part.blocks[i])), ino)
    ensures DirShaped(part.disk, part.blocks[i], part.live[i].size, i)
  {
    hide Owns, Covers, Room, FreeIn, Agree, Loaded, Synced, SlotsOf, DirOf, UsedIn, GoodDir, Alone, DirShaped, LinkPlace, Located,
      DirectOnly, Delete, AllData;
    ghost var slots, size, disk0 := part.blocks[i], part.live[i].size, part.disk;
    ShapeBounds(disk0, slots, size, i);
    ShapeGood(disk0, slots, size, i);
    LocatedAt(DirOf(disk0, slots), i, ino, k, j, alone);
    AgreeAt(part.live, part.open, part.inodeBitmap.Used(), i);
    hide Partition.ValidBut, Count;
    RemoveEntry(part, i, lba, k, j, alone);
    DeletedShape(disk0, slots, size, i, ino, k, j, alone, part.disk, part.blocks[i]);
    part.SetInode(i, part.open[i].(size := part.open[i].size - ENTRY_SIZE), {}, {i});
  }

  /** inode_sync of a directory's inode. */
  method SyncDir(part: Partition, i: nat)
    requires part.ValidBut({}, {i}) && part.Opened(i) && DirShaped(part.disk, part.blocks[i], part.live[i].size, i)
    modifies part`disk
    ensures part.Valid() && |part.disk| == |old(part.disk)| && part.disk != [] && part.disk[0] == old(part.disk)[0]
    ensures forall l | part.dataStart <= l < |part.disk| :: part.disk[l] == old(part.disk)[l]
    ensures DirShaped(part.disk, part.blocks[i], part.live[i].size, i)
    ensures DirOf(part.disk, part.blocks[i]) == DirOf(old(part.disk), part.blocks[i])
  {
    hide Owns, Covers, Room, FreeIn, Agree, Loaded, Synced, SlotsOf, DirOf, DirShaped, AllData;
    ShapeBounds(part.disk, part.blocks[i], part.live[i].size, i);
    part.SyncOpen(i);
    SameDir(part, old(part.disk), i);
    SameShape(old(part.disk), part.disk, part.blocks[i], part.live[i].size, i);
  }

  /** delete_dir_entry: the entry that leads to an inode goes, and the directory's record is written. */
  method DeleteDirEntry(part: Partition, i: nat, ino: u32) returns (found: bool)
    requires part.Valid() && part.Opened(i) && DirShaped(part.disk, part.blocks[i], part.live[i].size, i)
    modifies part`owner, part`blocks, part`open, part`live, part`disk, part.blockBitmap.bits
    ensures part.Valid() && OnlyDir(part, i)
    ensures found <==> LinkPlace(DirOf(old(part.disk), old(part.blocks[i])), ino) < PLACES
    ensures DirOf(part.disk, part.blocks[i]) == Delete(DirOf(old(part.disk), old(part.blocks[i])), ino)
    ensures DirShaped(part.disk, part.blocks[i], part.live[i].size, i)
  {
    hide Owns, Covers, Room, FreeIn, Agree, Loaded, Synced, SlotsOf, DirOf, UsedIn, DirShaped, Located, LinkPlace, AllData, IsLink, IsDots, GoodDir;
    ghost var slots, size, disk0 := part.blocks[i], part.live[i].size, part.disk;
    ghost var owner0, used0 := part.owner, part.blockBitmap.Used();
    ShapeBounds(disk0, slots, size, i);
    ShapeGood(disk0, slots, size, i);
    AgreeAt(part.live, part.open, part.inodeBitmap.Used(), i);
    DirBlocksAreSlots(part, i);
    ValidWeaker(part, i);
    hide Partition.ValidBut, DirBlocks;
    var all := DirBlocks(part.open[i]);
    var k, j, alone;
    found, k, j, alone := FindLink(part.disk, all, ino, slots, i);
    if !found {
      return;
    }
    assert all[k] == slots[k];
    TakeEntry(part, i, all[k], k, j, alone, ino);
    ghost var disk1 := part.disk;
    SyncDir(part, i);
    KeptAfterSync(disk0, owner0, used0, part.reserved, part.dataStart, disk1, part.disk, i);
  }

  lemma SameShape(disk0: seq<Sector>, disk: seq<Sector>, slots: seq<u32>, size: nat, self: nat)
    requires DirShaped(disk0, slots, size, self) && DirOf(disk, slots) == DirOf(disk0, slots)
    ensures DirShaped(disk, slots, size, self)
  {
    hide DirOf, GoodDir;
  }

  lemma ShapeGood(disk: seq<Sector>, slots: seq<u32>, size: nat, self: nat)
    requires DirShaped(disk, slots, size, self)
    ensures |slots| == SLOTS && self < 0x1_0000_0000 && GoodDir(DirOf(disk, slots), self)
    ensures size == ENTRY_SIZE * Count(DirOf(disk, slots))
  {
    hide DirOf, GoodDir;
  }

  lemma LocatedAt(es: seq<Entry>, self: u32, ino: u32, k: nat, j: nat, alone: bool)
    requires |es| == PLACES && GoodDir(es, self) && Located(es, ino, k, j, alone)
    ensures k < 12 && j < PER_SECTOR && Count(es) >= 1 && (alone ==> k >= 1 && Alone(es, k, j, true))
  {
    DeleteIsGood(es, self, ino);
  }

  /** Writing a record does not touch the blocks. */
  lemma KeptAfterSync(disk0: seq<Sector>, owner0: map<u32, (nat, nat)>, used0: set<nat>, reserved: set<nat>, dataStart: nat,
                      disk1: seq<Sector>, disk2: seq<Sector>, i: nat)
    requires KeepsOthers(disk0, owner0, disk1, i) && |disk2| == |disk1| && Covers(owner0, used0, reserved, dataStart)
    requires forall l | dataStart <= l < |disk1| :: disk2[l] == disk1[l]
    ensures KeepsOthers(disk0, owner0, disk2, i)
  {
  }

  lemma SameDir(part: Partition, disk0: seq<Sector>, i: nat)
    requires part.Layout() && part.Owned() && i in part.blocks
    requires |disk0| == |part.disk| && forall l | part.dataStart <= l < |disk0| :: part.disk[l] == disk0[l]
    ensures |part.blocks[i]| == SLOTS && DirOf(part.disk, part.blocks[i]) == DirOf(disk0, part.blocks[i])
  {
    hide Owns, Covers, Room, EntryAt, UsedIn;
    OnTheDisk(part, i, 0);
    forall s | 0 <= s < PLACES ensures DirOf(part.disk, part.blocks[i])[s] == DirOf(disk0, part.blocks[i])[s] {
      OnTheDisk(part, i, s / PER_SECTOR);
    }
  }

  // ---------------------------------------------------------------- listing

  /** How many entries lie before place s, in bytes of a directory. */
  function Before(es: seq<Entry>, s: nat): (b: nat)
    requires s <= |es|
    ensures b % ENTRY_SIZE == 0
  {
    ENTRY_SIZE * Count(es[..s])
  }

  lemma BeforeNext(es: seq<Entry>, s: nat)
    requires s < |es|
    ensures Before(es, s + 1) == Before(es, s) + if IsLive(es[s]) then ENTRY_SIZE else 0
  {
    CountPrefix(es, s);
  }

  lemma {:induction false} BeforeFree(es: seq<Entry>, s: nat, t: nat)
    requires s <= t <= |es| && forall u | s <= u < t :: !IsLive(es[u])
    ensures Before(es, t) == Before(es, s)
    decreases t
  {
    if s < t {
      BeforeFree(es, s, t - 1);
      BeforeNext(es, t - 1);
    }
  }

  lemma BeforeAll(es: seq<Entry>)
    ensures Before(es, |es|) == ENTRY_SIZE * Count(es) && Before(es, 0) == 0
  {
    assert es[..|es|] == es && es[..0] == [];
  }

  lemma FoundInListing(es: seq<Entry>, s: nat, pos: nat)
    requires s < |es| && IsLive(es[s]) && Before(es, s) == pos
    ensures pos / ENTRY_SIZE < Count(es) && Listing(es)[pos / ENTRY_SIZE] == es[s]
  {
    hide Listing, Count;
    ListingAt(es, s);
    Times24(Count(es[..s]));
  }

  lemma Times24(c: nat)
    ensures ENTRY_SIZE * c / ENTRY_SIZE == c
  {
  }

  lemma Multiples(a: nat, b: nat)
    requires a % ENTRY_SIZE == 0 && b % ENTRY_SIZE == 0 && a < b
    ensures a + ENTRY_SIZE <= b
  {
  }

  /** The inner loop of dir_read: entries before the position are passed over, the one at it is found. */
  method PassOver(disk: seq<Sector>, lba: u32, cur: nat, pos: nat, ghost slots: seq<u32>, ghost k: nat) returns (j: nat, next: nat)
    requires |slots| == SLOTS && k < 12 && slots[k] == lba && 0 < lba < |disk| && pos % ENTRY_SIZE == 0
    requires cur == Before(DirOf(disk, slots), PER_SECTOR * k) <= pos
    ensures j <= PER_SECTOR && PER_SECTOR * k + j <= PLACES && next == Before(DirOf(disk, slots), PER_SECTOR * k + j) <= pos
    ensures j < PER_SECTOR ==> next == pos && IsLive(DirOf(disk, slots)[PER_SECTOR * k + j]) && EntryAt(disk[lba], j) == DirOf(disk, slots)[PER_SECTOR * k + j]
  {
    hide DirOf, EntryAt, EntryOf, Before;
    ghost var es := DirOf(disk, slots);
    j, next := 0, cur;
    while j < PER_SECTOR
      invariant j <= PER_SECTOR && next == Before(es, PER_SECTOR * k + j) <= pos
    {
      DirOfAt(disk, slots, k, j);
      BeforeNext(es, PER_SECTOR * k + j);
      if EntryAt(disk[lba], j).kind != FT_UNKNOWN {
        if next < pos {
          Multiples(next, pos);
          next := next + ENTRY_SIZE;
        } else {
          assert next == pos;
          return;
        }
      }
      j := j + 1;
    }
  }

  /** struct dir. */
  class Dir {
    var inode: nat
    var pos: u32

    constructor (inode: nat)
      ensures this.inode == inode && pos == 0
    {
      this.inode, pos := inode, 0;
    }

    /** sys_rewinddir. */
    method Rewind()
      modifies this`pos
      ensures pos == 0
    {
      pos := 0;
    }
  }

  /** The loops of dir_read. They end because the size counts the entries. */
  method EntryAtPos(disk: seq<Sector>, all: seq<u32>, pos: nat, size: nat, ghost slots: seq<u32>) returns (r: Option<Entry>)
    requires DirectOnly(slots) && OnDiskAll(disk, slots) && |all| == INDIRECT && all == slots[..INDIRECT]
    requires size == ENTRY_SIZE * Count(DirOf(disk, slots)) && pos % ENTRY_SIZE == 0
    ensures r == if pos < size then Some(Listing(DirOf(disk, slots))[pos / ENTRY_SIZE]) else None
  {
    hide DirOf, EntryAt, EntryOf, Before, Listing, Count;
    ghost var es := DirOf(disk, slots);
    BeforeAll(es);
    var k, cur := 0, 0;
    while pos < size
      invariant k <= 12 && cur == Before(es, PER_SECTOR * k) <= pos
      decreases 12 - k
    {
      assert k < 12;
      assert all[k] == slots[k];
      if all[k] == 0 {
        FreeBlockBefore(disk, slots, k);
      } else {
        var j;
        j, cur := PassOver(disk, all[k], cur, pos, slots, k);
        if j < PER_SECTOR {
          FoundInListing(es, PER_SECTOR * k + j, pos);
          return Some(EntryAt(disk[all[k]], j));
        }
      }
      k := k + 1;
    }
    return None;
  }

  lemma FreeBlockBefore(disk: seq<Sector>, slots: seq<u32>, k: nat)
    requires |slots| == SLOTS && k < 12 && slots[k] == 0
    ensures Before(DirOf(disk, slots), PER_SECTOR * k + PER_SECTOR) == Before(DirOf(disk, slots), PER_SECTOR * k)
  {
    hide DirOf, Before;
    var es := DirOf(disk, slots);
    forall u | PER_SECTOR * k <= u < PER_SECTOR * k + PER_SECTOR ensures !IsLive(es[u]) {
      DirOfAt(disk, slots, k, u - PER_SECTOR * k);
    }
    BeforeFree(es, PER_SECTOR * k, PER_SECTOR * k + PER_SECTOR);
  }

  /** The entry that a position in bytes stands for, in the list of the live ones. */
  function Nth(es: seq<Entry>, pos: nat): Option<Entry> {
    var all := Listing(es);
    if pos / ENTRY_SIZE < |all| then Some(all[pos / ENTRY_SIZE]) else None
  }

  /** Inode i is an open directory, and es are its places. */
  ghost predicate IsDir(part: Partition, i: nat, es: seq<Entry>)
    reads part
  {
    part.Opened(i) && DirShaped(part.disk, part.blocks[i], part.live[i].size, i) && es == DirOf(part.disk, part.blocks[i])
  }

  /** dir_read: the entry at the position, counted over all live entries in the order of their places, and on to the next. */
  method DirRead(part: Partition, d: Dir, ghost es: seq<Entry>) returns (r: Option<Entry>)
    requires part.Valid() && IsDir(part, d.inode, es) && d.pos % ENTRY_SIZE == 0
    modifies d`pos
    ensures r == Nth(es, old(d.pos))
    ensures d.pos == old(d.pos) + if r.Some? then ENTRY_SIZE else 0
  {
    hide Owns, Covers, Room, FreeIn, Agree, Loaded, Synced, SlotsOf, DirOf, UsedIn, GoodDir, DirShaped, Listing;
    var i := d.inode;
    ShapeBounds(part.disk, part.blocks[i], part.live[i].size, i);
    ShapeGood(part.disk, part.blocks[i], part.live[i].size, i);
    DirBlocksAreSlots(part, i);
    AgreeAt(part.live, part.open, part.inodeBitmap.Used(), i);
    hide Partition.ValidBut, DirBlocks;
    r := EntryAtPos(part.disk, DirBlocks(part.open[i]), d.pos, part.open[i].size, part.blocks[i]);
    InListing(d.pos, Count(DirOf(part.disk, part.blocks[i])));
    if r.Some? {
      d.pos := d.pos + ENTRY_SIZE;
    }
  }

  lemma InListing(pos: nat, count: nat)
    requires pos % ENTRY_SIZE == 0
    ensures pos < ENTRY_SIZE * count <==> pos / ENTRY_SIZE < count
  {
  }

  /** rewinddir, and then dir_read until it gives nothing: every live entry once, in order. */
  method ListAll(part: Partition, d: Dir, ghost es: seq<Entry>) returns (all: seq<Entry>)
    requires part.Valid() && IsDir(part, d.inode, es)
    modifies d`pos
    ensures all == Listing(es)
  {
    hide IsDir, Listing, Partition.Valid, Count;
    d.Rewind();
    all := [];
    var r := DirRead(part, d, es);
    while r.Some?
      invariant |all| <= |Listing(es)| && all == Listing(es)[..|all|]
      invariant if r.Some? then |all| < |Listing(es)| && r.value == Listing(es)[|all|] && d.pos == ENTRY_SIZE * (|all| + 1) else |all| == |Listing(es)|
      decreases |Listing(es)| - |all|
    {
      all := all + [r.value];
      Times24(|all|);
      r := DirRead(part, d, es);
    }
  }

  /** dir_is_empty, which looks at the size only, is right; and then the directory has one block, as dir_remove asserts. */
  method DirIsEmpty(part: Partition, i: nat) returns (empty: bool)
    requires part.Valid() && part.Opened(i) && DirShaped(part.disk, part.blocks[i], part.live[i].size, i)
    ensures empty <==> forall s | 2 <= s < PLACES :: !IsLive(DirOf(part.disk, part.blocks[i])[s])
    ensures empty ==> forall k | 1 <= k < 13 :: part.open[i].sectors[k] == 0
  {
    hide Owns, Covers, Room, FreeIn, Agree, Loaded, Synced, SlotsOf, DirOf, UsedIn, GoodDir, DirShaped;
    AgreeAt(part.live, part.open, part.inodeBitmap.Used(), i);
    LoadedHolds(part.disk, part.live, part.blocks, {}, i);
    ShapeGood(part.disk, part.blocks[i], part.live[i].size, i);
    EmptyIsExact(DirOf(part.disk, part.blocks[i]), i);
    empty := part.open[i].size == ENTRY_SIZE * 2;
    if empty {
      OneBlockWhenEmpty(part.disk, part.blocks[i], part.live[i].size, i);
      forall k | 1 <= k < 13 ensures part.open[i].sectors[k] == 0 {
        if k < 12 {
          assert part.blocks[i][..12][k] == part.live[i].sectors[..12][k];
        }
      }
    }
  }

  lemma OneBlockWhenEmpty(disk: seq<Sector>, slots: seq<u32>, size: nat, self: nat)
    requires DirShaped(disk, slots, size, self) && size == ENTRY_SIZE * 2
    ensures forall k | 1 <= k < SLOTS :: slots[k] == 0
  {
    EmptyIsExact(DirOf(disk, slots), self);
  }
}
