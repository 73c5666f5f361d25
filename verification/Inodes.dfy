/** Opening, closing, making and releasing inodes: fs/inode.c and the allocation part of file_create in fs/file.c. */
module Inodes {
  import opened Disks
  import opened InodeTable
  import opened Partitions
  import opened Bitmaps

  /** A record that was synced is what a later open reads exactly if its number fits in 8 bits; otherwise its own slot is
      as it was before, and slot number mod 256 has a record that says it is another inode. */
  lemma SyncReadsBack(before: seq<Sector>, after: seq<Sector>, table: nat, ino: Inode)
    requires table + TABLE_SECTORS <= |before| && |after| == |before| && ino.no < MAX_FILES
    requires SlotWritten(before, after, table, ino.no % 256, Record(Pure(ino)))
    ensures OnDisk(after, table, ino.no) == if ino.no < 256 then Pure(ino) else OnDisk(before, table, ino.no)
    ensures OnDisk(after, table, ino.no % 256).no == ino.no % 256 <==> ino.no < 256
    ensures forall m: nat | m < MAX_FILES && m != ino.no % 256 :: OnDisk(after, table, m) == OnDisk(before, table, m)
  {
    hide TableByte, Record, InodeOf, Slot, SlotWritten;
    WrittenSlot(before, after, table, ino.no % 256, Record(Pure(ino)));
    InodeOfRecord(Pure(ino));
  }

  lemma SyncedAt(disk: seq<Sector>, table: nat, live: map<nat, Inode>, except: set<nat>, i: nat)
    requires Synced(disk, table, live, except) && i in live && i !in except
    ensures i < 256 && table + TABLE_SECTORS <= |disk| && OnDisk(disk, table, i) == Pure(live[i])
  {
  }

  /** Who uses an inode is none of the disk's business. */
  lemma ReopenKeeps(disk: seq<Sector>, table: nat, live: map<nat, Inode>, blocks: map<nat, seq<u32>>, i: nat, ino: Inode)
    requires Synced(disk, table, live, {}) && Loaded(disk, live, blocks, {}) && i in live && Pure(ino) == Pure(live[i])
    ensures Synced(disk, table, live[i := ino], {}) && Loaded(disk, live[i := ino], blocks, {})
    ensures AllData(disk, live[i := ino], blocks) == AllData(disk, live, blocks)
  {
    hide Synced, Loaded, AllData;
    assert ino.sectors == Pure(ino).sectors == live[i].sectors && ino.size == Pure(ino).size == live[i].size;
    ReopenSynced(disk, table, live, i, ino);
    LoadedSize(disk, live, blocks, {}, i, ino);
    ReopenData(disk, live, blocks, i, ino);
  }

  lemma ReopenSynced(disk: seq<Sector>, table: nat, live: map<nat, Inode>, i: nat, ino: Inode)
    requires Synced(disk, table, live, {}) && i in live && Pure(ino) == Pure(live[i])
    ensures Synced(disk, table, live[i := ino], {})
  {
    hide OnDisk;
  }

  lemma ReopenData(disk: seq<Sector>, live: map<nat, Inode>, blocks: map<nat, seq<u32>>, i: nat, ino: Inode)
    requires i in live && ino.size == live[i].size
    ensures AllData(disk, live[i := ino], blocks) == AllData(disk, live, blocks)
  {
    hide Data;
  }

  lemma AgreeOpened(live: map<nat, Inode>, open: map<nat, Inode>, used: set<nat>, i: nat, ino: Inode)
    requires Agree(live, open, used) && i in live && Pure(ino) == Pure(live[i])
    ensures Agree(live[i := ino], open[i := ino], used)
  {
    assert ino.no == Pure(ino).no && ino.size == Pure(ino).size;
  }

  lemma AgreeClosed(live: map<nat, Inode>, open: map<nat, Inode>, used: set<nat>, i: nat)
    requires Agree(live, open, used) && i in open
    ensures Agree(live[i := Pure(live[i])], open - {i}, used)
  {
  }

  function OneMoreUser(ino: Inode): Inode {
    ino.(opens := Wrap(ino.opens + 1))
  }

  /** inode_open: the copy in memory if there is one, with one more user, else the record from the disk. */
  method InodeOpen(part: Partition, i: nat) returns (ino: Inode)
    requires part.Valid() && i in part.live && (i in part.open ==> part.open[i].opens < 0xffff_ffff)
    modifies part`open, part`live
    ensures part.Valid() && i in old(part.live) && i in part.open && part.open[i] == ino
    ensures ino == OneMoreUser(old(part.live)[i]) && (i !in old(part.open) ==> ino.opens == 1)
    ensures i in old(part.open) ==> ino == old(part.open)[i].(opens := old(part.open)[i].opens + 1)
    ensures ino == old(part.live)[i].(opens := ino.opens)
    ensures part.live == old(part.live)[i := ino] && part.open == old(part.open)[i := ino]
    ensures part.Contents() == old(part.Contents())
  {
    hide Owns, Covers, Room, Agree, Loaded, Synced, UsedIn, AllData, OnDisk;
    AgreeAt(part.live, part.open, part.inodeBitmap.Used(), i);
    if i in part.open {
      ino := part.open[i];
      ino := ino.(opens := ino.opens + 1);
    } else {
      SyncedAt(part.disk, part.table, part.live, {}, i);
      ino := OnDisk(part.disk, part.table, i);
      AgreeShut(part.live, part.open, part.inodeBitmap.Used(), i);
      ino := ino.(opens := 1);
    }
    assert Pure(ino) == Pure(part.live[i]);
    ReopenKeeps(part.disk, part.table, part.live, part.blocks, i, ino);
    AgreeOpened(part.live, part.open, part.inodeBitmap.Used(), i, ino);
    part.open := part.open[i := ino];
    part.live := part.live[i := ino];
  }

  lemma AgreeShut(live: map<nat, Inode>, open: map<nat, Inode>, used: set<nat>, i: nat)
    requires Agree(live, open, used) && i in live && i !in open
    ensures live[i] == Pure(live[i])
  {
  }

  /** inode_close: the last user takes the copy out of memory; the record on the disk has everything but its users. */
  method InodeClose(part: Partition, i: nat)
    requires part.Valid() && i in part.open && part.open[i].opens > 0
    modifies part`open, part`live
    ensures part.Valid() && part.Contents() == old(part.Contents()) && i in old(part.live)
    ensures var ino := old(part.live)[i];
            if ino.opens == 1 then part.live == old(part.live)[i := Pure(ino)] && part.open == old(part.open) - {i}
            else part.live == old(part.live)[i := ino.(opens := ino.opens - 1)]
                 && part.open == old(part.open)[i := ino.(opens := ino.opens - 1)]
  {
    hide Owns, Covers, Room, Agree, Loaded, Synced, UsedIn, AllData, OnDisk;
    AgreeAt(part.live, part.open, part.inodeBitmap.Used(), i);
    var ino: Inode := part.open[i];
    if ino.opens - 1 == 0 {
      ReopenKeeps(part.disk, part.table, part.live, part.blocks, i, Pure(ino));
      AgreeClosed(part.live, part.open, part.inodeBitmap.Used(), i);
      part.open := part.open - {i};
      part.live := part.live[i := Pure(ino)];
    } else {
      ino := ino.(opens := ino.opens - 1);
      ReopenKeeps(part.disk, part.table, part.live, part.blocks, i, ino);
      AgreeOpened(part.live, part.open, part.inodeBitmap.Used(), i, ino);
      part.open := part.open[i := ino];
      part.live := part.live[i := ino];
    }
  }

  // ---------------------------------------------------------------- a new inode

  function NoSlots(): (s: seq<u32>)
    ensures |s| == SLOTS && forall k | 0 <= k < SLOTS :: s[k] == 0
  {
    seq(SLOTS, k => 0)
  }

  lemma FreshSlots(disk: seq<Sector>, no: u32)
    ensures SlotsOf(disk, Fresh(no)) == NoSlots()
  {
    var s := SlotsOf(disk, Fresh(no));
    assert s[..12] == NoSlots()[..12] && s[12..INDIRECT] == NoSlots()[12..INDIRECT];
    assert s == s[..12] + s[12..INDIRECT] + [s[INDIRECT]];
    assert NoSlots() == NoSlots()[..12] + NoSlots()[12..INDIRECT] + [NoSlots()[INDIRECT]];
  }

  lemma NewOwns(owner: map<u32, (nat, nat)>, blocks: map<nat, seq<u32>>, i: nat)
    requires Owns(owner, blocks) && i !in blocks
    ensures Owns(owner, blocks[i := NoSlots()])
  {
    hide NoSlots;
  }

  lemma NewAgrees(live: map<nat, Inode>, open: map<nat, Inode>, used: set<nat>, i: u32)
    requires Agree(live, open, used) && i !in live && i < 256
    ensures Agree(live[i as nat := Fresh(i).(opens := 1)], open[i as nat := Fresh(i).(opens := 1)], used + {i as nat})
  {
  }

  lemma NewLoaded(disk: seq<Sector>, live: map<nat, Inode>, blocks: map<nat, seq<u32>>, i: u32)
    requires Loaded(disk, live, blocks, {}) && i !in live
    ensures Loaded(disk, live[i as nat := Fresh(i).(opens := 1)], blocks[i as nat := NoSlots()], {})
    ensures AllData(disk, live[i as nat := Fresh(i).(opens := 1)], blocks[i as nat := NoSlots()]) == AllData(disk, live, blocks)[i as nat := []]
  {
    FreshSlots(disk, i);
    var ino := Fresh(i).(opens := 1);
    assert SlotsOf(disk, ino) == SlotsOf(disk, Fresh(i)) by { assert ino.sectors == Fresh(i).sectors; }
    assert Data(disk, NoSlots(), 0) == [];
    hide Data, SlotsOf, NoSlots;
  }

  lemma NewSynced(disk: seq<Sector>, table: nat, live: map<nat, Inode>, i: nat, ino: Inode)
    requires Synced(disk, table, live, {}) && i !in live
    ensures Synced(disk, table, live[i := ino], {i})
  {
    hide OnDisk;
  }

  /** The part of file_create that makes the inode: a bit of the inode bitmap, an empty inode, its record, its place
      among the open inodes. */
  method MakeInode(part: Partition) returns (no: int)
    requires part.Valid()
    modifies part`open, part`live, part`blocks, part`disk, part.inodeBitmap.bits
    ensures no == -1 <==> FreeIn(old(part.inodeBitmap.Used()), part.inodeBitmap.Size()) == {}
    ensures no == -1 ==> part.Valid() && part.live == old(part.live) && part.open == old(part.open) && part.Contents() == old(part.Contents())
    ensures no != -1 ==> forall m: nat | m < no :: m in old(part.live)
    ensures no != -1 ==> 0 <= no < MAX_FILES && no !in old(part.live) && part.open == old(part.open)[no := Fresh(no).(opens := 1)]
    ensures no != -1 ==> var ino := part.open[no];
              ino.no == no && ino.size == 0 && ino.opens == 1 && !ino.deny && forall k | 0 <= k < 13 :: ino.sectors[k] == 0
    ensures 0 <= no < 256 ==> part.inodeBitmap.Used() == old(part.inodeBitmap.Used()) + {no as nat}
    ensures 0 <= no < 256 ==> part.Valid() && part.live == old(part.live)[no := Fresh(no).(opens := 1)]
                              && part.blocks == old(part.blocks)[no := NoSlots()]
                              && part.Contents() == old(part.Contents())[no := []]
    ensures no != -1 ==> |part.disk| == |old(part.disk)| && SlotWritten(old(part.disk), part.disk, part.table, no % 256, Record(Fresh(no)))
  {
    hide Owns, Covers, Room, FreeIn, Agree, Loaded, Synced, UsedIn, AllData, Record, TableByte, NoSlots;
    AgreeKeys(part.live, part.open, part.inodeBitmap.Used());
    no := AllocBit(part.inodeBitmap);
    if no == -1 {
      return;
    }
    var ino: Inode := Fresh(no);
    part.InodeSync(ino);
    part.open := part.open[no := ino.(opens := 1)];
    assert Pure(Fresh(no)) == Fresh(no) == Pure(ino.(opens := 1));
    if no < 256 {
      LoadedKeys(old(part.disk), part.live, part.blocks, {});
      NewSynced(old(part.disk), part.table, part.live, no, ino.(opens := 1));
      NewLoaded(old(part.disk), part.live, part.blocks, no);
      NewOwns(part.owner, part.blocks, no);
      NewAgrees(part.live, old(part.open), old(part.inodeBitmap.Used()), no);
      part.live := part.live[no as nat := ino.(opens := 1)];
      part.blocks := part.blocks[no as nat := NoSlots()];
      RecordKeeps(old(part.disk), part.disk, part.table, part.live, no);
      RecordKeepsLoaded(old(part.disk), part.disk, part.table, part.dataStart, part.live, part.blocks, part.owner,
                        part.blockBitmap.Used(), part.reserved, {});
      RecordKeepsData(old(part.disk), part.disk, part.dataStart, part.live, part.blocks, part.owner, part.blockBitmap.Used(), part.reserved);
    }
  }

  lemma AgreeKeys(live: map<nat, Inode>, open: map<nat, Inode>, used: set<nat>)
    requires Agree(live, open, used)
    ensures used == live.Keys
  {
  }

  lemma LoadedKeys(disk: seq<Sector>, live: map<nat, Inode>, blocks: map<nat, seq<u32>>, except: set<nat>)
    requires Loaded(disk, live, blocks, except)
    ensures live.Keys == blocks.Keys
  {
  }

  // ---------------------------------------------------------------- releasing an inode

  lemma LoadedAt(disk: seq<Sector>, live: map<nat, Inode>, blocks: map<nat, seq<u32>>, except: set<nat>, i: nat)
    requires Loaded(disk, live, blocks, except) && i in live && i !in except
    ensures i in blocks && blocks[i] == SlotsOf(disk, live[i])
  {
  }

  lemma OthersKeptStart(owner: map<u32, (nat, nat)>, i: nat)
    ensures OthersKept(owner, owner, i)
  {
  }

  /** Blocks of inode i were given back, and nobody else's. */
  ghost predicate OthersKept(owner0: map<u32, (nat, nat)>, owner: map<u32, (nat, nat)>, i: nat) {
    && (forall l | l in owner :: l in owner0 && owner[l] == owner0[l])
    && (forall l | l in owner0 && owner0[l].0 != i :: l in owner)
  }

  lemma OthersKeptStep(owner0: map<u32, (nat, nat)>, owner: map<u32, (nat, nat)>, i: nat, lba: u32)
    requires OthersKept(owner0, owner, i) && lba in owner && owner[lba].0 == i
    ensures OthersKept(owner0, owner - {lba}, i)
  {
  }

  /** The part of an ownership that is not inode i's. */
  ghost function Without(owner: map<u32, (nat, nat)>, i: nat): map<u32, (nat, nat)> {
    map l | l in owner && owner[l].0 != i :: owner[l]
  }

  lemma AllFreed(owner0: map<u32, (nat, nat)>, owner: map<u32, (nat, nat)>, blocks: map<nat, seq<u32>>, i: nat)
    requires OthersKept(owner0, owner, i) && Owns(owner, blocks) && i in blocks
    requires forall k: nat | k < SLOTS && k < |blocks[i]| :: blocks[i][k] == 0
    ensures owner == Without(owner0, i) && Owns(owner, blocks - {i})
  {
    forall l | l in owner ensures owner[l].0 != i {
      SlotOfOwner(owner, blocks, l);
    }
  }

  /** Slots of an inode while it is being released: from k on, they are still there. */
  ghost predicate Releasing(slots: seq<u32>, now: seq<u32>, k: nat) {
    && |slots| == |now| == SLOTS && k <= INDIRECT && now[INDIRECT] == 0
    && (forall m: nat | m < k :: now[m] == 0)
    && (forall m: nat | k <= m < INDIRECT :: now[m] == slots[m])
  }

  lemma ReleasingStep(slots: seq<u32>, now: seq<u32>, k: nat)
    requires Releasing(slots, now, k) && k < INDIRECT
    ensures |slots| == |now| == SLOTS && now[k] == slots[k]
    ensures Releasing(slots, With(now, k, 0), k + 1) && (slots[k] == 0 ==> With(now, k, 0) == now)
  {
  }

  lemma ReleasedAll(disk: seq<Sector>, ino: Inode, slots: seq<u32>, now: seq<u32>, count: nat)
    requires Releasing(slots, now, count) && (count == INDIRECT || (count == 12 && ino.sectors[12] == 0))
    requires slots[..INDIRECT] == ino.sectors[..12] + TableWords(disk, ino.sectors[12])
    ensures forall k: nat | k < SLOTS && k < |now| :: now[k] == 0
  {
    forall k: nat | 12 <= k < INDIRECT && count == 12 ensures now[k] == 0 {
      assert slots[..INDIRECT][k] == NoWords()[k - 12];
    }
  }

  /** all_blocks of inode_release. */
  lemma ListOfSlots(disk: seq<Sector>, ino: Inode)
    ensures SlotsOf(disk, ino)[..INDIRECT] == ino.sectors[..12] + TableWords(disk, ino.sectors[12])
  {
    var s := SlotsOf(disk, ino);
    assert s[..INDIRECT] == s[..12] + s[12..INDIRECT];
  }

  lemma GoneLoaded(disk: seq<Sector>, live: map<nat, Inode>, blocks: map<nat, seq<u32>>, blocks1: map<nat, seq<u32>>, i: nat)
    requires Loaded(disk, live, blocks, {}) && blocks1 == blocks - {i}
    ensures Loaded(disk, live - {i}, blocks1, {})
    ensures AllData(disk, live - {i}, blocks1) == AllData(disk, live, blocks) - {i}
  {
    hide Data, SlotsOf;
  }

  lemma GoneAgrees(live: map<nat, Inode>, open: map<nat, Inode>, used: set<nat>, i: nat)
    requires Agree(live, open, used)
    ensures Agree(live - {i}, open - {i}, used - {i})
  {
  }

  lemma GoneSynced(before: seq<Sector>, after: seq<Sector>, table: nat, live: map<nat, Inode>, i: nat)
    requires Synced(before, table, live, {}) && |after| == |before| && i < MAX_FILES
    requires SlotWritten(before, after, table, i, Zeros(INODE_SIZE))
    ensures Synced(after, table, live - {i}, {})
  {
    hide TableByte, InodeOf, Slot, SlotWritten, Zeros;
    WrittenSlot(before, after, table, i, Zeros(INODE_SIZE));
  }

  /** The loops of inode_release: every block of inode i goes back to the bitmap. */
  method FreeBlocks(part: Partition, i: nat, ino: Inode)
    requires part.Valid() && i in part.live && i in part.blocks && part.live[i] == ino
    requires part.dataStart in part.owner ==> part.owner[part.dataStart].0 != i
    modifies part`owner, part`blocks, part.blockBitmap.bits
    ensures part.Layout() && Owns(part.owner, part.blocks) && part.owner == Without(old(part.owner), i)
    ensures part.blocks == old(part.blocks) - {i}
    ensures Covers(part.owner, part.blockBitmap.Used(), part.reserved, part.dataStart)
  {
    hide Owns, Covers, Room, Agree, Loaded, Synced, UsedIn, TableWords, SlotsOf, Words, Without;
    ghost var slots := part.blocks[i];
    ghost var owner0, blocks0 := part.owner, part.blocks;
    LoadedAt(part.disk, part.live, part.blocks, {}, i);
    ListOfSlots(part.disk, ino);
    OwnerOf(part.owner, part.blocks, i, INDIRECT);
    var all: seq<u32> := ino.sectors[..12] + TableWords(part.disk, ino.sectors[12]);
    var count := 12;
    OthersKeptStart(owner0, i);
    if ino.sectors[12] != 0 {
      count := 140;
      assert ino.sectors[12] != part.dataStart;
      part.FreeBlock(ino.sectors[12], i, INDIRECT);
      OthersKeptStep(owner0, owner0, i, ino.sectors[12]);
    }
    var k := 0;
    while k < count
      invariant k <= count && part.Layout() && part.Owned() && i in part.blocks && part.blocks == blocks0[i := part.blocks[i]]
      invariant OthersKept(owner0, part.owner, i) && Releasing(slots, part.blocks[i], k)
    {
      ghost var owner := part.owner;
      ReleasingStep(slots, part.blocks[i], k);
      assert all[k] == slots[..INDIRECT][k] == slots[k];
      if all[k] != 0 {
        part.FreeBlock(all[k], i, k);
        OthersKeptStep(owner0, owner, i, all[k]);
      }
      k := k + 1;
    }
    ReleasedAll(part.disk, ino, slots, part.blocks[i], count);
    AllFreed(owner0, part.owner, part.blocks, i);
    part.blocks := part.blocks - {i};
  }

  lemma PutThenDrop<V>(m: map<nat, V>, i: nat, v: V)
    ensures m[i := v] - {i} == m - {i}
  {
  }

  lemma DropNothing<V>(m: map<nat, V>, i: nat)
    requires i !in m
    ensures m - {i} == m
  {
  }

  /** All is well, but for a copy in memory of inode i, which is no longer in use. */
  ghost predicate ValidBeside(part: Partition, i: nat)
    reads part, part.blockBitmap, part.inodeBitmap, part.blockBitmap.bits, part.inodeBitmap.bits
  {
    && part.Layout() && part.Owned() && i !in part.live
    && Agree(part.live, part.open - {i}, part.inodeBitmap.Used())
    && Loaded(part.disk, part.live, part.blocks, {})
    && Synced(part.disk, part.table, part.live, {})
  }

  /** All is well exactly when there is no such copy. */
  lemma BesideIsValid(part: Partition, i: nat)
    requires ValidBeside(part, i)
    ensures part.Valid() <==> i !in part.open
  {
    hide Owns, Covers, Room, Loaded, Synced, UsedIn;
    if i !in part.open {
      DropNothing(part.open, i);
    }
  }

  /** inode_release between its inode_open and its inode_close. */
  method ReleaseOpened(part: Partition, i: nat, ino: Inode)
    requires part.Valid() && part.Opened(i) && part.open[i] == ino
    requires part.dataStart in part.owner ==> part.owner[part.dataStart].0 != i
    modifies part`owner, part`blocks, part`live, part`disk, part.blockBitmap.bits, part.inodeBitmap.bits
    ensures ValidBeside(part, i)
    ensures part.live == old(part.live) - {i} && part.blocks == old(part.blocks) - {i}
    ensures part.Contents() == old(part.Contents()) - {i}
    ensures part.owner == Without(old(part.owner), i) && part.inodeBitmap.Used() == old(part.inodeBitmap.Used()) - {i}
    ensures SlotWritten(old(part.disk), part.disk, part.table, i, Zeros(INODE_SIZE))
  {
    hide Owns, Covers, Room, FreeIn, Agree, Loaded, Synced, UsedIn, AllData, TableByte, Zeros, Without;
    AgreeAt(part.live, part.open, part.inodeBitmap.Used(), i);
    ghost var live1, blocks1 := part.live, part.blocks;
    FreeBlocks(part, i, ino);
    ghost var used := part.inodeBitmap.Used();
    part.inodeBitmap.Set(i, false);
    part.InodeDelete(i);
    part.live := part.live - {i};
    GoneSynced(old(part.disk), part.disk, part.table, live1, i);
    GoneLoaded(old(part.disk), live1, blocks1, part.blocks, i);
    GoneAgrees(live1, part.open, used, i);
    RecordKeepsLoaded(old(part.disk), part.disk, part.table, part.dataStart, part.live, part.blocks, part.owner,
                      part.blockBitmap.Used(), part.reserved, {});
    RecordKeepsData(old(part.disk), part.disk, part.dataStart, part.live, part.blocks, part.owner, part.blockBitmap.Used(), part.reserved);
  }

  /** inode_close of a copy of an inode that is no longer in use. */
  method CloseReleased(part: Partition, i: nat)
    requires ValidBeside(part, i) && i in part.open && part.open[i].opens > 0
    modifies part`open
    ensures ValidBeside(part, i)
    ensures part.open == if old(part.open[i]).opens == 1 then old(part.open) - {i}
                         else old(part.open)[i := old(part.open[i]).(opens := old(part.open[i]).opens - 1)]
  {
    hide Owns, Covers, Room, Agree, Loaded, Synced, UsedIn;
    var ino: Inode := part.open[i];
    PutThenDrop(part.open, i, ino.(opens := ino.opens - 1));
    DropNothing(part.open - {i}, i);
    if ino.opens - 1 == 0 {
      part.open := part.open - {i};
    } else {
      part.open := part.open[i := ino.(opens := ino.opens - 1)];
    }
  }

  /** inode_release: exactly the inode's own blocks and its own number are free again, and its record is cleared. Whoever has
      it open, as the caller in dir_remove has, keeps the copy. */
  method InodeRelease(part: Partition, i: nat)
    requires part.Valid() && i in part.live && (i in part.open ==> 0 < part.open[i].opens < 0xffff_ffff)
    requires part.dataStart in part.owner ==> part.owner[part.dataStart].0 != i
    modifies part`owner, part`blocks, part`open, part`live, part`disk, part.blockBitmap.bits, part.inodeBitmap.bits
    ensures ValidBeside(part, i) && (part.Valid() <==> i !in old(part.open)) && part.open == old(part.open)
    ensures part.live == old(part.live) - {i} && part.blocks == old(part.blocks) - {i}
    ensures part.Contents() == old(part.Contents()) - {i}
    ensures part.owner == Without(old(part.owner), i) && part.inodeBitmap.Used() == old(part.inodeBitmap.Used()) - {i}
    ensures SlotWritten(old(part.disk), part.disk, part.table, i, Zeros(INODE_SIZE))
  {
    hide Owns, Covers, Room, FreeIn, Agree, Loaded, Synced, UsedIn, AllData, TableByte, Zeros, Without, ValidBeside;
    AgreeAt(part.live, part.open, part.inodeBitmap.Used(), i);
    LoadedKeys(part.disk, part.live, part.blocks, {});
    var ino := InodeOpen(part, i);
    ReleaseOpened(part, i, ino);
    CloseReleased(part, i);
    PutThenDrop(old(part.live), i, ino);
    if i in old(part.open) {
      PutBack(old(part.open), i, ino);
    } else {
      PutThenDrop(old(part.open), i, ino);
      DropNothing(old(part.open), i);
    }
    BesideIsValid(part, i);
  }

  lemma PutBack<V>(m: map<nat, V>, i: nat, v: V)
    requires i in m
    ensures m[i := v][i := m[i]] == m
  {
  }

  /** inode_release and then inode_close, as dir_remove and dir_close of sys_rmdir: no copy is left, and all is well, exactly when
      nobody else has the inode open. */
  method ReleaseAndClose(part: Partition, i: nat)
    requires part.Valid() && i in part.open && 0 < part.open[i].opens < 0xffff_ffff
    requires part.dataStart in part.owner ==> part.owner[part.dataStart].0 != i
    modifies part`owner, part`blocks, part`open, part`live, part`disk, part.blockBitmap.bits, part.inodeBitmap.bits
    ensures ValidBeside(part, i) && (part.Valid() <==> old(part.open[i]).opens == 1)
    ensures part.Valid() ==> part.open == old(part.open) - {i}
    ensures part.live == old(part.live) - {i} && part.blocks == old(part.blocks) - {i}
    ensures part.Contents() == old(part.Contents()) - {i}
    ensures part.owner == Without(old(part.owner), i) && part.inodeBitmap.Used() == old(part.inodeBitmap.Used()) - {i}
    ensures SlotWritten(old(part.disk), part.disk, part.table, i, Zeros(INODE_SIZE))
  {
    hide Owns, Covers, Room, FreeIn, Agree, Loaded, Synced, UsedIn, AllData, TableByte, Zeros, Without, ValidBeside;
    AgreeAt(part.live, part.open, part.inodeBitmap.Used(), i);
    InodeRelease(part, i);
    CloseReleased(part, i);
    BesideIsValid(part, i);
  }

  /** The bits that releasing an inode clears are the bits of its blocks, and no others. */
  lemma ReleasedBits(owner: map<u32, (nat, nat)>, used0: set<nat>, used: set<nat>, reserved: set<nat>, dataStart: nat, i: nat)
    requires Covers(owner, used0, reserved, dataStart) && Covers(Without(owner, i), used, reserved, dataStart)
    ensures forall b: nat | dataStart + b < 0x1_0000_0000 ::
              b in used <==> b in used0 && !(dataStart + b in owner && owner[dataStart + b].0 == i)
  {
    forall b: nat | dataStart + b < 0x1_0000_0000
      ensures b in used <==> b in used0 && !(dataStart + b in owner && owner[dataStart + b].0 == i)
    {
      var l: u32 := dataStart + b;
      assert l - dataStart == b;
      assert l in Without(owner, i) <==> l in owner && owner[l].0 != i;
      assert b in used ==> b in reserved || l in Without(owner, i);
    }
  }

  /** The rollback of file_create and sys_mkdir for an inode that has no block: its bit is cleared, and its copy is freed. */
  method TakeBack(part: Partition, i: nat)
    requires part.Valid() && part.Opened(i) && part.blocks[i] == NoSlots()
    modifies part`open, part`live, part`blocks, part.inodeBitmap.bits
    ensures part.Valid() && part.live == old(part.live) - {i} && part.open == old(part.open) - {i} && part.blocks == old(part.blocks) - {i}
    ensures part.Contents() == old(part.Contents()) - {i}
  {
    hide Owns, Covers, Room, FreeIn, Agree, Loaded, Synced, UsedIn, AllData, NoSlots;
    AgreeAt(part.live, part.open, part.inodeBitmap.Used(), i);
    ghost var used, live0, blocks0 := part.inodeBitmap.Used(), part.live, part.blocks;
    GoneAgrees(part.live, part.open, used, i);
    GoneLoaded(part.disk, live0, blocks0, blocks0 - {i}, i);
    GoneOwns(part.owner, part.blocks, i);
    FewerSynced(part.disk, part.table, live0, i);
    part.inodeBitmap.Set(i, false);
    part.open := part.open - {i};
    part.live := part.live - {i};
    part.blocks := part.blocks - {i};
  }

  lemma GoneOwns(owner: map<u32, (nat, nat)>, blocks: map<nat, seq<u32>>, i: nat)
    requires Owns(owner, blocks) && i in blocks && blocks[i] == NoSlots()
    ensures Owns(owner, blocks - {i})
  {
    hide NoSlots;
  }

  lemma FewerSynced(disk: seq<Sector>, table: nat, live: map<nat, Inode>, i: nat)
    requires Synced(disk, table, live, {})
    ensures Synced(disk, table, live - {i}, {})
  {
    hide OnDisk;
  }
}
