/** Growing, writing and reading regular files: fs/file.c over the blocks of a partition. */
module Files {
  import opened Disks
  import opened InodeTable
  import opened Partitions
  import opened Bitmaps

  /** The first n slots are in use, and the table exactly if they are more than 12. */
  ghost predicate Prefix(slots: seq<u32>, n: nat) {
    && |slots| == SLOTS
    && (forall k: nat | k < INDIRECT :: slots[k] != 0 <==> k < n)
    && (slots[INDIRECT] != 0 <==> n > 12)
  }

  function BlockCount(slots: seq<u32>, size: nat): nat
    requires |slots| == SLOTS
  {
    if slots[0] == 0 then 0 else size / 512 + 1
  }

  /** A regular file: nothing at all, or one block more than its size fills. */
  ghost predicate FileShaped(slots: seq<u32>, size: nat) {
    |slots| == SLOTS && size < 512 * INDIRECT && Prefix(slots, BlockCount(slots, size)) && (slots[0] == 0 ==> size == 0)
  }

  /** Blocks were added behind the ones there were. */
  ghost predicate Grown(before: seq<u32>, after: seq<u32>, has: nat, will: nat) {
    && Prefix(before, has) && Prefix(after, will)
    && has <= will <= INDIRECT && after[..has] == before[..has]
    && (has > 12 ==> after[INDIRECT] == before[INDIRECT])
  }

  /** How many bits growing takes. */
  function Need(has: nat, will: nat): int {
    will - has + if has <= 12 < will then 1 else 0
  }

  /** The blocks that file_write will write to are where it looks for them. */
  ghost predicate Listed(all: seq<u32>, slots: seq<u32>, from: nat, to: nat) {
    |all| == INDIRECT && |slots| == SLOTS && to <= INDIRECT && forall k | from <= k < to :: all[k] == slots[k]
  }

  /** Slots has to will - 1 were free and now are not, and all_blocks lists them. */
  ghost predicate Extended(before: seq<u32>, after: seq<u32>, all0: seq<u32>, all: seq<u32>, has: nat, will: nat) {
    && |before| == |after| == SLOTS && |all0| == |all| == INDIRECT && has <= will <= INDIRECT
    && (forall k | has <= k < will :: all[k] == after[k] != 0)
    && (forall k | 0 <= k < SLOTS && !(has <= k < will) :: after[k] == before[k])
    && (forall k | 0 <= k < INDIRECT && !(has <= k < will) :: all[k] == all0[k])
  }

  /** The blocks there were are still there. */
  ghost predicate Kept(before: seq<u32>, after: seq<u32>, has: nat) {
    |before| == |after| == SLOTS && has <= INDIRECT && after[..has] == before[..has]
    && (has > 12 ==> after[INDIRECT] == before[INDIRECT])
  }

  lemma ExtendedKept(before: seq<u32>, now: seq<u32>, all0: seq<u32>, all: seq<u32>, has: nat, k: nat)
    requires Extended(before, now, all0, all, has, k)
    ensures Kept(before, now, has)
  {
  }

  /** Only inode i, its list of blocks and its table may differ. */
  twostate predicate GrewOnly(part: Partition, i: nat)
    reads part
  {
    && i in part.live && i in old(part.live)
    && part.live == old(part.live)[i := old(part.live[i]).(sectors := part.live[i].sectors)]
    && part.open == old(part.open)[i := part.live[i]]
    && i in part.blocks && part.blocks == old(part.blocks)[i := part.blocks[i]]
  }

  lemma ExtendedStart(before: seq<u32>, all: seq<u32>, has: nat)
    requires |before| == SLOTS && |all| == INDIRECT && has <= INDIRECT
    ensures Extended(before, before, all, all, has, has)
  {
  }

  lemma ExtendedStep(before: seq<u32>, now: seq<u32>, all0: seq<u32>, all: seq<u32>, has: nat, k: nat, lba: u32)
    requires Extended(before, now, all0, all, has, k) && k < INDIRECT && lba != 0
    ensures Extended(before, With(now, k, lba), all0, all[k := lba], has, k + 1)
  {
  }

  lemma ExtendedNext(before: seq<u32>, now: seq<u32>, all0: seq<u32>, all: seq<u32>, has: nat, k: nat)
    requires Extended(before, now, all0, all, has, k) && k < INDIRECT
    ensures |now| == SLOTS && |all| == INDIRECT && now[k] == before[k]
  {
  }

  /** The allocation loop of every situation. `all0` is all_blocks as it was before. */
  method Extend(part: Partition, i: nat, all0: seq<u32>, has: nat, will: nat) returns (ok: bool, all: seq<u32>)
    requires part.ValidBut({i}, {i}) && i in part.open && i in part.live && i in part.blocks
    requires Holds(part.live[i], part.blocks[i])
    requires |all0| == INDIRECT && has <= will <= INDIRECT && forall k | has <= k < will :: part.blocks[i][k] == 0
    modifies part`owner, part`blocks, part`open, part`live, part.blockBitmap.bits
    ensures part.ValidBut({i}, {i}) && GrewOnly(part, i) && Holds(part.live[i], part.blocks[i])
    ensures ok ==> Extended(old(part.blocks[i]), part.blocks[i], all0, all, has, will)
    ensures Kept(old(part.blocks[i]), part.blocks[i], has)
    ensures ok ==> |part.Free()| == |old(part.Free())| - (will - has)
    ensures ok <==> |old(part.Free())| >= will - has
    ensures !ok ==> part.Free() == {}
  {
    hide Owns, Covers, Room, FreeIn, Agree, Loaded, Synced, UsedIn, SlotsOf, Extended;
    ghost var before := part.blocks[i];
    AgreeAt(part.live, part.open, part.inodeBitmap.Used(), i);
    all := all0;
    var k := has;
    ExtendedStart(before, all, has);
    while k < will
      invariant has <= k <= will
      invariant part.ValidBut({i}, {i}) && GrewOnly(part, i) && Holds(part.live[i], part.blocks[i])
      invariant Extended(before, part.blocks[i], all0, all, has, k)
      invariant |part.Free()| == |old(part.Free())| - (k - has)
    {
      ghost var now := part.blocks[i];
      ExtendedNext(before, now, all0, all, has, k);
      ExtendedKept(before, now, all0, all, has, k);
      var lba := part.AllocSlot(i, k);
      if lba == -1 {
        return false, all;
      }
      ExtendedStep(before, now, all0, all, has, k, lba);
      all := all[k := lba];
      k := k + 1;
    }
    ExtendedKept(before, part.blocks[i], all0, all, has, k);
    ok := true;
  }

  /** Without a table there is nothing to read from the disk. */
  lemma DirectIsLoaded(disk: seq<Sector>, ino: Inode, slots: seq<u32>, n: nat)
    requires Holds(ino, slots) && Prefix(slots, n) && n <= 12
    ensures slots == SlotsOf(disk, ino)
  {
    assert slots == slots[..12] + slots[12..INDIRECT] + [slots[INDIRECT]];
    assert slots[12..INDIRECT] == NoWords();
  }

  /** Situation 1: direct blocks only. */
  method GrowDirect(part: Partition, i: nat, all0: seq<u32>, has: nat, will: nat) returns (ok: bool, all: seq<u32>)
    requires part.ValidBut({}, {i}) && i in part.open && i in part.live && i in part.blocks
    requires |all0| == INDIRECT && 1 <= has < will <= 12 && Prefix(part.blocks[i], has)
    modifies part`owner, part`blocks, part`open, part`live, part.blockBitmap.bits
    ensures part.ValidBut(if ok then {} else {i}, {i}) && GrewOnly(part, i)
    ensures ok ==> Grown(old(part.blocks[i]), part.blocks[i], has, will) && Listed(all, part.blocks[i], has - 1, will)
    ensures !ok ==> Kept(old(part.blocks[i]), part.blocks[i], has) && Holds(part.live[i], part.blocks[i]) && part.Free() == {}
    ensures ok ==> |part.Free()| == |old(part.Free())| - Need(has, will)
    ensures ok <==> |old(part.Free())| >= Need(has, will)
  {
    hide Owns, Covers, Room, FreeIn, Agree, Loaded, Synced, UsedIn, SlotsOf, Extended;
    ghost var before := part.blocks[i];
    LoadedHolds(part.disk, part.live, part.blocks, {}, i);
    LoadedWeaker(part.disk, part.live, part.blocks, i);
    AgreeAt(part.live, part.open, part.inodeBitmap.Used(), i);
    assert part.open[i].sectors[has - 1] != 0 by { assert before[..12][has - 1] == part.live[i].sectors[..12][has - 1]; }
    all := all0[has - 1 := part.open[i].sectors[has - 1]];
    ghost var all1 := all;
    ok, all := Extend(part, i, all, has, will);
    if ok {
      DirectGrown(before, part.blocks[i], all1, all, has, will);
      DirectIsLoaded(part.disk, part.live[i], part.blocks[i], will);
      LoadedNow(part.disk, part.live, part.blocks, i);
    }
  }

  lemma DirectGrown(before: seq<u32>, after: seq<u32>, all0: seq<u32>, all: seq<u32>, has: nat, will: nat)
    requires Extended(before, after, all0, all, has, will) && 1 <= has < will <= 12 && Prefix(before, has)
    requires all0[has - 1] == before[has - 1]
    ensures Grown(before, after, has, will) && Listed(all, after, has - 1, will)
  {
  }

  /** The entries of all_blocks written as an indirect table. */
  function TableSector(all: seq<u32>): Sector
    requires |all| == INDIRECT
  {
    Bytes(all[12..])
  }

  lemma TableIsLoaded(disk: seq<Sector>, ino: Inode, slots: seq<u32>, all: seq<u32>)
    requires Holds(ino, slots) && 0 < slots[INDIRECT] < |disk|
    requires Listed(all, slots, 12, INDIRECT) && disk[slots[INDIRECT]] == TableSector(all)
    ensures slots == SlotsOf(disk, ino)
  {
    hide Bytes, Words;
    WordsOfBytes(all[12..]);
    assert slots[12..INDIRECT] == all[12..];
    assert slots == slots[..12] + slots[12..INDIRECT] + [slots[INDIRECT]];
  }

  lemma CrossingGrown(before: seq<u32>, mid: seq<u32>, after: seq<u32>, all0: seq<u32>, all: seq<u32>, has: nat, will: nat, t: u32)
    requires Prefix(before, has) && 1 <= has <= 12 < will <= INDIRECT && t != 0 && mid == With(before, INDIRECT, t)
    requires Extended(mid, after, all0, all, has, will)
    requires all0[has - 1] == before[has - 1] && forall k | 12 <= k < INDIRECT :: all0[k] == 0
    ensures Grown(before, after, has, will) && Listed(all, after, has - 1, will)
    ensures Listed(all, after, 12, INDIRECT) && after[INDIRECT] == t
  {
    assert forall k | 0 <= k < INDIRECT :: mid[k] == before[k];
    assert forall k | 0 <= k < INDIRECT && !(has <= k < will) :: after[k] == before[k];
  }

  lemma IndirectGrown(before: seq<u32>, after: seq<u32>, all0: seq<u32>, all: seq<u32>, has: nat, will: nat)
    requires Prefix(before, has) && 12 < has <= will <= INDIRECT && Extended(before, after, all0, all, has, will)
    requires Listed(all0, before, 12, INDIRECT)
    ensures Grown(before, after, has, will) && Listed(all, after, 12, INDIRECT) && Listed(all, after, has - 1, will)
    ensures after[INDIRECT] == before[INDIRECT] != 0
  {
  }

  /** The list of an inode's blocks need not agree with the disk while it grows. */
  lemma Unread(part: Partition, i: nat)
    requires part.ValidBut({}, {i}) && i in part.open
    ensures part.ValidBut({i}, {i}) && part.Opened(i) && Holds(part.live[i], part.blocks[i]) && part.open[i] == part.live[i]
    ensures |part.disk| <= 0x1_0000_0000
  {
    hide Owns, Covers, Room, Agree, Loaded, Synced, UsedIn, Holds;
    AgreeAt(part.live, part.open, part.inodeBitmap.Used(), i);
    BlocksToo(part.disk, part.live, part.blocks, i);
    LoadedHolds(part.disk, part.live, part.blocks, {}, i);
    LoadedWeaker(part.disk, part.live, part.blocks, i);
  }

  lemma BlocksToo(disk: seq<Sector>, live: map<nat, Inode>, blocks: map<nat, seq<u32>>, i: nat)
    requires Loaded(disk, live, blocks, {}) && i in live
    ensures i in blocks
  {
  }

  lemma CrossingKept(before: seq<u32>, mid: seq<u32>, after: seq<u32>, has: nat, t: u32)
    requires |before| == SLOTS && mid == With(before, INDIRECT, t) && Kept(mid, after, has) && has <= 12
    ensures Kept(before, after, has)
  {
  }

  lemma SectorOfSlot(ino: Inode, slots: seq<u32>, k: nat)
    requires Holds(ino, slots) && k < 12
    ensures slots[k] == ino.sectors[k]
  {
    assert slots[..12][k] == ino.sectors[..12][k];
  }

  /** Situation 2: the file gets its table. */
  method GrowCrossing(part: Partition, i: nat, all0: seq<u32>, has: nat, will: nat) returns (ok: bool, all: seq<u32>)
    requires part.ValidBut({}, {i}) && i in part.open && i in part.live && i in part.blocks
    requires |all0| == INDIRECT && 1 <= has <= 12 < will <= INDIRECT && Prefix(part.blocks[i], has)
    requires forall k | 12 <= k < INDIRECT :: all0[k] == 0
    modifies part`owner, part`blocks, part`open, part`live, part`disk, part.blockBitmap.bits
    ensures part.ValidBut(if ok then {} else {i}, {i}) && GrewOnly(part, i)
    ensures ok ==> Grown(old(part.blocks[i]), part.blocks[i], has, will) && Listed(all, part.blocks[i], has - 1, will)
    ensures ok ==> part.blocks[i][INDIRECT] < |old(part.disk)| && part.disk == old(part.disk)[part.blocks[i][INDIRECT] := TableSector(all)]
    ensures ok ==> |part.Free()| == |old(part.Free())| - Need(has, will)
    ensures ok <==> |old(part.Free())| >= Need(has, will)
    ensures !ok ==> part.disk == old(part.disk) && Kept(old(part.blocks[i]), part.blocks[i], has) && Holds(part.live[i], part.blocks[i])
    ensures !ok ==> part.Free() == {}
  {
    hide Owns, Covers, Room, FreeIn, Agree, Loaded, Synced, UsedIn, SlotsOf, Extended, Bytes, Prefix, Grown, TableSector, Listed, Kept,
      Holds, Partition.ValidBut;
    PrefixAt(part.blocks[i], has);
    ghost var before := part.blocks[i];
    Unread(part, i);
    SectorOfSlot(part.live[i], before, has - 1);
    all := all0[has - 1 := part.open[i].sectors[has - 1]];
    ghost var all1 := all;
    var t := part.AllocSlot(i, INDIRECT);
    if t == -1 {
      KeptSelf(before, has);
      return false, all;
    }
    ghost var mid := part.blocks[i];
    ok, all := Extend(part, i, all, has, will);
    CrossingKept(before, mid, part.blocks[i], has, t);
    if ok {
      CrossingGrown(before, mid, part.blocks[i], all1, all, has, will, t);
      WriteTable(part, i, t, all);
    }
  }

  /** The indirect table goes to its sector. */
  method WriteTable(part: Partition, i: nat, t: u32, all: seq<u32>)
    requires part.ValidBut({i}, {i}) && part.Opened(i) && Holds(part.live[i], part.blocks[i]) && part.blocks[i][INDIRECT] == t != 0
    requires |all| == INDIRECT && Listed(all, part.blocks[i], 12, INDIRECT)
    modifies part`disk
    ensures part.ValidBut({}, {i}) && t < |old(part.disk)| && part.disk == old(part.disk)[t := TableSector(all)]
  {
    hide Owns, Covers, Room, FreeIn, Agree, Loaded, Synced, UsedIn, SlotsOf, Bytes, TableSector, Listed;
    OwnerOf(part.owner, part.blocks, i, INDIRECT);
    OnTheDisk(part, i, INDIRECT);
    part.WriteBlock(t, TableSector(all), i, INDIRECT, {i}, {i});
    TableIsLoaded(part.disk, part.live[i], part.blocks[i], all);
    LoadedNow(part.disk, part.live, part.blocks, i);
  }

  lemma PrefixAt(slots: seq<u32>, n: nat)
    requires Prefix(slots, n)
    ensures |slots| == SLOTS && (slots[INDIRECT] != 0 <==> n > 12)
    ensures forall k | n <= k < INDIRECT :: slots[k] == 0
    ensures 0 < n <= INDIRECT ==> slots[n - 1] != 0
  {
  }

  lemma TableRead(disk: seq<Sector>, ino: Inode, slots: seq<u32>, all0: seq<u32>)
    requires |all0| == INDIRECT && |slots| == SLOTS && slots[12..INDIRECT] == TableWords(disk, ino.sectors[12])
    requires 0 < ino.sectors[12] < |disk|
    ensures Listed(all0[..12] + Words(disk[ino.sectors[12]], 128), slots, 12, INDIRECT)
  {
    hide Words;
    var all := all0[..12] + Words(disk[ino.sectors[12]], 128);
    forall k | 12 <= k < INDIRECT ensures all[k] == slots[k] {
      assert slots[12..INDIRECT][k - 12] == slots[k];
    }
  }

  /** Situation 3: the table grows. */
  method GrowIndirect(part: Partition, i: nat, all0: seq<u32>, has: nat, will: nat) returns (ok: bool, all: seq<u32>)
    requires part.ValidBut({}, {i}) && i in part.open && i in part.live && i in part.blocks
    requires |all0| == INDIRECT && 12 < has < will <= INDIRECT && Prefix(part.blocks[i], has)
    modifies part`owner, part`blocks, part`open, part`live, part`disk, part.blockBitmap.bits
    ensures part.ValidBut(if ok then {} else {i}, {i}) && GrewOnly(part, i)
    ensures ok ==> Grown(old(part.blocks[i]), part.blocks[i], has, will) && Listed(all, part.blocks[i], has - 1, will)
    ensures ok ==> part.blocks[i][INDIRECT] < |old(part.disk)| && part.disk == old(part.disk)[part.blocks[i][INDIRECT] := TableSector(all)]
    ensures ok ==> |part.Free()| == |old(part.Free())| - Need(has, will)
    ensures ok <==> |old(part.Free())| >= Need(has, will)
    ensures !ok ==> part.disk == old(part.disk) && Kept(old(part.blocks[i]), part.blocks[i], has) && Holds(part.live[i], part.blocks[i])
    ensures !ok ==> part.Free() == {}
  {
    hide Owns, Covers, Room, FreeIn, Agree, Loaded, Synced, UsedIn, SlotsOf, Extended, Bytes, Prefix, Words;
    ghost var before := part.blocks[i];
    PrefixAt(before, has);
    LoadedHolds(part.disk, part.live, part.blocks, {}, i);
    LoadedWeaker(part.disk, part.live, part.blocks, i);
    AgreeAt(part.live, part.open, part.inodeBitmap.Used(), i);
    OnTheDisk(part, i, INDIRECT);
    assert part.open[i].sectors[12] != 0;
    var t := part.open[i].sectors[12];
    all := all0[..12] + Words(part.disk[t], 128);
    ghost var all1 := all;
    TableRead(part.disk, part.live[i], before, all0);
    ok, all := Extend(part, i, all, has, will);
    if ok {
      IndirectGrown(before, part.blocks[i], all1, all, has, will);
      WriteTable(part, i, t, all);
    }
  }

  /** A file whose first blocks are the same has the same data. */
  lemma KeptData(disk: seq<Sector>, before: seq<u32>, after: seq<u32>, has: nat, size: nat)
    requires Kept(before, after, has) && size <= 512 * has
    ensures Data(disk, after, size) == Data(disk, before, size)
  {
    forall p: nat | p < size ensures Data(disk, after, size)[p] == Data(disk, before, size)[p] {
      assert p / 512 < has;
      assert after[..has][p / 512] == before[..has][p / 512];
    }
  }

  /** Growing changes nobody's data. */
  lemma GrowKeepsData(disk: seq<Sector>, live: map<nat, Inode>, live1: map<nat, Inode>, blocks: map<nat, seq<u32>>,
                      blocks1: map<nat, seq<u32>>, i: nat, has: nat)
    requires i in live && i in live1 && live1 == live[i := live1[i]] && live1[i].size == live[i].size <= 512 * has
    requires i in blocks && i in blocks1 && blocks1 == blocks[i := blocks1[i]] && Kept(blocks[i], blocks1[i], has)
    ensures AllData(disk, live1, blocks1) == AllData(disk, live, blocks)
  {
    hide Data, Kept;
    KeptData(disk, blocks[i], blocks1[i], has, live[i].size);
    KeptLength(blocks[i], blocks1[i], has);
  }

  lemma KeptLength(before: seq<u32>, after: seq<u32>, has: nat)
    requires Kept(before, after, has)
    ensures |before| == |after| == SLOTS && has <= INDIRECT
  {
  }

  lemma TableKeepsData(disk: seq<Sector>, lba: nat, s: Sector, live: map<nat, Inode>, blocks: map<nat, seq<u32>>,
                       owner: map<u32, (nat, nat)>, i: nat)
    requires Owns(owner, blocks) && lba < |disk| && lba < 0x1_0000_0000 && lba in owner && owner[lba] == (i, INDIRECT)
    ensures AllData(disk[lba := s], live, blocks) == AllData(disk, live, blocks)
  {
    hide Data, Owns;
    forall j | j in live && j in blocks && |blocks[j]| == SLOTS && live[j].size <= 512 * INDIRECT
      ensures Data(disk[lba := s], blocks[j], live[j].size) == Data(disk, blocks[j], live[j].size)
    {
      WriteKeepsData(disk, lba, s, blocks, owner, i, INDIRECT, j, live[j].size);
    }
  }

  lemma FirstBlock(slots: seq<u32>, lba: u32)
    requires Prefix(slots, 0) && lba != 0
    ensures Prefix(With(slots, 0, lba), 1) && Kept(slots, With(slots, 0, lba), 0)
  {
  }

  lemma GrownKept(before: seq<u32>, after: seq<u32>, has: nat, will: nat)
    requires Grown(before, after, has, will)
    ensures Kept(before, after, has) && Prefix(after, will)
  {
  }

  /** The first block of an empty file. The assertion that its bit is not bit 0 holds where block 0 is taken, which it is from
      the format on. */
  method GrowFirst(part: Partition, i: nat) returns (ok: bool)
    requires part.ValidBut({}, {i}) && part.Opened(i) && FileShaped(part.blocks[i], part.live[i].size)
    modifies part`owner, part`blocks, part`open, part`live, part.blockBitmap.bits
    ensures part.ValidBut({}, {i}) && GrewOnly(part, i) && part.Contents() == old(part.Contents())
    ensures var has := BlockCount(old(part.blocks[i]), part.live[i].size);
            var first := if has == 0 then 1 else 0;
            && (ok ==> Kept(old(part.blocks[i]), part.blocks[i], has) && Prefix(part.blocks[i], part.live[i].size / 512 + 1))
            && (ok <==> |old(part.Free())| >= first)
            && (ok ==> |part.Free()| == |old(part.Free())| - first)
            && (!ok ==> part.blocks == old(part.blocks) && part.live == old(part.live) && part.Free() == {})
            && (ok && has == 0 && part.dataStart in old(part.owner) ==> |part.blocks[i]| == SLOTS && part.blocks[i][0] - part.dataStart != 0)
  {
    hide Owns, Covers, Room, FreeIn, Agree, Loaded, Synced, UsedIn, SlotsOf, Prefix, AllData, Kept;
    ghost var before := part.blocks[i];
    LoadedHolds(part.disk, part.live, part.blocks, {}, i);
    AgreeAt(part.live, part.open, part.inodeBitmap.Used(), i);
    assert before[0] == part.live[i].sectors[0] by { assert before[..12][0] == part.live[i].sectors[..12][0]; }
    if part.open[i].sectors[0] == 0 {
      LoadedWeaker(part.disk, part.live, part.blocks, i);
      var lba := part.AllocSlot(i, 0);
      if lba == -1 {
        return false;
      }
      FirstBlock(before, lba);
      DirectIsLoaded(part.disk, part.live[i], part.blocks[i], 1);
      LoadedNow(part.disk, part.live, part.blocks, i);
      GrowKeepsData(part.disk, old(part.live), part.live, old(part.blocks), part.blocks, i, 0);
    } else {
      KeptSelf(before, BlockCount(before, part.live[i].size));
    }
    ok := true;
  }

  lemma KeptSelf(slots: seq<u32>, has: nat)
    requires |slots| == SLOTS && has <= INDIRECT
    ensures Kept(slots, slots, has)
  {
  }

  /** The blocks behind the first. */
  method GrowRest(part: Partition, i: nat, count: u32) returns (ok: bool, all: seq<u32>)
    requires part.ValidBut({}, {i}) && part.Opened(i) && part.live[i].size + count < 512 * INDIRECT
    requires Prefix(part.blocks[i], part.live[i].size / 512 + 1)
    modifies part`owner, part`blocks, part`open, part`live, part`disk, part.blockBitmap.bits
    ensures part.ValidBut(if ok then {} else {i}, {i}) && GrewOnly(part, i) && part.Contents() == old(part.Contents())
    ensures var has := part.live[i].size / 512 + 1;
            var will := (part.live[i].size + count) / 512 + 1;
            && (ok ==> Prefix(part.blocks[i], will) && Listed(all, part.blocks[i], has - 1, will))
            && Kept(old(part.blocks[i]), part.blocks[i], has)
            && (ok <==> |old(part.Free())| >= Need(has, will))
            && (ok ==> |part.Free()| == |old(part.Free())| - Need(has, will))
            && (!ok ==> part.disk == old(part.disk) && Holds(part.live[i], part.blocks[i]) && part.Free() == {})
  {
    hide Owns, Covers, Room, FreeIn, Agree, Loaded, Synced, UsedIn, SlotsOf, Bytes, Prefix, Words, AllData, Kept;
    ghost var before := part.blocks[i];
    LoadedHolds(part.disk, part.live, part.blocks, {}, i);
    AgreeAt(part.live, part.open, part.inodeBitmap.Used(), i);
    all := seq(INDIRECT, k => 0);
    var has := part.open[i].size / 512 + 1;
    var will := (part.open[i].size + count) / 512 + 1;
    assert will <= 140;
    if will == has {
      KeptSelf(before, has);
      PrefixAt(before, has);
      if will <= 12 {
        assert before[..12][has - 1] == part.live[i].sectors[..12][has - 1];
        all := all[has - 1 := part.open[i].sectors[has - 1]];
      } else {
        OnTheDisk(part, i, INDIRECT);
        assert part.open[i].sectors[12] != 0;
        TableRead(part.disk, part.live[i], before, all);
        all := all[..12] + Words(part.disk[part.open[i].sectors[12]], 128);
      }
      return true, all;
    }
    if will <= 12 {
      ok, all := GrowDirect(part, i, all, has, will);
    } else if has <= 12 {
      ok, all := GrowCrossing(part, i, all, has, will);
    } else {
      ok, all := GrowIndirect(part, i, all, has, will);
    }
    if ok {
      GrownKept(before, part.blocks[i], has, will);
      OnTheDisk(part, i, INDIRECT);
      if part.disk != old(part.disk) {
        TableKeepsData(old(part.disk), part.blocks[i][INDIRECT], TableSector(all), part.live, part.blocks, part.owner, i);
      }
    }
    GrowKeepsData(old(part.disk), old(part.live), part.live, old(part.blocks), part.blocks, i, has);
  }

  /** Bytes copied into a file's last block, right behind its data, become its data. */
  lemma Appended(disk: seq<Sector>, slots: seq<u32>, size: nat, lba: u32, buf: Sector, chunk: seq<byte>)
    requires |slots| == SLOTS && lba < |disk| && size % 512 + |chunk| <= 512 && size + |chunk| <= 512 * INDIRECT
    requires size / 512 < INDIRECT && slots[size / 512] == lba
    requires forall m: nat | m < SLOTS && m != size / 512 :: slots[m] != lba
    requires buf[..size % 512] == disk[lba][..size % 512]
    ensures Data(disk[lba := Patch(buf, size % 512, chunk)], slots, size + |chunk|) == Data(disk, slots, size) + chunk
  {
    var idx, off := size / 512, size % 512;
    var s: Sector := Patch(buf, off, chunk);
    var d := disk[lba := s];
    forall p: nat | p < size + |chunk|
      ensures Data(d, slots, size + |chunk|)[p] == (Data(disk, slots, size) + chunk)[p]
    {
      assert Data(d, slots, size + |chunk|)[p] == ByteAt(d, slots[p / 512], p % 512);
      if p < size {
        if p / 512 == idx {
          assert p % 512 < off && s[p % 512] == buf[..off][p % 512] == disk[lba][..off][p % 512];
        } else {
          assert p / 512 < idx;
        }
      } else {
        assert p / 512 == idx && p % 512 == off + (p - size);
      }
    }
  }

  /** A data block of inode i was rewritten and its size changed: all other data is the same. */
  lemma OthersKeepData(disk: seq<Sector>, lba: u32, s: Sector, live: map<nat, Inode>, ino: Inode,
                       blocks: map<nat, seq<u32>>, owner: map<u32, (nat, nat)>, i: nat, k: nat)
    requires Owns(owner, blocks) && lba < |disk| && lba in owner && owner[lba] == (i, k)
    requires i in live && i in blocks && |blocks[i]| == SLOTS && ino.size <= 512 * INDIRECT
    ensures AllData(disk[lba := s], live[i := ino], blocks)
            == AllData(disk, live, blocks)[i := Data(disk[lba := s], blocks[i], ino.size)]
  {
    hide Data, Owns;
    forall j | j in live && j in blocks && |blocks[j]| == SLOTS && live[j].size <= 512 * INDIRECT && j != i
      ensures Data(disk[lba := s], blocks[j], live[j].size) == Data(disk, blocks[j], live[j].size)
    {
      WriteKeepsData(disk, lba, s, blocks, owner, i, k, j, live[j].size);
    }
  }

  /** An entry of file_table; `used` is whether its inode pointer is not NULL. */
  class OpenFile {
    var pos: u32
    var flag: u32
    var inode: nat
    var used: bool

    constructor ()
      ensures pos == 0 && flag == 0 && !used
    {
      pos, flag, inode, used := 0, 0, 0, false;
    }
  }

  /** n more bytes fit into the block that the file ends in, which is allocated and listed. */
  ghost predicate RoomIn(slots: seq<u32>, size: nat, all: seq<u32>, n: nat, end: nat) {
    && size % 512 + n <= 512 && size + n <= end < 512 * INDIRECT && size < end
    && Prefix(slots, end / 512 + 1) && Listed(all, slots, size / 512, end / 512 + 1)
  }

  /** The buffer holds what that block has of the file already. */
  ghost predicate BufferFor(disk: seq<Sector>, size: nat, all: seq<u32>, ioBuf: Sector) {
    size / 512 < |all| && all[size / 512] < |disk| && ioBuf[..size % 512] == disk[all[size / 512]][..size % 512]
  }

  /** i_size += n. */
  function Longer(ino: Inode, n: nat): (r: Inode)
    ensures ino.size + n < 0x1_0000_0000 ==> r == ino.(size := ino.size + n)
  {
    ino.(size := Wrap(ino.size + n))
  }

  predicate Aligned(size: nat) {
    size % 512 == 0
  }

  /** One turn of the copy loop: what fits into the block that the file now ends in. */
  method WriteChunk(part: Partition, i: nat, all: seq<u32>, ioBuf: Sector, chunk: seq<byte>, ghost end: nat)
    requires part.ValidBut({}, {i}) && part.Opened(i)
    requires RoomIn(part.blocks[i], part.live[i].size, all, |chunk|, end) && BufferFor(part.disk, part.live[i].size, all, ioBuf)
    modifies part`disk, part`live, part`open
    ensures part.ValidBut({}, {i}) && i in part.open && i in old(part.Contents())
    ensures part.Contents() == old(part.Contents())[i := old(part.Contents())[i] + chunk]
    ensures part.live == old(part.live)[i := Longer(old(part.live[i]), |chunk|)]
    ensures part.open == old(part.open)[i := part.live[i]] && |part.disk| == |old(part.disk)|
  {
    hide Owns, Covers, Room, Agree, Loaded, Synced, UsedIn, SlotsOf, Data, Prefix;
    var size := part.open[i].size;
    AgreeAt(part.live, part.open, part.inodeBitmap.Used(), i);
    var idx, off := size / 512, size % 512;
    var lba := all[idx];
    PrefixIn(part.blocks[i], end / 512 + 1, idx);
    OnTheDisk(part, i, idx);
    OnlySlot(part.owner, part.blocks, i, idx);
    Appended(part.disk, part.blocks[i], size, lba, ioBuf, chunk);
    part.WriteBlock(lba, Patch(ioBuf, off, chunk), i, idx, {}, {i});
    part.SetInode(i, part.open[i].(size := size + |chunk|), {}, {i});
    OthersKeepData(old(part.disk), lba, Patch(ioBuf, off, chunk), old(part.live), part.live[i], part.blocks, part.owner, i, idx);
  }

  lemma PrefixIn(slots: seq<u32>, n: nat, k: nat)
    requires Prefix(slots, n) && k < n <= INDIRECT
    ensures |slots| == SLOTS && slots[k] != 0
  {
  }

  /** A file of size0 bytes that will have `end`: every block from its last one on is allocated and listed. */
  ghost predicate Planned(slots: seq<u32>, all: seq<u32>, size0: nat, end: nat) {
    end < 512 * INDIRECT && Prefix(slots, end / 512 + 1) && Listed(all, slots, size0 / 512, end / 512 + 1)
  }

  lemma PlannedEnd(slots: seq<u32>, all: seq<u32>, size0: nat, end: nat)
    requires Planned(slots, all, size0, end)
    ensures end < 512 * INDIRECT
  {
  }

  /** What is left to copy decides how much the next block takes. */
  lemma NextChunk(slots: seq<u32>, size0: nat, size: nat, all: seq<u32>, left: nat, end: nat)
    requires size0 <= size && size + left == end && left > 0 && Planned(slots, all, size0, end)
    ensures var room := 512 - size % 512;
            var chunk := if left < room then left else room;
            chunk > 0 && RoomIn(slots, size, all, chunk, end) && (chunk == left || Aligned(size + chunk))
    ensures |all| == INDIRECT && size / 512 < INDIRECT && |slots| == SLOTS && all[size / 512] == slots[size / 512] != 0
  {
    var room := 512 - size % 512;
    var chunk := if left < room then left else room;
    assert size == 512 * (size / 512) + size % 512;
    if chunk != left {
      assert size + chunk == 512 * (size / 512 + 1);
    }
  }

  lemma NextBuffer(disk: seq<Sector>, size: nat, all: seq<u32>, ioBuf: Sector)
    requires size / 512 < |all| && all[size / 512] < |disk| && (Aligned(size) || ioBuf == disk[all[size / 512]])
    ensures BufferFor(disk, size, all, ioBuf)
  {
  }

  /** One turn of the copy loop of file_write, with `src` still to be copied. */
  method WriteTurn(part: Partition, i: nat, all: seq<u32>, src: seq<byte>, first: bool, ghost size0: nat) returns (chunk: nat)
    requires part.ValidBut({}, {i}) && part.Opened(i) && |src| > 0 && size0 <= part.live[i].size
    requires first || Aligned(part.live[i].size)
    requires Planned(part.blocks[i], all, size0, part.live[i].size + |src|)
    modifies part`disk, part`live, part`open
    ensures part.ValidBut({}, {i}) && i in part.open && i in old(part.Contents())
    ensures 0 < chunk <= |src| && (chunk == |src| || Aligned(old(part.live[i]).size + chunk))
    ensures part.Contents() == old(part.Contents())[i := old(part.Contents())[i] + src[..chunk]]
    ensures part.live == old(part.live)[i := Longer(old(part.live[i]), chunk)]
    ensures part.open == old(part.open)[i := part.live[i]]
  {
    hide Owns, Covers, Room, Agree, Loaded, Synced, UsedIn, SlotsOf, AllData, Planned, RoomIn, BufferFor, Zeros, Aligned;
    AgreeAt(part.live, part.open, part.inodeBitmap.Used(), i);
    var ioBuf: Sector := Zeros(SECTOR_SIZE);
    var size := part.open[i].size;
    NextChunk(part.blocks[i], size0, size, all, |src|, size + |src|);
    var idx := size / 512;
    var lba := all[idx];
    var off := size % 512;
    var room := 512 - off;
    chunk := if |src| < room then |src| else room;
    OnTheDisk(part, i, idx);
    if first {
      ioBuf := part.disk[lba];
    }
    NextBuffer(part.disk, size, all, ioBuf);
    WriteChunk(part, i, all, ioBuf, src[..chunk], size + |src|);
  }

  /** The first `written` bytes of a buffer have reached the end of file i. */
  ghost predicate Progress(contents0: map<nat, seq<byte>>, live0: map<nat, Inode>, contents: map<nat, seq<byte>>,
                           live: map<nat, Inode>, i: nat, buf: seq<byte>, written: nat) {
    && written <= |buf| && i in contents0 && i in live0 && live0[i].size + |buf| < 512 * INDIRECT
    && contents == contents0[i := contents0[i] + buf[..written]]
    && live == live0[i := live0[i].(size := live0[i].size + written)]
  }

  lemma ProgressStep(contents0: map<nat, seq<byte>>, live0: map<nat, Inode>, contents: map<nat, seq<byte>>,
                     live: map<nat, Inode>, contents1: map<nat, seq<byte>>, live1: map<nat, Inode>,
                     i: nat, buf: seq<byte>, written: nat, chunk: nat)
    requires Progress(contents0, live0, contents, live, i, buf, written) && written + chunk <= |buf|
    requires i in contents && contents1 == contents[i := contents[i] + buf[written..][..chunk]]
    requires i in live && live1 == live[i := Longer(live[i], chunk)]
    ensures Progress(contents0, live0, contents1, live1, i, buf, written + chunk)
  {
    assert buf[..written + chunk] == buf[..written] + buf[written..][..chunk];
    assert contents0[i] + buf[..written] + buf[written..][..chunk] == contents0[i] + buf[..written + chunk];
  }

  lemma ProgressAt(contents0: map<nat, seq<byte>>, live0: map<nat, Inode>, contents: map<nat, seq<byte>>,
                   live: map<nat, Inode>, i: nat, buf: seq<byte>, written: nat)
    requires Progress(contents0, live0, contents, live, i, buf, written)
    ensures i in live && live[i].size == live0[i].size + written && i in contents && live0[i].size + |buf| < 512 * INDIRECT
    ensures written == |buf| ==> contents == contents0[i := contents0[i] + buf] && live == live0[i := Longer(live0[i], |buf|)]
  {
    assert buf[..|buf|] == buf;
  }

  lemma ProgressStart(contents: map<nat, seq<byte>>, live: map<nat, Inode>, i: nat, buf: seq<byte>)
    requires i in contents && i in live && live[i].size + |buf| < 512 * INDIRECT
    ensures Progress(contents, live, contents, live, i, buf, 0)
  {
    assert contents[i] + buf[..0] == contents[i];
  }

  /** The copy loop of file_write. */
  method WriteData(part: Partition, f: OpenFile, i: nat, all: seq<u32>, buf: seq<byte>)
    requires part.ValidBut({}, {i}) && part.Opened(i)
    requires Planned(part.blocks[i], all, part.live[i].size, part.live[i].size + |buf|)
    modifies part`disk, part`live, part`open, f`pos
    ensures part.ValidBut({}, {i}) && i in part.open && i in old(part.Contents())
    ensures part.Contents() == old(part.Contents())[i := old(part.Contents())[i] + buf]
    ensures part.live == old(part.live)[i := Longer(old(part.live[i]), |buf|)] && part.open.Keys == old(part.open).Keys
    ensures f.pos == Wrap(old(part.live[i]).size - 1 + |buf|)
  {
    hide Owns, Covers, Room, Agree, Loaded, Synced, UsedIn, SlotsOf, AllData, Planned, Wrap, Aligned, Longer, Progress;
    AgreeAt(part.live, part.open, part.inodeBitmap.Used(), i);
    InContents(part, i);
    ghost var size0 := part.open[i].size;
    ghost var contents0, live0 := part.Contents(), part.live;
    PlannedEnd(part.blocks[i], all, size0, size0 + |buf|);
    ProgressStart(contents0, live0, i, buf);
    hide Partition.ValidBut, Partition.Contents;
    var written := 0;
    var first := true;
    f.pos := Wrap(part.open[i].size - 1);
    while written < |buf|
      invariant part.ValidBut({}, {i}) && i in part.open && part.open.Keys == old(part.open).Keys && part.blocks == old(part.blocks)
      invariant written <= |buf| && Progress(contents0, live0, part.Contents(), part.live, i, buf, written)
      invariant first || written == |buf| || Aligned(size0 + written)
      invariant f.pos == Wrap(size0 - 1 + written)
    {
      ghost var contents, live := part.Contents(), part.live;
      ProgressAt(contents0, live0, contents, live, i, buf, written);
      var chunk := WriteTurn(part, i, all, buf[written..], first, size0);
      ProgressStep(contents0, live0, contents, live, part.Contents(), part.live, i, buf, written, chunk);
      first := false;
      WrapAdd(size0 - 1 + written, chunk);
      f.pos := Wrap(f.pos + chunk);
      written := written + chunk;
    }
    ProgressAt(contents0, live0, part.Contents(), part.live, i, buf, written);
  }

  lemma InContents(part: Partition, i: nat)
    requires part.Owned() && i in part.live && i in part.blocks && part.live[i].size <= 512 * INDIRECT
    ensures i in part.Contents() && |part.Contents()[i]| == part.live[i].size
  {
    OwnerOf(part.owner, part.blocks, i, 0);
  }

  datatype WriteResult = Panicked | Refused | NoSpace | Written(n: nat)

  /** What becomes of a write of n bytes to a file of `size` bytes in `has` blocks with `free` clear bits in the bitmap. */
  function Outcome(size: nat, has: nat, n: nat, free: nat): WriteResult {
    if size + n > 512 * INDIRECT then Refused
    else if size + n == 512 * INDIRECT then if has == 0 && free == 0 then NoSpace else Panicked
    else if free < Need(has, (size + n) / 512 + 1) then NoSpace
    else Written(n)
  }

  /** When a write is refused, when it fails an assertion, and when the blocks suffice. */
  lemma OutcomeIsExact(size: nat, has: nat, n: nat, free: nat)
    ensures Outcome(size, has, n, free) == Refused <==> size + n > 71680
    ensures Outcome(size, has, n, free) == Panicked <==> size + n == 71680 && !(has == 0 && free == 0)
    ensures Outcome(size, has, n, free).Written? <==>
              size + n < 71680 && free >= (size + n) / 512 + 1 - has + (if has <= 12 <= (size + n) / 512 then 1 else 0)
    ensures Outcome(size, has, n, free).Written? ==> Outcome(size, has, n, free).n == n
  {
  }

  /** One file has new data at its end, in the shape of a file; no other inode, list of blocks or data differs. */
  ghost predicate Appends(live0: map<nat, Inode>, blocks0: map<nat, seq<u32>>, contents0: map<nat, seq<byte>>,
                          live: map<nat, Inode>, blocks: map<nat, seq<u32>>, contents: map<nat, seq<byte>>,
                          i: nat, buf: seq<byte>) {
    && i in live && i in live0 && i in blocks && i in blocks0 && i in contents0
    && contents == contents0[i := contents0[i] + buf]
    && live == live0[i := live[i]] && blocks == blocks0[i := blocks[i]]
    && FileShaped(blocks[i], live[i].size)
    && live[i].size == live0[i].size + |buf|
    && live[i] == live0[i].(size := live[i].size, sectors := live[i].sectors)
  }

  lemma WrittenAppends(live0: map<nat, Inode>, blocks0: map<nat, seq<u32>>, contents0: map<nat, seq<byte>>,
                       live1: map<nat, Inode>, blocks1: map<nat, seq<u32>>,
                       live: map<nat, Inode>, contents: map<nat, seq<byte>>, i: nat, buf: seq<byte>)
    requires i in live0 && i in live1 && live1 == live0[i := live0[i].(sectors := live1[i].sectors)]
    requires i in live && live == live1[i := Longer(live1[i], |buf|)] && live1[i].size + |buf| < 512 * INDIRECT
    requires i in blocks0 && i in blocks1 && blocks1 == blocks0[i := blocks1[i]]
    requires Prefix(blocks1[i], (live1[i].size + |buf|) / 512 + 1)
    requires i in contents0 && contents == contents0[i := contents0[i] + buf]
    ensures Appends(live0, blocks0, contents0, live, blocks1, contents, i, buf)
  {
  }

  lemma GrewThenAppends(live0: map<nat, Inode>, blocks0: map<nat, seq<u32>>, contents0: map<nat, seq<byte>>,
                        live1: map<nat, Inode>, blocks1: map<nat, seq<u32>>,
                        live: map<nat, Inode>, blocks: map<nat, seq<u32>>, contents: map<nat, seq<byte>>, i: nat, buf: seq<byte>)
    requires i in live0 && i in live1 && live1 == live0[i := live0[i].(sectors := live1[i].sectors)]
    requires i in blocks0 && i in blocks1 && blocks1 == blocks0[i := blocks1[i]]
    requires Appends(live1, blocks1, contents0, live, blocks, contents, i, buf)
    ensures Appends(live0, blocks0, contents0, live, blocks, contents, i, buf)
  {
    hide FileShaped;
  }

  /** file_write once the file has its first block. */
  method WriteMore(part: Partition, f: OpenFile, buf: seq<byte>) returns (r: WriteResult)
    requires part.ValidBut({}, {f.inode}) && part.Opened(f.inode) && part.live[f.inode].size + |buf| < 512 * INDIRECT
    requires Prefix(part.blocks[f.inode], part.live[f.inode].size / 512 + 1)
    modifies part`owner, part`blocks, part`open, part`live, part`disk, part.blockBitmap.bits, f`pos
    ensures var size := old(part.live[f.inode].size);
            r == if |old(part.Free())| < Need(size / 512 + 1, (size + |buf|) / 512 + 1) then NoSpace else Written(|buf|)
    ensures part.Opened(f.inode) && part.open.Keys == old(part.open).Keys
    ensures r.Written? ==>
      && part.Valid() && f.pos == Wrap(part.live[f.inode].size - 1)
      && Appends(old(part.live), old(part.blocks), old(part.Contents()), part.live, part.blocks, part.Contents(), f.inode, buf)
    ensures !r.Written? ==> part.Contents() == old(part.Contents()) && f.pos == old(f.pos)
    ensures !r.Written? ==> part.disk == old(part.disk) && part.ValidBut({f.inode}, {f.inode}) && part.Free() == {}
  {
    hide Owns, Covers, Room, Agree, Loaded, Synced, UsedIn, SlotsOf, AllData, Prefix, FreeIn, Wrap, Longer, Appends;
    var i := f.inode;
    AgreeAt(part.live, part.open, part.inodeBitmap.Used(), i);
    var ok, all := GrowRest(part, i, |buf|);
    if !ok {
      return NoSpace;
    }
    ghost var live1 := part.live;
    WriteData(part, f, i, all, buf);
    WrittenAppends(old(part.live), old(part.blocks), old(part.Contents()), live1, part.blocks, part.live, part.Contents(), i, buf);
    part.SyncOpen(i);
    return Written(|buf|);
  }

  /** file_write. A buffer fits the 3 GB that a user program can address. */
  method FileWrite(part: Partition, f: OpenFile, buf: seq<byte>) returns (r: WriteResult)
    requires part.Valid() && f.used && part.Opened(f.inode) && |buf| <= 0xc000_0000
    requires FileShaped(part.blocks[f.inode], part.live[f.inode].size)
    modifies part`owner, part`blocks, part`open, part`live, part`disk, part.blockBitmap.bits, f`pos
    ensures r == Outcome(old(part.live[f.inode].size), BlockCount(old(part.blocks[f.inode]), old(part.live[f.inode].size)),
                         |buf|, |old(part.Free())|)
    ensures r == Refused <==> old(part.live[f.inode].size) + |buf| > 71680
    ensures r == Panicked <==> old(part.live[f.inode].size) + |buf| == 71680
                               && !(old(part.blocks[f.inode])[0] == 0 && |old(part.Free())| == 0)
    ensures r.Written? ==> r.n == |buf|
    ensures part.Opened(f.inode) && part.open.Keys == old(part.open).Keys
    ensures r.Written? ==>
      && part.Valid() && f.pos == Wrap(part.live[f.inode].size - 1)
      && Appends(old(part.live), old(part.blocks), old(part.Contents()), part.live, part.blocks, part.Contents(), f.inode, buf)
    ensures !r.Written? ==> part.Contents() == old(part.Contents()) && f.pos == old(f.pos)
    ensures r.Refused? ==> part.Valid() && part.live == old(part.live) && part.blocks == old(part.blocks)
    ensures r.NoSpace? ==> part.disk == old(part.disk) && part.ValidBut({f.inode}, {f.inode}) && part.Free() == {}
  {
    hide Owns, Covers, Room, Agree, Loaded, Synced, UsedIn, SlotsOf, AllData, Prefix, FreeIn, Longer, Appends;
    var i := f.inode;
    AgreeAt(part.live, part.open, part.inodeBitmap.Used(), i);
    if Wrap(part.open[i].size + |buf|) > 512 * 140 {
      return Refused;
    }
    SyncedWeaker(part.disk, part.table, part.live, i);
    var ok := GrowFirst(part, i);
    if !ok {
      LoadedWeaker(part.disk, part.live, part.blocks, i);
      return NoSpace;
    }
    if (part.open[i].size + |buf|) / 512 + 1 > 140 {
      return Panicked;
    }
    ghost var live1, blocks1 := part.live, part.blocks;
    r := WriteMore(part, f, buf);
    if r.Written? {
      GrewThenAppends(old(part.live), old(part.blocks), old(part.Contents()), live1, blocks1, part.live, part.blocks, part.Contents(), i, buf);
    }
  }

  // ---------------------------------------------------------------- reading

  datatype ReadResult = Crashed | EndOfFile | Read(data: seq<byte>)

  /** Where a write of no bytes to an empty file leaves the position. */
  const NO_POS: u32 := 0xffff_ffff

  /** What a read of up to `count` bytes gives: the rest of the file or that much of it, nothing at its end, and a
      failed assertion when it would end behind block 138 or starts from nowhere. */
  function ReadOutcome(contents: seq<byte>, pos: u32, count: u32): ReadResult {
    if pos > |contents| then Crashed
    else
      var n := if count < |contents| - pos then count else |contents| - pos;
      if n == 0 && count > 0 then EndOfFile
      else if pos + n >= 139 * 512 then Crashed
      else Read(contents[pos..pos + n])
  }

  /** What a read gives, said outright: the end of the file is where nothing is left and something is wanted; a read that
      would end behind block 138 fails; any other gives what was asked for or all that is left. */
  lemma ReadIsExact(c: seq<byte>, pos: u32, count: u32)
    ensures ReadOutcome(c, pos, count) == EndOfFile <==> pos == |c| && count > 0
    ensures ReadOutcome(c, pos, count) == Crashed <==>
              pos > |c| || (!(pos == |c| && count > 0) && pos + count >= 71168 && |c| >= 71168)
    ensures ReadOutcome(c, pos, count).Read? ==>
              var data := ReadOutcome(c, pos, count).data;
              && |data| <= count && pos + |data| <= |c| && data == c[pos..pos + |data|]
              && (|data| == count || pos + |data| == |c|)
  {
  }

  /** What one block holds of a file's data. */
  lemma PartOfBlock(disk: seq<Sector>, slots: seq<u32>, size: nat, pos: nat, n: nat)
    requires |slots| == SLOTS && size <= 512 * INDIRECT && pos + n <= size && pos % 512 + n <= 512
    requires pos / 512 < INDIRECT && slots[pos / 512] < |disk|
    ensures disk[slots[pos / 512]][pos % 512..pos % 512 + n] == Data(disk, slots, size)[pos..pos + n]
  {
    var a, b := disk[slots[pos / 512]][pos % 512..pos % 512 + n], Data(disk, slots, size)[pos..pos + n];
    forall k | 0 <= k < n ensures a[k] == b[k] {
      assert (pos + k) / 512 == pos / 512 && (pos + k) % 512 == pos % 512 + k;
      assert Data(disk, slots, size)[pos + k] == ByteAt(disk, slots[(pos + k) / 512], (pos + k) % 512);
    }
  }

  /** file_read up to the loop that copies: the entries of all_blocks for blocks `from` to `to`. */
  method ListBlocks(part: Partition, i: nat, from: nat, to: nat) returns (all: seq<u32>)
    requires part.Valid() && part.Opened(i) && FileShaped(part.blocks[i], part.live[i].size)
    requires from <= to < 139 && (to < BlockCount(part.blocks[i], part.live[i].size) || from == to == 0)
    ensures Listed(all, part.blocks[i], from, to + 1)
  {
    hide Owns, Covers, Room, Agree, Loaded, Synced, UsedIn, SlotsOf, Words, Prefix;
    AgreeAt(part.live, part.open, part.inodeBitmap.Used(), i);
    LoadedHolds(part.disk, part.live, part.blocks, {}, i);
    PrefixAt(part.blocks[i], BlockCount(part.blocks[i], part.live[i].size));
    OnTheDisk(part, i, INDIRECT);
    var ino := part.open[i];
    assert forall k | 0 <= k < 12 :: part.blocks[i][k] == ino.sectors[k] by {
      assert forall k | 0 <= k < 12 :: part.blocks[i][..12][k] == ino.sectors[..12][k];
    }
    all := seq(INDIRECT, k => 0);
    if from == to {
      if to < 12 {
        all := all[to := ino.sectors[to]];
      } else {
        TableRead(part.disk, part.live[i], part.blocks[i], all);
        all := all[..12] + Words(part.disk[ino.sectors[12]], 128);
      }
    } else if to < 12 {
      var k := from;
      while k <= to
        invariant from <= k <= to + 1 && Listed(all, part.blocks[i], from, k)
      {
        all := all[k := ino.sectors[k]];
        k := k + 1;
      }
    } else if from < 12 {
      var k := from;
      while k < 12
        invariant from <= k <= 12 && Listed(all, part.blocks[i], from, k)
      {
        all := all[k := ino.sectors[k]];
        k := k + 1;
      }
      assert ino.sectors[12] != 0;
      TableRead(part.disk, part.live[i], part.blocks[i], all);
      all := all[..12] + Words(part.disk[ino.sectors[12]], 128);
    } else {
      assert ino.sectors[12] != 0;
      TableRead(part.disk, part.live[i], part.blocks[i], all);
      all := all[..12] + Words(part.disk[ino.sectors[12]], 128);
    }
  }

  /** Every block that holds a byte from `from` to `to` is listed. */
  ghost predicate ReadPlan(all: seq<u32>, slots: seq<u32>, from: nat, to: nat, size: nat) {
    to <= size && to < 139 * 512 && Listed(all, slots, from / 512, to / 512 + 1)
  }

  lemma PlanBounds(all: seq<u32>, slots: seq<u32>, from: nat, to: nat, size: nat)
    requires ReadPlan(all, slots, from, to, size)
    ensures to <= size && to < 139 * 512
  {
  }

  ghost predicate IsPart(data: seq<byte>, contents: seq<byte>, pos: nat, n: nat) {
    |data| == n && pos + n <= |contents| && data == contents[pos..pos + n]
  }

  /** One turn of the copy loop of file_read: what the block at the position has of the bytes still wanted. */
  method ReadTurn(part: Partition, i: nat, all: seq<u32>, pos: u32, left: u32, ghost from: nat, ghost to: nat) returns (chunk: seq<byte>)
    requires part.Valid() && part.Opened(i) && i in part.Contents()
    requires from <= pos < to == pos + left && ReadPlan(all, part.blocks[i], from, to, part.live[i].size)
    requires FileShaped(part.blocks[i], part.live[i].size)
    ensures 0 < |chunk| <= left && pos + |chunk| <= |part.Contents()[i]| && chunk == part.Contents()[i][pos..pos + |chunk|]
  {
    hide Owns, Covers, Room, Agree, Loaded, Synced, UsedIn, SlotsOf, Prefix, Data;
    AgreeAt(part.live, part.open, part.inodeBitmap.Used(), i);
    InContents(part, i);
    var idx := pos / 512;
    var lba := all[idx];
    var off := pos % 512;
    var room := 512 - off;
    var n := if left < room then left else room;
    OnTheDisk(part, i, idx);
    PrefixIn(part.blocks[i], BlockCount(part.blocks[i], part.live[i].size), idx);
    PartOfBlock(part.disk, part.blocks[i], part.live[i].size, pos, n);
    chunk := part.disk[lba][off..off + n];
  }

  /** The copy loop of file_read. */
  method ReadData(part: Partition, f: OpenFile, i: nat, all: seq<u32>, size: u32) returns (data: seq<byte>)
    requires part.Valid() && part.Opened(i) && FileShaped(part.blocks[i], part.live[i].size) && i in part.Contents()
    requires ReadPlan(all, part.blocks[i], f.pos, f.pos + size, part.live[i].size)
    modifies f`pos
    ensures f.pos == old(f.pos) + size && IsPart(data, part.Contents()[i], old(f.pos), size)
  {
    hide Owns, Covers, Room, Agree, Loaded, Synced, UsedIn, FileShaped, AllData;
    AgreeAt(part.live, part.open, part.inodeBitmap.Used(), i);
    InContents(part, i);
    PlanBounds(all, part.blocks[i], f.pos, f.pos + size, part.live[i].size);
    hide ReadPlan, Partition.ValidBut, Partition.Contents;
    ghost var contents := part.Contents()[i];
    ghost var pos0 := f.pos;
    data := [];
    var left: u32 := size;
    while |data| < size
      invariant |data| <= size && left == size - |data| && f.pos == pos0 + |data|
      invariant data == contents[pos0..pos0 + |data|]
    {
      var chunk := ReadTurn(part, i, all, f.pos, left, pos0, pos0 + size);
      assert contents[pos0..f.pos] + contents[f.pos..f.pos + |chunk|] == contents[pos0..f.pos + |chunk|];
      data := data + chunk;
      f.pos := f.pos + |chunk|;
      left := left - |chunk|;
    }
  }

  /** file_read. */
  method FileRead(part: Partition, f: OpenFile, count: u32) returns (r: ReadResult)
    requires part.Valid() && f.used && part.Opened(f.inode) && count <= 0xc000_0000
    requires FileShaped(part.blocks[f.inode], part.live[f.inode].size)
    requires f.pos <= part.live[f.inode].size || f.pos == NO_POS
    modifies f`pos
    ensures f.inode in part.Contents() && |part.Contents()[f.inode]| == part.live[f.inode].size
    ensures r == ReadOutcome(part.Contents()[f.inode], old(f.pos), count)
    ensures f.pos == old(f.pos) + if r.Read? then |r.data| else 0
    ensures var c, pos := part.Contents()[f.inode], old(f.pos);
            && (r == EndOfFile <==> pos == |c| && count > 0)
            && (r == Crashed <==> pos > |c| || (!(pos == |c| && count > 0) && pos + count >= 71168 && |c| >= 71168))
            && (r.Read? ==> |r.data| <= count && pos + |r.data| <= |c| && r.data == c[pos..pos + |r.data|]
                            && (|r.data| == count || pos + |r.data| == |c|))
  {
    hide Owns, Covers, Room, Agree, Loaded, Synced, UsedIn, SlotsOf, Words, Prefix, Data;
    var i := f.inode;
    AgreeAt(part.live, part.open, part.inodeBitmap.Used(), i);
    InContents(part, i);
    ghost var contents := part.Contents()[i];
    ReadIsExact(contents, f.pos, count);
    var size := count;
    if Wrap(f.pos + count) > part.open[i].size {
      size := Wrap(part.open[i].size - f.pos);
      if size == 0 {
        return EndOfFile;
      }
    }
    var from := f.pos / 512;
    var to := Wrap(f.pos + size) / 512;
    if !(from < 139 && to < 139) {
      return Crashed;
    }
    var all := ListBlocks(part, i, from, to);
    var data := ReadData(part, f, i, all, size);
    return Read(data);
  }

  // ---------------------------------------------------------------- seeking

  type s32 = x: int | -0x8000_0000 <= x < 0x8000_0000

  /** The value a 32-bit signed register holds after a sum, or an unsigned word read as signed. */
  function Signed(x: int): s32 {
    (x + 0x8000_0000) % 0x1_0000_0000 - 0x8000_0000
  }

  datatype Whence = SeekSet | SeekCur | SeekEnd

  /** Where a seek would go, were integers unbounded. A position of nowhere counts as -1. */
  function Target(size: nat, pos: u32, offset: s32, whence: Whence): int {
    match whence
    case SeekSet => offset
    case SeekCur => (if pos == NO_POS then -1 else pos) + offset
    case SeekEnd => size + offset
  }

  lemma TargetIsSum(size: nat, pos: u32, offset: s32, whence: Whence)
    ensures whence == SeekSet ==> Target(size, pos, offset, whence) == offset
    ensures whence == SeekCur && pos != NO_POS ==> Target(size, pos, offset, whence) == pos + offset
    ensures whence == SeekCur && pos == NO_POS ==> Target(size, pos, offset, whence) == offset - 1
    ensures whence == SeekEnd ==> Target(size, pos, offset, whence) == size + offset
  {
  }

  /** In 32 bits the sum is the target, or neither is in the file. */
  lemma SeekInWord(size: nat, pos: u32, offset: s32, whence: Whence, to: s32)
    requires size < 512 * INDIRECT && (pos <= size || pos == NO_POS)
    requires to == match whence case SeekSet => offset case SeekCur => Signed(Signed(pos) + offset) case SeekEnd => Signed(Signed(size) + offset)
    ensures Signed(size) == size
    ensures var target := Target(size, pos, offset, whence); (0 <= to <= size - 1 <==> 0 <= target < size) && (0 <= target < size ==> to == target)
  {
    assert Signed(pos) == if pos == NO_POS then -1 else pos;
  }

  /** sys_lseek on a regular file: it goes to any byte of the file, but not to its end; -1 is the source's -1. */
  method Lseek(part: Partition, f: OpenFile, offset: s32, whence: Whence) returns (r: int)
    requires f.used && f.inode in part.open && part.open[f.inode].size < 512 * INDIRECT
    requires f.pos <= part.open[f.inode].size || f.pos == NO_POS
    modifies f`pos
    ensures var to := Target(part.open[f.inode].size, old(f.pos), offset, whence);
            if 0 <= to < part.open[f.inode].size then r == to && f.pos == to else r == -1 && f.pos == old(f.pos)
    ensures r == -1 || (0 <= r == f.pos < part.open[f.inode].size)
    ensures whence == SeekSet ==> (r != -1 <==> 0 <= offset < part.open[f.inode].size) && (r != -1 ==> r == offset)
    ensures whence == SeekEnd ==> (r != -1 <==> 0 <= part.open[f.inode].size + offset && offset < 0)
                                  && (r != -1 ==> r == part.open[f.inode].size + offset)
    ensures whence == SeekCur && old(f.pos) != NO_POS ==> (r != -1 <==> 0 <= old(f.pos) + offset < part.open[f.inode].size)
                                                          && (r != -1 ==> r == old(f.pos) + offset)
    ensures whence == SeekCur && old(f.pos) == NO_POS ==> (r != -1 <==> 0 <= offset - 1 < part.open[f.inode].size)
                                                          && (r != -1 ==> r == offset - 1)
  {
    hide Signed, Target;
    var size := Signed(part.open[f.inode].size);
    var to: s32;
    match whence {
      case SeekSet => to := offset;
      case SeekCur => to := Signed(Signed(f.pos) + offset);
      case SeekEnd => to := Signed(size + offset);
    }
    SeekInWord(part.open[f.inode].size, f.pos, offset, whence, to);
    TargetIsSum(part.open[f.inode].size, f.pos, offset, whence);
    if to < 0 || to > size - 1 {
      return -1;
    }
    f.pos := to;
    return f.pos;
  }
}
