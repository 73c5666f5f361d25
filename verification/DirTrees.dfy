/** The directories on a partition as the tree of Tree.dfy: what making and removing an entry on the disk does to it. */
module DirTrees {
  import opened Disks
  import opened InodeTable
  import opened Bitmaps
  import opened Partitions
  import opened DirEntries
  import opened Directory
  import opened Dirs
  import opened Inodes
  import Tree
  import TreeOps

  /** The numbers of directories, with their inodes and blocks. */
  ghost predicate AllShaped(disk: seq<Sector>, live: map<nat, Inode>, blocks: map<nat, seq<u32>>, ds: set<u32>) {
    forall d | d in ds :: d in live && d in blocks && DirShaped(disk, blocks[d], live[d].size, d)
  }

  ghost function DirsOf(disk: seq<Sector>, live: map<nat, Inode>, blocks: map<nat, seq<u32>>, ds: set<u32>): Tree.Dirs
    requires AllShaped(disk, live, blocks, ds)
  {
    map d | d in ds :: DirAt(disk, live, blocks, ds, d)
  }

  ghost function DirAt(disk: seq<Sector>, live: map<nat, Inode>, blocks: map<nat, seq<u32>>, ds: set<u32>, d: u32): seq<Entry>
    requires AllShaped(disk, live, blocks, ds) && d in ds
  {
    DirOf(disk, blocks[d])
  }

  lemma ShapedAt(disk: seq<Sector>, live: map<nat, Inode>, blocks: map<nat, seq<u32>>, ds: set<u32>, d: u32)
    requires AllShaped(disk, live, blocks, ds) && d in ds
    ensures d in live && d in blocks && |blocks[d]| == SLOTS && DirShaped(disk, blocks[d], live[d].size, d)
    ensures DirsOf(disk, live, blocks, ds)[d] == DirOf(disk, blocks[d])
  {
    hide DirOf, GoodDir;
  }

  /** Only directory p was changed. */
  lemma OneChanged(disk0: seq<Sector>, owner0: map<u32, (nat, nat)>, live0: map<nat, Inode>, blocks0: map<nat, seq<u32>>,
                   disk: seq<Sector>, live: map<nat, Inode>, blocks: map<nat, seq<u32>>, ds: set<u32>, p: u32)
    requires AllShaped(disk0, live0, blocks0, ds) && p in ds && Owns(owner0, blocks0) && KeepsOthers(disk0, owner0, disk, p)
    requires disk0 != [] && disk != [] && disk[0] == disk0[0]
    requires p in live && p in blocks && live == live0[p as nat := live[p]] && blocks == blocks0[p as nat := blocks[p]]
    requires DirShaped(disk, blocks[p], live[p].size, p)
    ensures AllShaped(disk, live, blocks, ds) && |blocks[p]| == SLOTS
    ensures DirsOf(disk, live, blocks, ds) == DirsOf(disk0, live0, blocks0, ds)[p := DirOf(disk, blocks[p])]
  {
    hide DirOf, DirShaped, Owns, KeepsOthers;
    ShapeGood(disk, blocks[p], live[p].size, p);
    forall d | d in ds
      ensures d in live && d in blocks && DirShaped(disk, blocks[d], live[d].size, d) && |blocks[d]| == SLOTS
      ensures d != p ==> d in blocks0 && |blocks0[d]| == SLOTS && DirOf(disk, blocks[d]) == DirOf(disk0, blocks0[d])
    {
      ShapedAt(disk0, live0, blocks0, ds, d);
      if d != p {
        OthersSeeNothing(disk0, owner0, blocks0, disk, blocks, p, d, 0);
        SameShape(disk0, disk, blocks[d], live[d].size, d);
      }
    }
  }

  /** What the other inodes hold is as it was. */
  lemma OthersHold(disk0: seq<Sector>, owner0: map<u32, (nat, nat)>, live0: map<nat, Inode>, blocks0: map<nat, seq<u32>>,
                   disk: seq<Sector>, live: map<nat, Inode>, blocks: map<nat, seq<u32>>, p: nat, j: nat)
    requires Owns(owner0, blocks0) && KeepsOthers(disk0, owner0, disk, p) && disk0 != [] && disk != [] && disk[0] == disk0[0]
    requires p in live && p in blocks && live == live0[p := live[p]] && blocks == blocks0[p := blocks[p]] && j != p
    requires j in AllData(disk0, live0, blocks0)
    ensures j in AllData(disk, live, blocks) && AllData(disk, live, blocks)[j] == AllData(disk0, live0, blocks0)[j]
  {
    hide Owns, KeepsOthers, Data, DirOf;
    OthersSeeNothing(disk0, owner0, blocks0, disk, blocks, p, j, live0[j].size);
  }

  lemma Parts(part: Partition)
    requires part.Valid()
    ensures Owns(part.owner, part.blocks) && Covers(part.owner, part.blockBitmap.Used(), part.reserved, part.dataStart)
    ensures part.disk != [] && part.dataStart > 0 && part.blockBitmap.bits != part.inodeBitmap.bits
  {
    hide Owns, Covers, Room, Agree, Loaded, Synced, UsedIn;
  }

  /** Directory p has the first block that it had. */
  ghost predicate FirstStays(before: map<nat, seq<u32>>, after: map<nat, seq<u32>>, p: nat) {
    p in before && p in after && |before[p]| == |after[p]| == SLOTS && (before[p][0] != 0 ==> after[p][0] == before[p][0])
  }

  /** sync_dir_entry and inode_sync of the directory, as file_create and sys_mkdir call them one behind the other: in the
      tree the entry is inserted into directory p, and that is all; no other inode's data changes. */
  method LinkEntry(part: Partition, p: u32, e: Entry, ghost ds: set<u32>) returns (ok: bool)
    requires part.Valid() && part.Opened(p) && p in ds && AllShaped(part.disk, part.live, part.blocks, ds)
    requires var es := DirsOf(part.disk, part.live, part.blocks, ds)[p]; CanAdd(es, e) && FreePlace(es) < PLACES
    modifies part`owner, part`blocks, part`open, part`live, part`disk, part.blockBitmap.bits
    ensures part.Valid() && part.Opened(p) && AllShaped(part.disk, part.live, part.blocks, ds)
    ensures part.live == old(part.live)[p as nat := part.live[p]] && part.blocks == old(part.blocks)[p as nat := part.blocks[p]]
    ensures part.open.Keys == old(part.open).Keys && FirstStays(old(part.blocks), part.blocks, p)
    ensures ok ==> var dirs := DirsOf(old(part.disk), old(part.live), old(part.blocks), ds);
                   DirsOf(part.disk, part.live, part.blocks, ds) == dirs[p := Insert(dirs[p], e)]
    ensures ok ==> forall j | j in old(part.Contents()) && j != p :: j in part.Contents() && part.Contents()[j] == old(part.Contents())[j]
    ensures !ok ==> part.live == old(part.live) && part.blocks == old(part.blocks) && part.disk == old(part.disk)
    ensures ok <==> (var es := DirsOf(old(part.disk), old(part.live), old(part.blocks), ds)[p];
                     old(part.blocks[p])[FreePlace(es) / PER_SECTOR] != 0 || old(part.Free()) != {})
  {
    hide Owns, Covers, Room, FreeIn, Agree, Loaded, Synced, SlotsOf, DirOf, EntryOf, UsedIn, DirShaped, AllShaped, CanAdd, GoodDir,
      KeepsOthers, AllData, Insert, DirsOf;
    ghost var disk0, owner0, live0, blocks0, used0 := part.disk, part.owner, part.live, part.blocks, part.blockBitmap.Used();
    Parts(part);
    ShapedAt(disk0, live0, blocks0, ds, p);
    ok := SyncDirEntry(part, p, e);
    if ok {
      ghost var disk1 := part.disk;
      SyncDir(part, p);
      KeptAfterSync(disk0, owner0, used0, part.reserved, part.dataStart, disk1, part.disk, p);
      OneChanged(disk0, owner0, live0, blocks0, part.disk, part.live, part.blocks, ds, p);
      forall j | j in AllData(disk0, live0, blocks0) && j != p
        ensures j in AllData(part.disk, part.live, part.blocks) && AllData(part.disk, part.live, part.blocks)[j] == AllData(disk0, live0, blocks0)[j]
      {
        OthersHold(disk0, owner0, live0, blocks0, part.disk, part.live, part.blocks, p, j);
      }
    }
  }

  /** Directories whose inodes and blocks are the same are as they were. */
  lemma SameDirs(part: Partition, disk0: seq<Sector>, live0: map<nat, Inode>, blocks0: map<nat, seq<u32>>, ds: set<u32>)
    requires part.Layout() && part.Owned() && AllShaped(disk0, live0, blocks0, ds)
    requires forall d | d in ds :: d in part.live && d in part.blocks && d in live0 && d in blocks0
                                   && part.live[d].size == live0[d].size && part.blocks[d] == blocks0[d]
    requires |disk0| == |part.disk| && forall l | part.dataStart <= l < |disk0| :: part.disk[l] == disk0[l]
    ensures AllShaped(part.disk, part.live, part.blocks, ds)
    ensures DirsOf(part.disk, part.live, part.blocks, ds) == DirsOf(disk0, live0, blocks0, ds)
  {
    hide DirOf, DirShaped, Owns, Covers, Room, UsedIn;
    forall d | d in ds
      ensures d in part.live && d in part.blocks && DirShaped(part.disk, part.blocks[d], part.live[d].size, d) && |part.blocks[d]| == SLOTS
      ensures d in blocks0 && |blocks0[d]| == SLOTS && DirOf(part.disk, part.blocks[d]) == DirOf(disk0, blocks0[d])
    {
      ShapedAt(disk0, live0, blocks0, ds, d);
      SameDir(part, disk0, d);
      SameShape(disk0, part.disk, part.blocks[d], part.live[d].size, d);
    }
  }

  lemma DirsAreLive(disk: seq<Sector>, live: map<nat, Inode>, blocks: map<nat, seq<u32>>, ds: set<u32>)
    requires AllShaped(disk, live, blocks, ds)
    ensures forall d | d in ds :: d in live && d in blocks
    ensures DirsOf(disk, live, blocks, ds).Keys == ds
  {
    hide DirShaped, DirOf;
  }

  /** A sector is no block of inode i. */
  ghost predicate NotOf(owner: map<u32, (nat, nat)>, lba: nat, i: nat) {
    lba in owner ==> owner[lba].0 != i
  }

  /** A block that an inode has afterwards it had before, when only another inode was changed. */
  lemma NotTaken(owner0: map<u32, (nat, nat)>, blocks0: map<nat, seq<u32>>, owner: map<u32, (nat, nat)>, blocks: map<nat, seq<u32>>,
                 p: nat, i: nat, lba: nat)
    requires Owns(owner0, blocks0) && Owns(owner, blocks) && p in blocks && blocks == blocks0[p := blocks[p]] && i != p
    requires NotOf(owner0, lba, i)
    ensures NotOf(owner, lba, i)
  {
    hide Owns;
    if lba in owner && owner[lba].0 == i {
      SlotOfOwner(owner, blocks, lba);
      OwnerOf(owner0, blocks0, i, owner[lba].1);
    }
  }

  /** An inode is in use and nobody has it open. */
  ghost predicate Closed(part: Partition, i: nat)
    reads part
  {
    i in part.live && i !in part.open && NotOf(part.owner, part.dataStart, i)
  }

  /** delete_dir_entry: in the tree the link goes, and that is all; no other inode's data changes. */
  method DeleteLink(part: Partition, p: u32, ino: u32, ghost ds: set<u32>)
    requires part.Valid() && part.Opened(p) && p in ds && AllShaped(part.disk, part.live, part.blocks, ds)
    modifies part`owner, part`blocks, part`open, part`live, part`disk, part.blockBitmap.bits
    ensures part.Valid() && part.Opened(p) && AllShaped(part.disk, part.live, part.blocks, ds)
    ensures part.live == old(part.live)[p as nat := part.live[p]] && part.open.Keys == old(part.open).Keys
    ensures part.blocks == old(part.blocks)[p as nat := part.blocks[p]] && FirstStays(old(part.blocks), part.blocks, p)
    ensures var dirs := DirsOf(old(part.disk), old(part.live), old(part.blocks), ds);
            DirsOf(part.disk, part.live, part.blocks, ds) == TreeOps.WithoutLink(dirs, p, ino)
    ensures forall j | j in old(part.Contents()) && j != p :: j in part.Contents() && part.Contents()[j] == old(part.Contents())[j]
    ensures forall i: nat | i != p && NotOf(old(part.owner), part.dataStart, i) :: NotOf(part.owner, part.dataStart, i)
  {
    hide Owns, Covers, Room, FreeIn, Agree, Loaded, Synced, SlotsOf, DirOf, EntryOf, UsedIn, DirShaped, AllShaped, GoodDir, KeepsOthers,
      AllData, Delete, DirsOf, Without, TableByte, Zeros;
    ghost var disk0, owner0, live0, blocks0 := part.disk, part.owner, part.live, part.blocks;
    Parts(part);
    ShapedAt(disk0, live0, blocks0, ds, p);
    var found := DeleteDirEntry(part, p, ino);
    Parts(part);
    OneChanged(disk0, owner0, live0, blocks0, part.disk, part.live, part.blocks, ds, p);
    forall i: nat | i != p && NotOf(owner0, part.dataStart, i) ensures NotOf(part.owner, part.dataStart, i) {
      NotTaken(owner0, blocks0, part.owner, part.blocks, p, i, part.dataStart);
    }
    forall j | j in AllData(disk0, live0, blocks0) && j != p
      ensures j in AllData(part.disk, part.live, part.blocks) && AllData(part.disk, part.live, part.blocks)[j] == AllData(disk0, live0, blocks0)[j]
    {
      OthersHold(disk0, owner0, live0, blocks0, part.disk, part.live, part.blocks, p, j);
    }
  }

  /** delete_dir_entry and inode_release, as sys_unlink calls them: in the tree the link to the file goes, and that is all;
      the file's inode is free again, and no other inode's data changes. */
  method UnlinkFile(part: Partition, p: u32, ino: u32, ghost ds: set<u32>)
    requires part.Valid() && part.Opened(p) && p in ds && AllShaped(part.disk, part.live, part.blocks, ds)
    requires Closed(part, ino) && ino !in ds
    modifies part`owner, part`blocks, part`open, part`live, part`disk, part.blockBitmap.bits, part.inodeBitmap.bits
    ensures part.Valid() && part.Opened(p) && AllShaped(part.disk, part.live, part.blocks, ds)
    ensures part.live == old(part.live)[p as nat := part.live[p]] - {ino as nat} && part.open.Keys == old(part.open).Keys
    ensures part.blocks == old(part.blocks)[p as nat := part.blocks[p]] - {ino as nat} && FirstStays(old(part.blocks), part.blocks, p)
    ensures var dirs := DirsOf(old(part.disk), old(part.live), old(part.blocks), ds);
            DirsOf(part.disk, part.live, part.blocks, ds) == TreeOps.WithoutLink(dirs, p, ino)
    ensures forall j | j in old(part.Contents()) && j != p && j != ino :: j in part.Contents() && part.Contents()[j] == old(part.Contents())[j]
  {
    hide Owns, Covers, Room, FreeIn, Agree, Loaded, Synced, UsedIn, AllShaped, AllData, TreeOps.WithoutLink, DirsOf, Without, TableByte, Zeros;
    DirsAreLive(part.disk, part.live, part.blocks, ds);
    DeleteLink(part, p, ino, ds);
    ghost var disk1, live1, blocks1 := part.disk, part.live, part.blocks;
    AgreeAt(part.live, part.open, part.inodeBitmap.Used(), ino);
    InodeRelease(part, ino);
    TableOnly(disk1, part.disk, part.table, part.dataStart, ino, Zeros(INODE_SIZE));
    SameDirs(part, disk1, live1, blocks1, ds);
  }

  /** Writing a record leaves the data blocks alone. */
  lemma TableOnly(before: seq<Sector>, after: seq<Sector>, table: nat, dataStart: nat, i: nat, record: seq<byte>)
    requires table + TABLE_SECTORS <= dataStart <= |before| && i < MAX_FILES && |record| == INODE_SIZE && SlotWritten(before, after, table, i, record)
    ensures |after| == |before| && forall l | dataStart <= l < |before| :: after[l] == before[l]
  {
    hide TableByte;
  }
}
