/** Making and removing files and directories on a mounted partition: what TreeOps does to a tree, fs.c, file.c and dir.c
    do to the disk. */
module TreeOnDisk {
  import opened Disks
  import opened InodeTable
  import opened Bitmaps
  import opened Partitions
  import opened DirEntries
  import opened Directory
  import opened Dirs
  import opened DirTrees
  import FileLife
  import Format
  import opened Inodes
  import opened Wrappers
  import opened TreeOps
  import Tree

  /** The directories on a partition as a tree. */
  ghost function DirsIn(part: Partition, ds: set<u32>): Tree.Dirs
    reads part
    requires AllShaped(part.disk, part.live, part.blocks, ds)
  {
    DirsOf(part.disk, part.live, part.blocks, ds)
  }

  /** Block 0 is the root's, as the formatter makes it. */
  ghost predicate RootFirst(blocks: map<nat, seq<u32>>, start: nat) {
    0 in blocks && |blocks[0]| == SLOTS && blocks[0][0] == start
  }

  /** The directories `ds` are a tree, whose files are in use. */
  ghost predicate Mounted(part: Partition, ds: set<u32>, home: map<u32, u32>, depth: map<u32, nat>)
    reads part, part.blockBitmap, part.inodeBitmap, part.blockBitmap.bits, part.inodeBitmap.bits
  {
    && part.Valid() && AllShaped(part.disk, part.live, part.blocks, ds)
    && Tree.GoodTree(DirsIn(part, ds), home, depth)
    && (forall i | i in home :: i as nat in part.live)
    && RootFirst(part.blocks, part.dataStart)
  }

  lemma MountedParts(part: Partition, ds: set<u32>, home: map<u32, u32>, depth: map<u32, nat>)
    requires Mounted(part, ds, home, depth)
    ensures part.Valid() && AllShaped(part.disk, part.live, part.blocks, ds) && RootFirst(part.blocks, part.dataStart)
    ensures Tree.GoodTree(DirsIn(part, ds), home, depth) && forall i | i in home :: i as nat in part.live
  {
    hide Partition.Valid, AllShaped, RootFirst, Tree.GoodTree, DirsIn;
  }

  lemma OpenIsLiveHere(part: Partition, d: nat)
    requires part.Valid()
    ensures d in part.open ==> d in part.live && part.open[d] == part.live[d]
  {
    hide Owns, Covers, Room, Loaded, Synced, UsedIn;
  }

  lemma IsMounted(part: Partition, ds: set<u32>, home: map<u32, u32>, depth: map<u32, nat>)
    requires part.Valid() && AllShaped(part.disk, part.live, part.blocks, ds) && RootFirst(part.blocks, part.dataStart)
    requires Tree.GoodTree(DirsIn(part, ds), home, depth) && forall i | i in home :: i as nat in part.live
    ensures Mounted(part, ds, home, depth)
  {
    hide Partition.Valid, AllShaped, RootFirst, Tree.GoodTree, DirsIn;
  }

  lemma RootStaysFirst(before: map<nat, seq<u32>>, after: map<nat, seq<u32>>, p: nat, start: nat)
    requires RootFirst(before, start) && start != 0 && FirstStays(before, after, p) && (0 != p ==> 0 in after && 0 in before && after[0] == before[0])
    ensures RootFirst(after, start)
  {
  }

  lemma SameDirsNow(part: Partition, disk0: seq<Sector>, live0: map<nat, Inode>, blocks0: map<nat, seq<u32>>, ds: set<u32>)
    requires part.Valid() && AllShaped(disk0, live0, blocks0, ds)
    requires forall d | d in ds :: d in part.live && d in part.blocks && d in live0 && d in blocks0
                                   && part.live[d].size == live0[d].size && part.blocks[d] == blocks0[d]
    requires |disk0| == |part.disk| && forall l | part.dataStart <= l < |disk0| :: part.disk[l] == disk0[l]
    ensures AllShaped(part.disk, part.live, part.blocks, ds) && DirsIn(part, ds) == DirsOf(disk0, live0, blocks0, ds)
  {
    hide Owns, Covers, Room, Agree, Loaded, Synced, UsedIn, AllShaped, DirsOf;
    SameDirs(part, disk0, live0, blocks0, ds);
  }

  /** An inode number that is not in use is nowhere in the tree. */
  lemma NewIsNowhere(part: Partition, ds: set<u32>, home: map<u32, u32>, depth: map<u32, nat>, no: nat)
    requires Mounted(part, ds, home, depth) && no !in part.live
    ensures no != 0 && forall d: u32 | d == no :: d !in ds && d !in home
  {
    hide Owns, Covers, Room, Agree, Loaded, Synced, UsedIn, DirsOf, AllShaped;
    DirsAreLive(part.disk, part.live, part.blocks, ds);
    Apart(DirsIn(part, ds), home, depth);
  }

  /** A name that directory p does not have, and room for it. */
  ghost predicate NewName(es: seq<Entry>, name: string) {
    Tree.GoodName(name) && Find(es, name) == None && FreePlace(es) < PLACES
  }

  /** The data of an inode that is not the directory p is as it was. */
  ghost predicate DataKept(before: map<nat, seq<byte>>, after: map<nat, seq<byte>>, except: set<nat>) {
    forall j | j in before && j !in except :: j in after && after[j] == before[j]
  }

  lemma KeptThrough(a: map<nat, seq<byte>>, no: nat, b: map<nat, seq<byte>>, c: map<nat, seq<byte>>, p: nat)
    requires no !in a && DataKept(a[no := []], b, {no}) && (DataKept(b, c, {p}) || DataKept(b, c, {no}) || c == b - {no})
    ensures DataKept(a, c, {p})
  {
    forall j | j in a && j != p ensures j in c && c[j] == a[j] {
      assert j in a[no := []] && j in b;
    }
  }

  lemma KeptBack(a: map<nat, seq<byte>>, b: map<nat, seq<byte>>, c: map<nat, seq<byte>>, p: nat, no: nat)
    requires no !in a && DataKept(a, b, {p}) && DataKept(b, c, {p, no})
    ensures DataKept(a, c, {p})
  {
  }

  lemma KeptSelf(a: map<nat, seq<byte>>, p: nat)
    ensures DataKept(a, a, {p})
  {
  }

  lemma KeptBeside(a: map<nat, seq<byte>>, no: nat, b: map<nat, seq<byte>>, p: nat)
    requires no !in a && DataKept(a[no := []], b, {p}) && no != p
    ensures DataKept(a, b, {p}) && no in b && b[no] == []
  {
    assert no in a[no := []];
    forall j | j in a && j != p ensures j in b && b[j] == a[j] {
      assert j in a[no := []];
    }
  }

  lemma RecordAbove(before: seq<Sector>, after: seq<Sector>, table: nat, dataStart: nat, no: nat)
    requires table + TABLE_SECTORS <= dataStart <= |before| && no < 256 && SlotWritten(before, after, table, no % 256, Record(Fresh(no)))
    ensures |after| == |before| && forall l | dataStart <= l < |before| :: after[l] == before[l]
  {
    hide TableByte, Record, Fresh;
    TableOnly(before, after, table, dataStart, no, Record(Fresh(no)));
  }

  /** The allocation of an inode that is not in the tree yet. */
  method NewInode(part: Partition, ghost ds: set<u32>, ghost home: map<u32, u32>, ghost depth: map<u32, nat>) returns (no: int)
    requires Mounted(part, ds, home, depth)
    modifies part`open, part`live, part`blocks, part`disk, part.inodeBitmap.bits
    ensures no < 256 && (no < 0 ==> forall n: nat | n < 256 :: n in old(part.live))
    ensures no >= 0 ==>
      && Mounted(part, ds, home, depth) && DirsIn(part, ds) == old(DirsIn(part, ds))
      && no > 0 && no as u32 !in ds && no as u32 !in home && no !in old(part.live) && no !in old(part.blocks) && no !in old(part.open)
      && part.live == old(part.live)[no := Fresh(no).(opens := 1)] && part.blocks == old(part.blocks)[no := NoSlots()]
      && part.open == old(part.open)[no := Fresh(no).(opens := 1)] && part.Contents() == old(part.Contents())[no := []]
  {
    hide Owns, Covers, Room, FreeIn, Agree, Loaded, Synced, SlotsOf, UsedIn, AllShaped, AllData, DirsOf, TableByte, Record, NoSlots,
      Mounted, Tree.GoodTree;
    MountedParts(part, ds, home, depth);
    ghost var disk0, live0, blocks0 := part.disk, part.live, part.blocks;
    DirsAreLive(disk0, live0, blocks0, ds);
    LoadedKeys(disk0, live0, blocks0, {});
    FileLife.InodesInBitmap(part);
    FileLife.OpenIsLive(live0, part.open, part.inodeBitmap.Used());
    forall n: nat | n !in live0 ensures n != 0 && forall d: u32 | d == n :: d !in ds && d !in home {
      NewIsNowhere(part, ds, home, depth, n);
    }
    no := MakeInode(part);
    if no == -1 || no >= 256 {
      return -1;
    }
    RecordAbove(disk0, part.disk, part.table, part.dataStart, no);
    SameDirs(part, disk0, live0, blocks0, ds);
    IsMounted(part, ds, home, depth);
  }

  lemma CanLink(dirs: Tree.Dirs, home: map<u32, u32>, depth: map<u32, nat>, p: u32, name: string, no: u32, kind: u32)
    requires Tree.GoodTree(dirs, home, depth) && p in dirs && NewName(dirs[p], name) && no != 0 && no !in dirs && no !in home
    requires kind == FT_REGULAR || kind == FT_DIRECTORY
    ensures CanMake(dirs, home, p, name, no) && CanAdd(dirs[p], Entry(name, no, kind)) && FreePlace(dirs[p]) < PLACES
  {
    hide Tree.GoodTree;
    CanMakeAdds(dirs, home, depth, p, name, no, kind);
  }

  /** The entry for a new inode. */
  method LinkNew(part: Partition, p: u32, name: string, no: u32, kind: u32, ghost ds: set<u32>, ghost home: map<u32, u32>, ghost depth: map<u32, nat>)
    returns (ok: bool)
    requires Mounted(part, ds, home, depth) && part.Opened(p) && p in ds && NewName(DirsIn(part, ds)[p], name)
    requires no != 0 && no !in ds && no !in home && (kind == FT_REGULAR || kind == FT_DIRECTORY)
    modifies part`owner, part`blocks, part`open, part`live, part`disk, part.blockBitmap.bits
    ensures CanMake(old(DirsIn(part, ds)), home, p, name, no)
    ensures part.Valid() && part.Opened(p) && AllShaped(part.disk, part.live, part.blocks, ds) && RootFirst(part.blocks, part.dataStart)
    ensures part.live == old(part.live)[p as nat := part.live[p]] && part.blocks == old(part.blocks)[p as nat := part.blocks[p]]
    ensures part.open.Keys == old(part.open).Keys && DataKept(old(part.Contents()), part.Contents(), {p as nat})
    ensures !ok ==> part.live == old(part.live) && part.blocks == old(part.blocks) && part.disk == old(part.disk)
    ensures !ok ==> Mounted(part, ds, home, depth) && DirsIn(part, ds) == old(DirsIn(part, ds))
    ensures ok <==> old(part.blocks[p])[FreePlace(old(DirsIn(part, ds))[p]) / PER_SECTOR] != 0 || old(part.Free()) != {}
    ensures ok ==> DirsIn(part, ds) == old(DirsIn(part, ds))[p := Insert(old(DirsIn(part, ds))[p], Entry(name, no, kind))]
  {
    hide Owns, Covers, Room, FreeIn, Agree, Loaded, Synced, SlotsOf, UsedIn, AllShaped, AllData, DirsOf, Tree.GoodTree, Insert, CanMake,
      CanAdd, NewName,
      Partition.Valid, Mounted, RootFirst, FirstStays, FreePlace;
    MountedParts(part, ds, home, depth);
    Parts(part);
    DirsAreLive(part.disk, part.live, part.blocks, ds);
    CanLink(DirsIn(part, ds), home, depth, p, name, no, kind);
    ghost var blocks0 := part.blocks;
    assert 0 in blocks0 by { HasRoot(blocks0, part.dataStart); }
    ok := LinkEntry(part, p, Entry(name, no, kind), ds);
    RootStaysFirst(blocks0, part.blocks, p, part.dataStart);
    if !ok {
      IsMounted(part, ds, home, depth);
    }
  }

  /** The rollback for an inode that is not in the tree. */
  method DropInode(part: Partition, no: nat, ghost ds: set<u32>, ghost home: map<u32, u32>, ghost depth: map<u32, nat>)
    requires Mounted(part, ds, home, depth) && part.Opened(no) && part.blocks[no] == NoSlots()
    requires no != 0 && no < 256 && no as u32 !in ds && no as u32 !in home
    modifies part`open, part`live, part`blocks, part.inodeBitmap.bits
    ensures Mounted(part, ds, home, depth) && DirsIn(part, ds) == old(DirsIn(part, ds))
    ensures part.live == old(part.live) - {no} && part.Contents() == old(part.Contents()) - {no}
  {
    hide Owns, Covers, Room, FreeIn, Agree, Loaded, Synced, SlotsOf, UsedIn, AllShaped, AllData, DirsOf, NoSlots, Tree.GoodTree,
      Partition.Valid, Mounted;
    MountedParts(part, ds, home, depth);
    ghost var disk1, live1, blocks1 := part.disk, part.live, part.blocks;
    DirsAreLive(disk1, live1, blocks1, ds);
    TakeBack(part, no);
    SameDirsNow(part, disk1, live1, blocks1, ds);
    IsMounted(part, ds, home, depth);
  }

  lemma HasRoot(blocks: map<nat, seq<u32>>, start: nat)
    requires RootFirst(blocks, start)
    ensures 0 in blocks
  {
  }

  lemma AddedFile(dirs: Tree.Dirs, p: u32, name: string, no: u32)
    requires p in dirs
    ensures WithFile(dirs, p, name, no) == dirs[p := Insert(dirs[p], Entry(name, no, FT_REGULAR))]
  {
  }

  /** The end of file_create: the entry for the new inode, or the rollback. */
  method LinkFile(part: Partition, p: u32, name: string, no: u32, ghost ds: set<u32>, ghost home: map<u32, u32>, ghost depth: map<u32, nat>)
    returns (ok: bool)
    requires Mounted(part, ds, home, depth) && part.Opened(p) && p in ds && NewName(DirsIn(part, ds)[p], name)
    requires no != 0 && no < 256 && no !in ds && no !in home && part.Opened(no) && part.blocks[no] == NoSlots() && part.open[no].opens == 1
    modifies part`owner, part`blocks, part`open, part`live, part`disk, part.blockBitmap.bits, part.inodeBitmap.bits
    ensures !ok ==>
      && Mounted(part, ds, home, depth) && DirsIn(part, ds) == old(DirsIn(part, ds)) && part.live == old(part.live) - {no as nat}
      && part.Contents() == old(part.Contents()) - {no as nat} && old(part.Free()) == {}
    ensures ok ==>
      && part.Opened(p) && part.Opened(no) && part.open[no].opens == 1
      && part.open.Keys == old(part.open).Keys && part.live.Keys == old(part.live).Keys
      && Mounted(part, ds, home[no := p], depth) && DirsIn(part, ds) == WithFile(old(DirsIn(part, ds)), p, name, no)
      && DataKept(old(part.Contents()), part.Contents(), {p as nat})
  {
    hide Owns, Covers, Room, FreeIn, Agree, Loaded, Synced, SlotsOf, UsedIn, AllShaped, AllData, DirsOf, NoSlots, Tree.GoodTree, Insert,
      CanMake, NewName,
      Partition.Valid, Mounted, RootFirst, FreePlace, Find, WithFile, DataKept, Fresh, OneBlock;
    MountedParts(part, ds, home, depth);
    ghost var dirs0 := DirsIn(part, ds);
    DirsAreLive(part.disk, part.live, part.blocks, ds);
    OpenIsLiveHere(part, no);
    ok := LinkNew(part, p, name, no, FT_REGULAR, ds, home, depth);
    if !ok {
      DropInode(part, no, ds, home, depth);
      return;
    }
    AddFileKeeps(dirs0, home, depth, p, name, no);
    AddedFile(dirs0, p, name, no);
    IsMounted(part, ds, home[no := p], depth);
    OpenIsLiveHere(part, no);
  }

  /** file_create: the tree gains the file, which is empty and open. It fails without a number below 256 and, when the entry
      needs a block, without one; then the tree is as it was. */
  method CreateFile(part: Partition, p: u32, name: string, ghost ds: set<u32>, ghost home: map<u32, u32>, ghost depth: map<u32, nat>)
    returns (no: int)
    requires Mounted(part, ds, home, depth) && part.Opened(p) && p in ds && NewName(DirsIn(part, ds)[p], name)
    modifies part`owner, part`blocks, part`open, part`live, part`disk, part.blockBitmap.bits, part.inodeBitmap.bits
    ensures no < 0 && (exists n: nat :: n < 256 && n !in old(part.live)) ==>
      && Mounted(part, ds, home, depth) && DirsIn(part, ds) == old(DirsIn(part, ds)) && part.live == old(part.live)
      && part.Contents() == old(part.Contents()) && old(part.Free()) == {}
    ensures no >= 0 ==>
      && 0 < no < 256 && no as u32 !in ds && no as u32 !in home && no !in old(part.live) && no !in old(part.open)
      && part.Opened(p) && part.Opened(no) && part.open[no].opens == 1
      && part.open.Keys == old(part.open).Keys + {no as nat} && part.live.Keys == old(part.live).Keys + {no as nat}
      && Mounted(part, ds, home[no as u32 := p], depth)
      && DirsIn(part, ds) == WithFile(old(DirsIn(part, ds)), p, name, no)
      && no in part.Contents() && part.Contents()[no] == [] && DataKept(old(part.Contents()), part.Contents(), {p as nat})
  {
    hide Owns, Covers, Room, FreeIn, Agree, Loaded, Synced, SlotsOf, UsedIn, AllShaped, AllData, DirsOf, NoSlots, Tree.GoodTree, Insert,
      CanMake, NewName,
      Partition.Valid, Mounted, RootFirst, FreePlace, Find, WithFile, DataKept, Fresh, OneBlock;
    MountedParts(part, ds, home, depth);
    Parts(part);
    ghost var contents0, live0 := part.Contents(), part.live;
    no := NewInode(part, ds, home, depth);
    if no < 0 {
      return;
    }
    var ok := LinkFile(part, p, name, no, ds, home, depth);
    if !ok {
      PutThenDrop(contents0, no, []);
      DropNothing(contents0, no);
      DropNothing(live0, no);
      return -1;
    }
    KeptBeside(contents0, no, part.Contents(), p);
  }

  /** So block 0 is no other inode's. */
  lemma StartIsRoots(part: Partition, i: nat)
    requires part.Valid() && RootFirst(part.blocks, part.dataStart) && i != 0
    ensures NotOf(part.owner, part.dataStart, i)
  {
    hide Covers, Room, Agree, Loaded, Synced, UsedIn;
  }

  lemma FileHere(part: Partition, ds: set<u32>, home: map<u32, u32>, depth: map<u32, nat>, ino: u32)
    requires Mounted(part, ds, home, depth) && ino in home
    ensures ino !in ds && ino != 0 && ino as nat in part.live && NotOf(part.owner, part.dataStart, ino)
  {
    hide Partition.Valid, DirsOf, AllShaped, RootFirst;
    DirsAreLive(part.disk, part.live, part.blocks, ds);
    Apart(DirsIn(part, ds), home, depth);
    StartIsRoots(part, ino);
  }

  /** sys_unlink of a file that nobody has open: the tree loses it, its inode is free, and no other file's data changes. */
  method RemoveFile(part: Partition, p: u32, ino: u32, ghost ds: set<u32>, ghost home: map<u32, u32>, ghost depth: map<u32, nat>)
    requires Mounted(part, ds, home, depth) && part.Opened(p) && p in ds && ino in home && home[ino] == p && ino as nat !in part.open
    modifies part`owner, part`blocks, part`open, part`live, part`disk, part.blockBitmap.bits, part.inodeBitmap.bits
    ensures Mounted(part, ds, home - {ino}, depth) && part.Opened(p) && DirsIn(part, ds) == WithoutLink(old(DirsIn(part, ds)), p, ino)
    ensures part.live == old(part.live)[p as nat := part.live[p]] - {ino as nat} && part.open.Keys == old(part.open).Keys
    ensures DataKept(old(part.Contents()), part.Contents(), {p as nat, ino as nat})
  {
    hide Owns, Covers, Room, FreeIn, Agree, Loaded, Synced, UsedIn, AllShaped, AllData, DirsOf, Tree.GoodTree, Partition.Valid, Mounted,
      RootFirst, FirstStays, WithoutLink, NotOf;
    MountedParts(part, ds, home, depth);
    Parts(part);
    FileHere(part, ds, home, depth, ino);
    DirsAreLive(part.disk, part.live, part.blocks, ds);
    ghost var dirs0, blocks0 := DirsIn(part, ds), part.blocks;
    HasRoot(blocks0, part.dataStart);
    UnlinkFile(part, p, ino, ds);
    RemoveFileKeeps(dirs0, home, depth, p, ino);
    RootStaysFirst(blocks0, part.blocks, p, part.dataStart);
    IsMounted(part, ds, home - {ino}, depth);
  }

  /** A directory's inode is the root's or has its parent elsewhere. */
  lemma ParentIsOther(dirs: Tree.Dirs, home: map<u32, u32>, depth: map<u32, nat>, d: u32)
    requires Tree.GoodTree(dirs, home, depth) && d in dirs && d != 0
    ensures |dirs[d]| == PLACES && Tree.Up(dirs, d) in dirs && Tree.Up(dirs, d) != d
  {
    Tree.AtDir(dirs, home, depth, d);
    hide Tree.GoodTree;
  }

  lemma FewerDirs(disk: seq<Sector>, live: map<nat, Inode>, blocks: map<nat, seq<u32>>, ds: set<u32>, d: u32)
    requires AllShaped(disk, live, blocks, ds)
    ensures AllShaped(disk, live, blocks, ds - {d})
    ensures DirsOf(disk, live, blocks, ds - {d}) == DirsOf(disk, live, blocks, ds) - {d}
  {
    hide DirShaped, DirOf;
  }

  /** A directory can be removed from the tree exactly when the source finds it empty. */
  lemma RemovableIff(part: Partition, ds: set<u32>, home: map<u32, u32>, depth: map<u32, nat>, d: u32, empty: bool)
    requires Mounted(part, ds, home, depth) && d in ds && d != 0 && d as nat in part.blocks && |part.blocks[d]| == SLOTS
    requires empty <==> forall s | 2 <= s < PLACES :: !IsLive(DirOf(part.disk, part.blocks[d])[s])
    ensures empty <==> CanRemove(DirsIn(part, ds), d)
  {
    hide Partition.Valid, DirOf, DirShaped;
    ShapedAt(part.disk, part.live, part.blocks, ds, d);
  }

  /** inode_release and the two calls of inode_close behind it, for a directory that no entry leads to any more. */
  method ReleaseDirectory(part: Partition, d: u32, ghost ds: set<u32>)
    requires part.Valid() && AllShaped(part.disk, part.live, part.blocks, ds) && d in ds && NotOf(part.owner, part.dataStart, d)
    requires d as nat in part.open && 0 < part.open[d].opens < 0xffff_ffff
    modifies part`owner, part`blocks, part`open, part`live, part`disk, part.blockBitmap.bits, part.inodeBitmap.bits
    ensures part.Valid() <==> old(part.open[d].opens) == 1
    ensures part.live == old(part.live) - {d as nat} && part.blocks == old(part.blocks) - {d as nat} && part.Contents() == old(part.Contents()) - {d as nat}
    ensures AllShaped(part.disk, part.live, part.blocks, ds - {d}) && DirsIn(part, ds - {d}) == old(DirsIn(part, ds)) - {d}
  {
    hide Owns, Covers, Room, FreeIn, Agree, Loaded, Synced, UsedIn, AllShaped, AllData, DirsOf, Without, TableByte, Zeros;
    ghost var disk1, live1, blocks1 := part.disk, part.live, part.blocks;
    AgreeAt(part.live, part.open, part.inodeBitmap.Used(), d);
    FewerDirs(disk1, live1, blocks1, ds, d);
    DirsAreLive(disk1, live1, blocks1, ds);
    ReleaseAndClose(part, d);
    TableOnly(disk1, part.disk, part.table, part.dataStart, d, Zeros(INODE_SIZE));
    SameDirs(part, disk1, live1, blocks1, ds - {d});
  }

  /** dir_open of sys_rmdir. */
  method OpenDirectory(part: Partition, d: u32, ghost ds: set<u32>, ghost home: map<u32, u32>, ghost depth: map<u32, nat>)
    requires Mounted(part, ds, home, depth) && d in ds && (d as nat in part.open ==> 0 < part.open[d].opens < 0xffff_fffe)
    modifies part`open, part`live
    ensures Mounted(part, ds, home, depth) && part.Opened(d) && DirsIn(part, ds) == old(DirsIn(part, ds)) && part.Contents() == old(part.Contents())
    ensures part.open.Keys == old(part.open).Keys + {d as nat} && part.live.Keys == old(part.live).Keys
    ensures part.open[d].opens == if d as nat in old(part.open) then old(part.open)[d].opens + 1 else 1
    ensures DirShaped(part.disk, part.blocks[d], part.live[d].size, d)
  {
    hide Owns, Covers, Room, FreeIn, Agree, Loaded, Synced, UsedIn, AllShaped, AllData, DirsOf, Tree.GoodTree, Partition.Valid, Mounted,
      RootFirst, DirShaped;
    MountedParts(part, ds, home, depth);
    ghost var disk1, live1, blocks1 := part.disk, part.live, part.blocks;
    ShapedAt(disk1, live1, blocks1, ds, d);
    DirsAreLive(disk1, live1, blocks1, ds);
    OpenIsLiveHere(part, d);
    var ino := InodeOpen(part, d);
    SameDirsNow(part, disk1, live1, blocks1, ds);
    ShapedAt(part.disk, part.live, part.blocks, ds, d);
    IsMounted(part, ds, home, depth);
  }

  lemma RootStaysBut(blocks: map<nat, seq<u32>>, d: nat, start: nat)
    requires RootFirst(blocks, start) && d != 0
    ensures RootFirst(blocks - {d}, start)
  {
  }

  lemma MountedIff(part: Partition, ds: set<u32>, home: map<u32, u32>, depth: map<u32, nat>)
    requires AllShaped(part.disk, part.live, part.blocks, ds) && RootFirst(part.blocks, part.dataStart)
    requires Tree.GoodTree(DirsIn(part, ds), home, depth) && forall i | i in home :: i as nat in part.live
    ensures Mounted(part, ds, home, depth) <==> part.Valid()
  {
    hide Partition.Valid, AllShaped, RootFirst, Tree.GoodTree, DirsIn;
  }

  /** dir_close, or file_close. */
  method CloseInode(part: Partition, d: nat, ghost ds: set<u32>, ghost home: map<u32, u32>, ghost depth: map<u32, nat>)
    requires Mounted(part, ds, home, depth) && d in part.open && part.open[d].opens > 0
    modifies part`open, part`live
    ensures Mounted(part, ds, home, depth) && DirsIn(part, ds) == old(DirsIn(part, ds)) && part.Contents() == old(part.Contents())
    ensures part.live.Keys == old(part.live).Keys
    ensures part.open.Keys == if old(part.open[d].opens) == 1 then old(part.open).Keys - {d} else old(part.open).Keys
  {
    hide Owns, Covers, Room, FreeIn, Agree, Loaded, Synced, UsedIn, AllShaped, AllData, DirsOf, Tree.GoodTree, Partition.Valid, Mounted,
      RootFirst, DirShaped;
    MountedParts(part, ds, home, depth);
    OpenIsLiveHere(part, d);
    ghost var disk1, live1, blocks1 := part.disk, part.live, part.blocks;
    DirsAreLive(disk1, live1, blocks1, ds);
    InodeClose(part, d);
    SameDirsNow(part, disk1, live1, blocks1, ds);
    IsMounted(part, ds, home, depth);
  }

  /** A turn of search_file: a directory is opened, searched and closed. What is found is what the tree has. */
  method LookIn(part: Partition, d: u32, name: string, ghost ds: set<u32>, ghost home: map<u32, u32>, ghost depth: map<u32, nat>) returns (r: Option<Entry>)
    requires Mounted(part, ds, home, depth) && d in ds && name != "" && (d as nat in part.open ==> 0 < part.open[d].opens < 0xffff_fffe)
    modifies part`open, part`live
    ensures r == Find(old(DirsIn(part, ds))[d], name)
    ensures Mounted(part, ds, home, depth) && DirsIn(part, ds) == old(DirsIn(part, ds)) && part.Contents() == old(part.Contents())
    ensures part.open.Keys == old(part.open).Keys && part.live.Keys == old(part.live).Keys
  {
    hide Owns, Covers, Room, FreeIn, Agree, Loaded, Synced, UsedIn, AllShaped, AllData, DirsOf, Tree.GoodTree, Partition.Valid, Mounted, RootFirst,
      DirShaped, DirOf, PlacesOf, Find;
    MountedParts(part, ds, home, depth);
    DirsAreLive(part.disk, part.live, part.blocks, ds);
    OpenIsLiveHere(part, d);
    OpenDirectory(part, d, ds, home, depth);
    MountedParts(part, ds, home, depth);
    ShapedAt(part.disk, part.live, part.blocks, ds, d);
    ShapeBounds(part.disk, part.blocks[d], part.live[d].size, d);
    r := SearchDirEntry(part, d, name);
    CloseInode(part, d, ds, home, depth);
  }

  /** dir_remove and dir_close of an empty directory that its caller has opened. */
  method RemoveEmpty(part: Partition, p: u32, d: u32, ghost ds: set<u32>, ghost home: map<u32, u32>, ghost depth: map<u32, nat>)
    requires Mounted(part, ds, home, depth) && part.Opened(p) && p in ds && d in ds && p == Tree.Up(DirsIn(part, ds), d) && p != d
    requires CanRemove(DirsIn(part, ds), d) && part.Opened(d) && 0 < part.open[d].opens < 0xffff_ffff
    modifies part`owner, part`blocks, part`open, part`live, part`disk, part.blockBitmap.bits, part.inodeBitmap.bits
    ensures AllShaped(part.disk, part.live, part.blocks, ds - {d}) && DirsIn(part, ds - {d}) == WithoutLink(old(DirsIn(part, ds)), p, d) - {d}
    ensures DataKept(old(part.Contents()), part.Contents(), {p as nat, d as nat})
    ensures Mounted(part, ds - {d}, home, depth) <==> old(part.open[d].opens) == 1
  {
    hide Owns, Covers, Room, FreeIn, Agree, Loaded, Synced, UsedIn, AllShaped, AllData, DirsOf, Tree.GoodTree, Partition.Valid, Mounted,
      RootFirst, FirstStays,
      WithoutLink, NotOf, DirShaped, CanRemove, Tree.Up;
    MountedParts(part, ds, home, depth);
    Parts(part);
    DirsAreLive(part.disk, part.live, part.blocks, ds);
    ghost var dirs0, blocks0 := DirsIn(part, ds), part.blocks;
    NotTheRoot(dirs0, d);
    Apart(dirs0, home, depth);
    StartIsRoots(part, d);
    HasRoot(blocks0, part.dataStart);
    OpenIsLiveHere(part, d);
    DeleteLink(part, p, d, ds);
    OpenIsLiveHere(part, d);
    RootStaysFirst(blocks0, part.blocks, p, part.dataStart);
    RootStaysBut(part.blocks, d, part.dataStart);
    ReleaseDirectory(part, d, ds);
    RemoveDirKeeps(dirs0, home, depth, d);
    MountedIff(part, ds - {d}, home, depth);
  }

  lemma NotTheRoot(dirs: Tree.Dirs, d: u32)
    requires CanRemove(dirs, d)
    ensures d != 0 && d in dirs && |dirs[d]| == PLACES
  {
  }

  /** The body of sys_rmdir for a directory that was found in its parent. It goes exactly when it is empty: the tree loses it,
      and no other inode's data changes. What is left is well exactly when nobody else had it open. */
  method RemoveDirectory(part: Partition, p: u32, d: u32, ghost ds: set<u32>, ghost home: map<u32, u32>, ghost depth: map<u32, nat>) returns (removed: bool)
    requires Mounted(part, ds, home, depth) && part.Opened(p) && p in ds && d in ds && d != 0 && p == Tree.Up(DirsIn(part, ds), d)
    requires d as nat in part.open ==> 0 < part.open[d].opens < 0xffff_fffe
    modifies part`owner, part`blocks, part`open, part`live, part`disk, part.blockBitmap.bits, part.inodeBitmap.bits
    ensures removed <==> CanRemove(old(DirsIn(part, ds)), d)
    ensures d in old(DirsIn(part, ds)) && |old(DirsIn(part, ds))[d]| == PLACES
    ensures removed <==> forall s | 2 <= s < PLACES :: !IsLive(old(DirsIn(part, ds))[d][s])
    ensures !removed ==> Mounted(part, ds, home, depth) && DirsIn(part, ds) == old(DirsIn(part, ds)) && part.Contents() == old(part.Contents())
    ensures removed ==>
      && AllShaped(part.disk, part.live, part.blocks, ds - {d}) && DirsIn(part, ds - {d}) == WithoutLink(old(DirsIn(part, ds)), p, d) - {d}
      && DataKept(old(part.Contents()), part.Contents(), {p as nat, d as nat})
      && (Mounted(part, ds - {d}, home, depth) <==> d as nat !in old(part.open))
  {
    hide Owns, Covers, Room, FreeIn, Agree, Loaded, Synced, UsedIn, AllShaped, AllData, DirsOf, Tree.GoodTree, Partition.Valid, Mounted,
      WithoutLink, DirShaped, CanRemove, Tree.Up, DirOf, DataKept;
    MountedParts(part, ds, home, depth);
    DirsAreLive(part.disk, part.live, part.blocks, ds);
    ParentIsOther(DirsIn(part, ds), home, depth, d);
    OpenDirectory(part, d, ds, home, depth);
    MountedParts(part, ds, home, depth);
    ShapedAt(part.disk, part.live, part.blocks, ds, d);
    var empty := DirIsEmpty(part, d);
    RemovableIff(part, ds, home, depth, d, empty);
    if !empty {
      CloseInode(part, d, ds, home, depth);
      return false;
    }
    RemoveEmpty(part, p, d, ds, home, depth);
    removed := true;
  }

  // ---------------------------------------------------------------- a new directory

  lemma NoPlaces(disk: seq<Sector>)
    ensures DirectOnly(NoSlots()) && forall s | 0 <= s < PLACES :: DirOf(disk, NoSlots())[s] == NO_ENTRY
  {
  }

  /** The two dots in the places of a directory that had none. */
  lemma DotsAreNewDir(es: seq<Entry>, no: u32, p: u32)
    requires |es| == PLACES && forall s | 0 <= s < PLACES :: es[s] == NO_ENTRY
    ensures es[0 := Entry(".", no, FT_DIRECTORY)][1 := Entry("..", p, FT_DIRECTORY)] == NewDir(no, p)
  {
  }

  /** A directory's slots with a first block and no other. */
  ghost predicate OneBlock(slots: seq<u32>) {
    |slots| == SLOTS && slots[0] != 0 && forall k | 1 <= k < SLOTS :: slots[k] == 0
  }

  lemma NewDirShape(disk: seq<Sector>, slots: seq<u32>, no: u32, p: u32)
    requires OneBlock(slots) && DirOf(disk, slots) == NewDir(no, p)
    ensures DirShaped(disk, slots, ENTRY_SIZE * 2, no)
  {
    hide DirOf, NewDir, GoodDir;
    NewDirIsGood(no, p);
    EmptyIsExact(NewDir(no, p), no);
  }

  lemma KeptTwice(disk0: seq<Sector>, owner0: map<u32, (nat, nat)>, blocks0: map<nat, seq<u32>>, disk1: seq<Sector>, owner1: map<u32, (nat, nat)>,
                  blocks1: map<nat, seq<u32>>, disk2: seq<Sector>, i: nat)
    requires Owns(owner0, blocks0) && Owns(owner1, blocks1) && i in blocks1 && blocks1 == blocks0[i := blocks1[i]]
    requires KeepsOthers(disk0, owner0, disk1, i) && KeepsOthers(disk1, owner1, disk2, i)
    ensures KeepsOthers(disk0, owner0, disk2, i)
  {
    hide Owns;
    forall l | l in owner0 && owner0[l].0 != i && l < |disk0| ensures disk2[l] == disk0[l] {
      SlotOfOwner(owner0, blocks0, l);
      OwnerOf(owner1, blocks1, owner0[l].0, owner0[l].1);
    }
  }

  /** The block of a new directory, with its two dots in it. */
  method WriteDots(part: Partition, no: u32, p: u32) returns (ok: bool)
    requires part.ValidBut({}, {no as nat}) && part.Opened(no) && part.blocks[no] == NoSlots()
    modifies part`owner, part`blocks, part`open, part`live, part`disk, part.blockBitmap.bits
    ensures part.ValidBut({}, {no as nat}) && OnlyDir(part, no) && part.live[no].size == old(part.live[no]).size
    ensures ok <==> old(part.Free()) != {}
    ensures ok ==> |part.Free()| == |old(part.Free())| - 1
    ensures ok ==> OneBlock(part.blocks[no]) && DirOf(part.disk, part.blocks[no]) == NewDir(no, p)
    ensures !ok ==> part.blocks == old(part.blocks) && part.disk == old(part.disk) && part.live == old(part.live)
  {
    hide Owns, Covers, Room, FreeIn, Agree, Loaded, Synced, SlotsOf, DirOf, EntryOf, UsedIn, EntryBytes, NewDir;
    NoPlaces(part.disk);
    AgreeAt(part.live, part.open, part.inodeBitmap.Used(), no);
    var here, above := Entry(".", no, FT_DIRECTORY), Entry("..", p, FT_DIRECTORY);
    EntryOfBytes(here);
    EntryOfBytes(above);
    ghost var disk0, owner0, blocks0 := part.disk, part.owner, part.blocks;
    ok := PutEntry(part, no, 0, 0, 0, EntryBytes(here));
    if ok {
      ghost var disk1 := part.disk;
      DotsAreNewDir(DirOf(old(part.disk), old(part.blocks[no])), no, p);
      LoadedHolds(part.disk, part.live, part.blocks, {}, no);
      assert part.blocks[no][..12][0] == part.open[no].sectors[..12][0];
      PatchEntry(part, no, part.open[no].sectors[0], 0, 1, EntryBytes(above));
      KeptTwice(disk0, owner0, blocks0, disk1, part.owner, part.blocks, part.disk, no);
    }
  }

  /** Another inode's blocks are none of the directories' business. */
  lemma DirsBeside(disk0: seq<Sector>, owner0: map<u32, (nat, nat)>, live0: map<nat, Inode>, blocks0: map<nat, seq<u32>>,
                   disk: seq<Sector>, live: map<nat, Inode>, blocks: map<nat, seq<u32>>, ds: set<u32>, i: u32)
    requires AllShaped(disk0, live0, blocks0, ds) && i !in ds && Owns(owner0, blocks0) && KeepsOthers(disk0, owner0, disk, i)
    requires disk0 != [] && disk != [] && disk[0] == disk0[0]
    requires i as nat in live && i as nat in blocks && live == live0[i as nat := live[i]] && blocks == blocks0[i as nat := blocks[i]]
    requires DirShaped(disk, blocks[i], live[i].size, i)
    ensures AllShaped(disk, live, blocks, ds + {i}) && |blocks[i]| == SLOTS
    ensures DirsOf(disk, live, blocks, ds + {i}) == DirsOf(disk0, live0, blocks0, ds)[i := DirOf(disk, blocks[i])]
  {
    hide DirOf, DirShaped, Owns, KeepsOthers;
    ShapeGood(disk, blocks[i], live[i].size, i);
    forall d | d in ds
      ensures d in live && d in blocks && DirShaped(disk, blocks[d], live[d].size, d) && |blocks[d]| == SLOTS
      ensures d in blocks0 && |blocks0[d]| == SLOTS && DirOf(disk, blocks[d]) == DirOf(disk0, blocks0[d])
    {
      ShapedAt(disk0, live0, blocks0, ds, d);
      OthersSeeNothing(disk0, owner0, blocks0, disk, blocks, i, d, 0);
      SameShape(disk0, disk, blocks[d], live[d].size, d);
    }
  }

  /** A new inode becomes a directory that no entry leads to yet: its block, its size and its record. */
  method NewDirectory(part: Partition, no: u32, p: u32, ghost ds: set<u32>) returns (ok: bool)
    requires part.Valid() && part.Opened(no) && part.blocks[no] == NoSlots() && AllShaped(part.disk, part.live, part.blocks, ds) && no !in ds
    modifies part`owner, part`blocks, part`open, part`live, part`disk, part.blockBitmap.bits
    ensures ok <==> old(part.Free()) != {}
    ensures part.Valid() && part.Opened(no) && part.live == old(part.live)[no as nat := part.live[no]]
    ensures part.blocks == old(part.blocks)[no as nat := part.blocks[no]]
    ensures part.open.Keys == old(part.open).Keys && part.live[no].opens == old(part.live[no]).opens
    ensures DataKept(old(part.Contents()), part.Contents(), {no as nat})
    ensures ok ==> AllShaped(part.disk, part.live, part.blocks, ds + {no}) && DirsIn(part, ds + {no}) == old(DirsIn(part, ds))[no := NewDir(no, p)]
    ensures ok ==> OneBlock(part.blocks[no]) && |part.Free()| == |old(part.Free())| - 1
    ensures !ok ==> part.live == old(part.live) && part.blocks == old(part.blocks) && part.disk == old(part.disk)
  {
    hide Owns, Covers, Room, FreeIn, Agree, Loaded, Synced, SlotsOf, DirOf, UsedIn, AllShaped, AllData, DirsOf, NewDir, NoSlots,
      KeepsOthers, DirShaped;
    Parts(part);
    ghost var disk0, owner0, live0, blocks0, used0 := part.disk, part.owner, part.live, part.blocks, part.blockBitmap.Used();
    ValidWeaker(part, no);
    ok := WriteDots(part, no, p);
    if !ok {
      SyncedAgain(part, disk0, live0);
      return;
    }
    AgreeAt(part.live, part.open, part.inodeBitmap.Used(), no);
    part.SetInode(no, part.open[no].(size := ENTRY_SIZE * 2), {}, {no as nat});
    NewDirShape(part.disk, part.blocks[no], no, p);
    ghost var disk1 := part.disk;
    SyncDir(part, no);
    KeptAfterSync(disk0, owner0, used0, part.reserved, part.dataStart, disk1, part.disk, no);
    DirsBeside(disk0, owner0, live0, blocks0, part.disk, part.live, part.blocks, ds, no);
    forall j | j in AllData(disk0, live0, blocks0) && j != no as nat
      ensures j in AllData(part.disk, part.live, part.blocks) && AllData(part.disk, part.live, part.blocks)[j] == AllData(disk0, live0, blocks0)[j]
    {
      OthersHold(disk0, owner0, live0, blocks0, part.disk, part.live, part.blocks, no, j);
    }
  }

  lemma SyncedAgain(part: Partition, disk0: seq<Sector>, live0: map<nat, Inode>)
    requires Synced(disk0, part.table, live0, {}) && part.disk == disk0 && part.live == live0
    ensures Synced(part.disk, part.table, part.live, {})
  {
  }

  /** All is well, but that the bit of one block is set that is nobody's. */
  ghost predicate Leaks(part: Partition, b: nat)
    reads part, part.blockBitmap, part.inodeBitmap, part.blockBitmap.bits, part.inodeBitmap.bits
  {
    && part.Layout() && Owns(part.owner, part.blocks) && b !in part.reserved
    && Covers(part.owner, part.blockBitmap.Used(), part.reserved + {b}, part.dataStart)
    && Agree(part.live, part.open, part.inodeBitmap.Used())
    && Loaded(part.disk, part.live, part.blocks, {}) && Synced(part.disk, part.table, part.live, {})
  }

  lemma LeaksIsNotValid(part: Partition, b: nat)
    requires Leaks(part, b)
    ensures !part.Valid()
  {
    hide Owns, Room, Agree, Loaded, Synced, UsedIn;
    var owner, used := part.owner, part.blockBitmap.Used();
    assert b in used && forall l: u32 | l in owner :: l - part.dataStart != b;
  }

  lemma BitLost(owner: map<u32, (nat, nat)>, used: set<nat>, reserved: set<nat>, dataStart: nat, lba: u32)
    requires Covers(owner, used, reserved, dataStart) && lba in owner
    ensures lba >= dataStart && lba - dataStart !in reserved
    ensures Covers(owner - {lba}, used, reserved + {lba - dataStart}, dataStart)
  {
    var rest := owner - {lba};
    forall b: nat | b in used ensures b in reserved + {lba - dataStart} || dataStart + b in rest {
      assert dataStart + b == lba <==> b == lba - dataStart;
    }
  }

  lemma OwnerLost(owner: map<u32, (nat, nat)>, blocks: map<nat, seq<u32>>, no: nat)
    requires Owns(owner, blocks) && no in blocks && OneBlock(blocks[no])
    ensures blocks[no] != [] && blocks[no][0] in owner && Owns(owner - {blocks[no][0]}, blocks - {no})
  {
    hide Owns;
    var lba := blocks[no][0];
    OwnerOf(owner, blocks, no, 0);
    GiveSlot(owner, blocks, no, 0);
    assert With(blocks[no], 0, 0) == NoSlots();
    GoneOwns(owner - {lba}, blocks[no := NoSlots()], no);
    PutThenDrop(blocks, no, NoSlots());
  }

  /** The rollback of sys_mkdir for an inode with a block: the inode's bit is cleared, and the block's is not. */
  method ForgetInode(part: Partition, no: nat, ghost ds: set<u32>) returns (ghost b: nat)
    requires part.Valid() && part.Opened(no) && OneBlock(part.blocks[no])
    modifies part`owner, part`open, part`live, part`blocks, part.inodeBitmap.bits
    ensures Leaks(part, b) && part.live == old(part.live) - {no} && part.blocks == old(part.blocks) - {no}
    ensures part.Contents() == old(part.Contents()) - {no}
    ensures part.dataStart + b == old(part.blocks[no])[0] as nat
  {
    hide Owns, Covers, Room, FreeIn, Agree, Loaded, Synced, UsedIn, AllData, OneBlock;
    AgreeAt(part.live, part.open, part.inodeBitmap.Used(), no);
    ghost var used, live0, blocks0 := part.inodeBitmap.Used(), part.live, part.blocks;
    GoneAgrees(part.live, part.open, used, no);
    GoneLoaded(part.disk, live0, blocks0, blocks0 - {no}, no);
    FewerSynced(part.disk, part.table, live0, no);
    OwnerLost(part.owner, part.blocks, no);
    BitLost(part.owner, part.blockBitmap.Used(), part.reserved, part.dataStart, part.blocks[no][0]);
    part.inodeBitmap.Set(no, false);
    b := part.blocks[no][0] - part.dataStart;
    part.owner := part.owner - {part.blocks[no][0]};
    part.open := part.open - {no};
    part.live := part.live - {no};
    part.blocks := part.blocks - {no};
  }

  lemma AddedDir(dirs: Tree.Dirs, p: u32, name: string, no: u32)
    requires p in dirs && no !in dirs
    ensures WithDir(dirs, p, name, no) == dirs[no := NewDir(no, p)][p := Insert(dirs[p], Entry(name, no, FT_DIRECTORY))]
  {
    hide Insert, NewDir;
  }

  /** Directories of which nothing was changed. */
  lemma SameDisk(disk: seq<Sector>, live0: map<nat, Inode>, blocks0: map<nat, seq<u32>>, live: map<nat, Inode>, blocks: map<nat, seq<u32>>, ds: set<u32>)
    requires AllShaped(disk, live0, blocks0, ds)
    requires forall d | d in ds :: d in live && d in blocks && d in live0 && d in blocks0 && live[d] == live0[d] && blocks[d] == blocks0[d]
    ensures AllShaped(disk, live, blocks, ds) && DirsOf(disk, live, blocks, ds) == DirsOf(disk, live0, blocks0, ds)
  {
    hide DirOf, DirShaped;
    forall d | d in ds ensures |blocks[d]| == SLOTS {
      ShapedAt(disk, live0, blocks0, ds, d);
    }
  }

  datatype Made = Made(no: u32) | NoNumber | NoBlock | Leaked

  lemma RootStaysWith(blocks: map<nat, seq<u32>>, i: nat, slots: seq<u32>, start: nat)
    requires RootFirst(blocks, start) && i != 0
    ensures RootFirst(blocks[i := slots], start)
  {
  }

  /** The end of sys_mkdir: the entry in the parent, and the new directory is not in memory any more. */
  method LinkDirectory(part: Partition, p: u32, name: string, no: u32, ghost ds: set<u32>, ghost dirs0: Tree.Dirs, ghost home: map<u32, u32>,
                       ghost depth: map<u32, nat>) returns (ok: bool)
    requires part.Valid() && part.Opened(p) && part.Opened(no) && AllShaped(part.disk, part.live, part.blocks, ds + {no})
    requires dirs0.Keys == ds && DirsIn(part, ds + {no}) == dirs0[no := NewDir(no, p)] && Tree.GoodTree(dirs0, home, depth)
    requires p in ds && NewName(dirs0[p], name) && no != 0 && no !in ds && no !in home && (forall i | i in home :: i as nat in part.live)
    requires RootFirst(part.blocks, part.dataStart) && part.live[no].opens == 1 && OneBlock(part.blocks[no])
    modifies part`owner, part`blocks, part`open, part`live, part`disk, part.blockBitmap.bits, part.inodeBitmap.bits
    ensures ok <==> old(part.blocks[p])[FreePlace(dirs0[p]) / PER_SECTOR] != 0 || old(part.Free()) != {}
    ensures ok ==>
      && p in depth && Mounted(part, ds + {no}, home, depth[no := depth[p] + 1]) && DirsIn(part, ds + {no}) == WithDir(dirs0, p, name, no)
      && part.live.Keys == old(part.live).Keys && DataKept(old(part.Contents()), part.Contents(), {p as nat})
    ensures !ok ==>
      && (exists b: nat :: Leaks(part, b)) && part.live == old(part.live) - {no as nat}
      && AllShaped(part.disk, part.live, part.blocks, ds) && DirsIn(part, ds) == dirs0
      && DataKept(old(part.Contents()), part.Contents(), {no as nat})
  {
    hide Owns, Covers, Room, FreeIn, Agree, Loaded, Synced, UsedIn, AllShaped, AllData, DirsOf, Tree.GoodTree, Partition.Valid, Mounted,
      RootFirst, FirstStays,
      CanMake, CanAdd, NewName, Insert, NewDir, WithDir, FreePlace, OneBlock, Leaks, Fresh, NotOf, TreeOps.WithoutLink;
    Parts(part);
    DirsAreLive(part.disk, part.live, part.blocks, ds + {no});
    CanLink(dirs0, home, depth, p, name, no, FT_DIRECTORY);
    ghost var blocks0, live0 := part.blocks, part.live;
    HasRoot(blocks0, part.dataStart);
    ok := LinkEntry(part, p, Entry(name, no, FT_DIRECTORY), ds + {no});
    ghost var contents1 := part.Contents();
    assert DataKept(old(part.Contents()), contents1, {p as nat});
    if !ok {
      FewerDirs(part.disk, live0, blocks0, ds + {no}, no);
      assert ds + {no} - {no} == ds;
      ghost var b := ForgetInode(part, no, ds);
      SameDisk(part.disk, live0, blocks0, part.live, part.blocks, ds);
      return;
    }
    AddDirKeeps(dirs0, home, depth, p, name, no);
    AddedDir(dirs0, p, name, no);
    RootStaysFirst(blocks0, part.blocks, p, part.dataStart);
    IsMounted(part, ds + {no}, home, depth[no := depth[p] + 1]);
    OpenIsLiveHere(part, no);
    hide DataKept;
    CloseInode(part, no, ds + {no}, home, depth[no := depth[p] + 1]);
  }

  /** The first half of sys_mkdir behind its search: a new inode with the block for the dots, or all as it was. */
  method NewUnlinked(part: Partition, p: u32, ghost ds: set<u32>, ghost home: map<u32, u32>, ghost depth: map<u32, nat>) returns (no: int, ok: bool)
    requires Mounted(part, ds, home, depth)
    modifies part`owner, part`blocks, part`open, part`live, part`disk, part.blockBitmap.bits, part.inodeBitmap.bits
    ensures no < 256 && (no < 0 ==> !ok && forall n: nat | n < 256 :: n in old(part.live))
    ensures no >= 0 ==> (ok <==> old(part.Free()) != {})
    ensures no >= 0 && !ok ==> Mounted(part, ds, home, depth) && DirsIn(part, ds) == old(DirsIn(part, ds))
                               && part.live.Keys == old(part.live).Keys && part.Contents() == old(part.Contents())
    ensures ok ==>
      && part.Valid() && AllShaped(part.disk, part.live, part.blocks, ds + {no as u32}) && RootFirst(part.blocks, part.dataStart)
      && DirsIn(part, ds + {no as u32}) == old(DirsIn(part, ds))[no as u32 := NewDir(no, p)]
      && no > 0 && no as u32 !in ds && no as u32 !in home && no !in old(part.live) && no !in old(part.blocks) && no !in old(part.open)
      && part.live.Keys == old(part.live).Keys + {no as nat} && part.open.Keys == old(part.open).Keys + {no as nat}
      && no in part.blocks && part.blocks == old(part.blocks)[no := part.blocks[no]]
      && part.live[no].opens == 1 && OneBlock(part.blocks[no]) && |part.Free()| == |old(part.Free())| - 1
      && DataKept(old(part.Contents())[no := []], part.Contents(), {no as nat})
  {
    hide Owns, Covers, Room, FreeIn, Agree, Loaded, Synced, UsedIn, AllShaped, AllData, DirsOf, Tree.GoodTree, Partition.Valid, Mounted, RootFirst,
      NewDir, NoSlots, OneBlock, DataKept, Fresh;
    MountedParts(part, ds, home, depth);
    Parts(part);
    ghost var contents0, live0 := part.Contents(), part.live;
    no := NewInode(part, ds, home, depth);
    if no < 0 {
      return no, false;
    }
    MountedParts(part, ds, home, depth);
    Parts(part);
    ghost var blocks1 := part.blocks;
    ok := NewDirectory(part, no, p, ds);
    if !ok {
      IsMounted(part, ds, home, depth);
      DropInode(part, no, ds, home, depth);
      PutThenDrop(contents0, no, []);
      DropNothing(contents0, no);
      return;
    }
    RootStaysWith(blocks1, no, part.blocks[no], part.dataStart);
  }

  /** sys_mkdir behind its search: the tree gains the directory, with its two dots. It fails without a number below 256, without
      a block for the dots, and without another one when the entry needs it too; then the first block is lost. */
  method MakeDirectory(part: Partition, p: u32, name: string, ghost ds: set<u32>, ghost home: map<u32, u32>, ghost depth: map<u32, nat>) returns (r: Made)
    requires Mounted(part, ds, home, depth) && part.Opened(p) && p in ds && NewName(DirsIn(part, ds)[p], name)
    modifies part`owner, part`blocks, part`open, part`live, part`disk, part.blockBitmap.bits, part.inodeBitmap.bits
    ensures r.NoNumber? ==> forall n: nat | n < 256 :: n in old(part.live)
    ensures !r.NoNumber? ==> (r == NoBlock <==> old(part.Free()) == {})
    ensures !r.NoNumber? ==> (r == Leaked <==> |old(part.Free())| == 1 && old(part.blocks[p])[FreePlace(old(DirsIn(part, ds))[p]) / PER_SECTOR] == 0)
    ensures r == NoBlock ==> Mounted(part, ds, home, depth) && DirsIn(part, ds) == old(DirsIn(part, ds)) && part.live.Keys == old(part.live).Keys
    ensures r == Leaked ==>
      && (exists b: nat :: Leaks(part, b)) && part.live.Keys == old(part.live).Keys
      && AllShaped(part.disk, part.live, part.blocks, ds) && DirsIn(part, ds) == old(DirsIn(part, ds))
    ensures r.Made? ==>
      && r.no as nat !in old(part.live) && p in depth && Mounted(part, ds + {r.no}, home, depth[r.no := depth[p] + 1])
      && DirsIn(part, ds + {r.no}) == WithDir(old(DirsIn(part, ds)), p, name, r.no)
    ensures !r.NoNumber? ==> DataKept(old(part.Contents()), part.Contents(), {p as nat})
  {
    hide Owns, Covers, Room, FreeIn, Agree, Loaded, Synced, UsedIn, AllShaped, AllData, DirsOf, Tree.GoodTree, Partition.Valid, Mounted, RootFirst,
      NewName, NewDir, NoSlots, WithDir, FreePlace, OneBlock, Leaks, Find, DataKept;
    MountedParts(part, ds, home, depth);
    Parts(part);
    DirsAreLive(part.disk, part.live, part.blocks, ds);
    ghost var dirs0, contents0 := DirsIn(part, ds), part.Contents();
    var no, ok := NewUnlinked(part, p, ds, home, depth);
    if no < 0 {
      return NoNumber;
    }
    if !ok {
      KeptSelf(contents0, p);
      return NoBlock;
    }
    ghost var contents1 := part.Contents();
    ok := LinkDirectory(part, p, name, no, ds, dirs0, home, depth);
    KeptThrough(contents0, no, contents1, part.Contents(), p);
    return if ok then Made(no) else Leaked;
  }

  // ---------------------------------------------------------------- the first tree

  lemma OnlyDots(es: seq<Entry>)
    requires GoodDir(es, 0) && Count(es) == 2 && es[1] == Entry("..", 0, FT_DIRECTORY)
    ensures es == NewDir(0, 0)
  {
    EmptyIsExact(es, 0);
  }

  lemma RootOnly(disk: seq<Sector>, live: map<nat, Inode>, blocks: map<nat, seq<u32>>)
    requires 0 in live && 0 in blocks && DirShaped(disk, blocks[0], live[0].size, 0) && live[0].size == 2 * ENTRY_SIZE
    requires DirOf(disk, blocks[0])[1] == Entry("..", 0, FT_DIRECTORY)
    ensures AllShaped(disk, live, blocks, {0}) && DirsOf(disk, live, blocks, {0}) == map[0 := NewDir(0, 0)]
  {
    OnlyDots(DirOf(disk, blocks[0]));
    hide DirShaped, DirOf, NewDir;
  }

  lemma RootIsTree()
    ensures Tree.GoodTree(map[0 := NewDir(0, 0)], map[], map[0 := 0])
  {
    NewDirIsGood(0, 0);
  }

  /** A partition that was formatted has a tree, of a root and nothing else, as soon as it meets what a partition keeps. */
  method NewFileSystem(disk: seq<Sector>, start: nat, sectors: nat) returns (part: Partition)
    requires sectors > Format.FIXED + 1 && start > 0 && start + sectors <= |disk| <= 0x1_0000_0000
    ensures part.Valid() <==> Format.Bits(sectors) >= 8 && (Format.NothingPastEnd(sectors) || start + sectors < |disk|)
    ensures Mounted(part, {0}, map[], map[0 := 0]) <==> part.Valid()
    ensures AllShaped(part.disk, part.live, part.blocks, {0}) && DirsIn(part, {0}) == map[0 := NewDir(0, 0)]
  {
    hide Partition.Valid, Mounted, DirShaped, DirOf, NewDir, Tree.GoodTree, AllShaped, DirsOf, Format.NothingPastEnd;
    part := Format.PartitionFormat(disk, start, sectors);
    RootOnly(part.disk, part.live, part.blocks);
    RootIsTree();
    MountedIff(part, {0}, map[], map[0 := 0]);
  }

  // ---------------------------------------------------------------- there and back

  /** Taking out what was put in leaves a directory as it was. */
  lemma DeleteInserted(es: seq<Entry>, self: u32, e: Entry)
    requires GoodDir(es, self) && CanAdd(es, e) && FreePlace(es) < PLACES
    ensures Delete(Insert(es, e), e.ino) == es
  {
    var fs, s := Insert(es, e), FreePlace(es);
    assert !IsDots(e.name) && IsLive(e);
    forall t | 0 <= t < |es| && t != s ensures !IsLink(fs[t], e.ino) {
      assert IsLive(es[t]) ==> es[t].ino != e.ino;
    }
    assert IsLink(fs[s], e.ino);
    assert LinkPlace(fs, e.ino) == s;
    assert es[s] == NO_ENTRY;
  }

  lemma FileThereAndBack(dirs: Tree.Dirs, home: map<u32, u32>, depth: map<u32, nat>, p: u32, name: string, no: u32)
    requires Tree.GoodTree(dirs, home, depth) && p in dirs && NewName(dirs[p], name) && no != 0 && no !in dirs && no !in home
    ensures p in WithFile(dirs, p, name, no) && WithoutLink(WithFile(dirs, p, name, no), p, no) == dirs
  {
    hide Tree.GoodTree, NewName, Insert, Delete, GoodDir, CanMake, CanAdd;
    CanLink(dirs, home, depth, p, name, no, FT_REGULAR);
    Tree.AtDir(dirs, home, depth, p);
    DeleteInserted(dirs[p], p, Entry(name, no, FT_REGULAR));
  }

  /** A file is created, closed and unlinked: the directories and the inodes in use are as they were before, and so is the
      data of all inodes but that of the directory. */
  method CreateAndUnlink(part: Partition, p: u32, name: string, ghost ds: set<u32>, ghost home: map<u32, u32>, ghost depth: map<u32, nat>) returns (ok: bool)
    requires Mounted(part, ds, home, depth) && part.Opened(p) && p in ds && NewName(DirsIn(part, ds)[p], name)
    modifies part`owner, part`blocks, part`open, part`live, part`disk, part.blockBitmap.bits, part.inodeBitmap.bits
    ensures !ok ==> old(part.Free()) == {} || forall n: nat | n < 256 :: n in old(part.live)
    ensures ok ==> Mounted(part, ds, home, depth) && DirsIn(part, ds) == old(DirsIn(part, ds)) && part.live.Keys == old(part.live).Keys
    ensures ok ==> DataKept(old(part.Contents()), part.Contents(), {p as nat})
  {
    hide Owns, Covers, Room, FreeIn, Agree, Loaded, Synced, UsedIn, AllShaped, AllData, DirsOf, Tree.GoodTree, Partition.Valid, Mounted, RootFirst,
      NewName, WithFile, WithoutLink, DataKept;
    MountedParts(part, ds, home, depth);
    DirsAreLive(part.disk, part.live, part.blocks, ds);
    ghost var dirs0, contents0 := DirsIn(part, ds), part.Contents();
    var no := CreateFile(part, p, name, ds, home, depth);
    if no < 0 {
      return false;
    }
    CloseInode(part, no, ds, home[no as u32 := p], depth);
    ghost var contents1 := part.Contents();
    FileThereAndBack(dirs0, home, depth, p, name, no);
    RemoveFile(part, p, no, ds, home[no as u32 := p], depth);
    assert home[no as u32 := p] - {no as u32} == home;
    KeptBack(contents0, contents1, part.Contents(), p, no);
    return true;
  }
}
