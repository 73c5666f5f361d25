/** The life of a file, from its creation to its removal, leaves the partition's bitmaps as they were. */
module FileLife {
  import opened Disks
  import opened InodeTable
  import opened Bitmaps
  import opened Partitions
  import opened Files
  import opened Inodes

  /** The blocks of an inode decide who owns what. */
  lemma OwnersOfOthers(owner0: map<u32, (nat, nat)>, blocks0: map<nat, seq<u32>>, owner: map<u32, (nat, nat)>,
                       blocks: map<nat, seq<u32>>, i: nat)
    requires Owns(owner0, blocks0) && Owns(owner, blocks)
    requires forall j | j != i :: j in blocks0 <==> j in blocks
    requires forall j | j != i && j in blocks0 :: blocks[j] == blocks0[j]
    ensures Without(owner, i) == Without(owner0, i)
  {
    hide Owns;
    forall l | l in owner && owner[l].0 != i ensures l in owner0 && owner0[l] == owner[l] {
      SlotOfOwner(owner, blocks, l);
      OwnerOf(owner0, blocks0, owner[l].0, owner[l].1);
    }
    forall l | l in owner0 && owner0[l].0 != i ensures l in owner && owner0[l] == owner[l] {
      SlotOfOwner(owner0, blocks0, l);
      OwnerOf(owner, blocks, owner0[l].0, owner0[l].1);
    }
  }

  /** An inode that is not there owns nothing. */
  lemma OwnsNothing(owner: map<u32, (nat, nat)>, blocks: map<nat, seq<u32>>, i: nat)
    requires Owns(owner, blocks) && i !in blocks
    ensures Without(owner, i) == owner
  {
  }

  /** The owned blocks decide which bits are set. */
  lemma BitsOfOwners(owner: map<u32, (nat, nat)>, used0: set<nat>, used: set<nat>, reserved: set<nat>, dataStart: nat)
    requires Covers(owner, used0, reserved, dataStart) && Covers(owner, used, reserved, dataStart)
    ensures used0 == used
  {
    forall b: nat | b in used0 ensures b in used {
      if b !in reserved {
        var l: u32 :| l == dataStart + b && l in owner;
        assert l - dataStart == b;
      }
    }
    forall b: nat | b in used ensures b in used0 {
      if b !in reserved {
        var l: u32 :| l == dataStart + b && l in owner;
        assert l - dataStart == b;
      }
    }
  }

  lemma AppendsOnly(live0: map<nat, Inode>, blocks0: map<nat, seq<u32>>, contents0: map<nat, seq<byte>>,
                    live: map<nat, Inode>, blocks: map<nat, seq<u32>>, contents: map<nat, seq<byte>>, i: nat, buf: seq<byte>)
    requires Appends(live0, blocks0, contents0, live, blocks, contents, i, buf)
    ensures i in live && i in live0 && live[i].opens == live0[i].opens
    ensures live == live0[i := live[i]] && i in blocks && blocks == blocks0[i := blocks[i]]
    ensures i in contents0 && contents == contents0[i := contents0[i] + buf]
  {
    hide FileShaped;
  }

  lemma PutTwice<V>(m: map<nat, V>, i: nat, v: V, w: V)
    ensures m[i := v][i := w] == m[i := w]
  {
  }

  lemma PutAndDrop<V>(m: map<nat, V>, i: nat, v: V, w: V)
    requires i !in m
    ensures m[i := v][i := w] - {i} == m && m[i := v] - {i} == m
  {
    PutTwice(m, i, v, w);
    PutThenDrop(m, i, w);
    PutThenDrop(m, i, v);
    DropNothing(m, i);
  }

  lemma SameOpen(live0: map<nat, Inode>, open0: map<nat, Inode>, used0: set<nat>, live: map<nat, Inode>, open: map<nat, Inode>, used: set<nat>)
    requires Agree(live0, open0, used0) && Agree(live, open, used) && live == live0 && open.Keys == open0.Keys
    ensures open == open0 && used == used0
  {
  }

  lemma CreatedAndWritten(live0: map<nat, Inode>, blocks0: map<nat, seq<u32>>, contents0: map<nat, seq<byte>>, owner0: map<u32, (nat, nat)>,
                          live1: map<nat, Inode>, blocks1: map<nat, seq<u32>>, contents1: map<nat, seq<byte>>,
                          live: map<nat, Inode>, blocks: map<nat, seq<u32>>, contents: map<nat, seq<byte>>, owner: map<u32, (nat, nat)>,
                          i: u32, buf: seq<byte>)
    requires i !in blocks0 && Owns(owner0, blocks0) && Owns(owner, blocks)
    requires live1 == live0[i as nat := Fresh(i).(opens := 1)] && blocks1 == blocks0[i as nat := NoSlots()] && contents1 == contents0[i as nat := []]
    requires Appends(live1, blocks1, contents1, live, blocks, contents, i, buf)
    ensures i in live && live == live0[i as nat := live[i]] && live[i].opens == 1
    ensures contents == contents0[i as nat := buf] && Without(owner, i) == owner0
  {
    hide Owns, Appends, Without, NoSlots;
    AppendsOnly(live1, blocks1, contents1, live, blocks, contents, i, buf);
    PutTwice(live0, i, live1[i], live[i]);
    assert [] + buf == buf;
    PutTwice(contents0, i, [], buf);
    OwnersOfOthers(owner0, blocks0, owner, blocks, i);
    OwnsNothing(owner0, blocks0, i);
  }

  lemma NewIsShaped()
    ensures FileShaped(NoSlots(), 0)
  {
  }

  lemma OpenIsLive(live: map<nat, Inode>, open: map<nat, Inode>, used: set<nat>)
    requires Agree(live, open, used)
    ensures open.Keys <= live.Keys
  {
  }

  /** sys_open with O_CREAT and sys_write, without the directory. */
  method CreateAndWrite(part: Partition, f: OpenFile, buf: seq<byte>) returns (no: int)
    requires part.Valid() && |buf| < 512 * INDIRECT
    modifies part`owner, part`blocks, part`open, part`live, part`disk, part.blockBitmap.bits, part.inodeBitmap.bits, f
    ensures no < 0 ==> |old(part.Free())| < |buf| / 512 + 1 + (if |buf| / 512 >= 12 then 1 else 0) || forall n: nat | n < 256 :: n in old(part.live)
    ensures no >= 0 ==>
      && part.Valid() && part.Opened(no) && no !in old(part.live)
      && part.live == old(part.live)[no := part.live[no]] && part.live[no].opens == 1
      && part.open.Keys == old(part.open).Keys + {no as nat} && part.open[no] == part.live[no]
      && part.Contents() == old(part.Contents())[no := buf]
      && Without(part.owner, no) == old(part.owner)
  {
    hide Owns, Covers, Room, FreeIn, Agree, Loaded, Synced, AllData, Without, Appends, Partition.Contents, FileShaped, NoSlots, SlotWritten;
    ghost var live0, blocks0, contents0, owner0 := part.live, part.blocks, part.Contents(), part.owner;
    LoadedKeys(part.disk, part.live, part.blocks, {});
    InodesInBitmap(part);
    no := MakeInode(part);
    if no == -1 || no >= 256 {
      return -1;
    }
    f.inode, f.used, f.pos := no, true, 0;
    NewIsShaped();
    ghost var live1, blocks1, contents1 := part.live, part.blocks, part.Contents();
    var r := FileWrite(part, f, buf);
    if !r.Written? {
      return -1;
    }
    AgreeAt(part.live, part.open, part.inodeBitmap.Used(), no);
    CreatedAndWritten(live0, blocks0, contents0, owner0, live1, blocks1, contents1, part.live, part.blocks, part.Contents(),
                      part.owner, no, buf);
  }

  /** A file is created, written through a free entry of the file table, closed and unlinked. If there is a number below
      256 for its inode and there are blocks for its data, all succeeds, and then every bit of both bitmaps, every inode
      and all data are as they were before. */
  method CreateWriteUnlink(part: Partition, f: OpenFile, buf: seq<byte>) returns (ok: bool)
    requires part.Valid() && |buf| < 512 * INDIRECT && 0 in part.live
    requires part.dataStart in part.owner && part.owner[part.dataStart].0 == 0
    modifies part`owner, part`blocks, part`open, part`live, part`disk, part.blockBitmap.bits, part.inodeBitmap.bits, f
    ensures ok ==> part.Valid() && part.live == old(part.live) && part.open == old(part.open) && part.Contents() == old(part.Contents())
    ensures ok ==> part.blockBitmap.Used() == old(part.blockBitmap.Used()) && part.inodeBitmap.Used() == old(part.inodeBitmap.Used())
    ensures !ok ==> |old(part.Free())| < |buf| / 512 + 1 + (if |buf| / 512 >= 12 then 1 else 0) || forall n: nat | n < 256 :: n in old(part.live)
  {
    hide Owns, Covers, Room, FreeIn, Agree, Loaded, Synced, AllData, Without, Partition.Contents;
    ghost var live0, contents0, owner0, open0 := part.live, part.Contents(), part.owner, part.open;
    ghost var used0, bits0 := part.inodeBitmap.Used(), part.blockBitmap.Used();
    OpenIsLive(live0, open0, used0);
    var no := CreateAndWrite(part, f, buf);
    if no < 0 {
      return false;
    }
    ghost var ino := part.live[no];
    StartOwned(owner0, part.owner, part.dataStart, no);
    InodeClose(part, no);
    f.used := false;
    InodeRelease(part, no);
    BitsOfOwners(owner0, bits0, part.blockBitmap.Used(), part.reserved, part.dataStart);
    PutAndDrop(live0, no, ino, Pure(ino));
    PutAndDrop(contents0, no, buf, []);
    assert part.open.Keys == open0.Keys;
    SameOpen(live0, open0, used0, part.live, part.open, part.inodeBitmap.Used());
    return true;
  }

  lemma StartOwned(owner0: map<u32, (nat, nat)>, owner: map<u32, (nat, nat)>, start: nat, i: nat)
    requires start in owner0 && owner0[start].0 == 0 && i != 0 && Without(owner, i) == owner0
    ensures start in owner ==> owner[start].0 != i
  {
    assert start in Without(owner, i);
  }

  /** The inode bitmap has every live number, so a number below 256 that is not live can be found by the scan. */
  lemma InodesInBitmap(part: Partition)
    requires part.Valid()
    ensures part.inodeBitmap.Used() == part.live.Keys
    ensures FreeIn(part.inodeBitmap.Used(), part.inodeBitmap.Size()) == {} ==> forall n: nat | n < 256 :: n in part.live
  {
    hide Owns, Covers, Room, Loaded, Synced;
    forall n: nat | n < 256 && n !in part.live ensures FreeIn(part.inodeBitmap.Used(), part.inodeBitmap.Size()) != {} {
      assert n in FreeIn(part.inodeBitmap.Used(), part.inodeBitmap.Size());
    }
  }
}
