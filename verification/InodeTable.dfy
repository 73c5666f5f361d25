/** The inode table of fs/inode.c: 4096 records of 76 bytes packed into 608 sectors, so that a record may begin in one
    sector and end in the next. */
module InodeTable {
  import opened Disks

  const MAX_FILES: nat := 4096
  const INODE_SIZE: nat := 76
  const TABLE_SECTORS: nat := 608

  /** struct inode without its list tag. `sectors` holds 12 data blocks and the indirect table; 0 stands for none. */
  datatype InodeRecord = InodeRecord(no: u32, size: u32, opens: u32, deny: bool, sectors: seq<u32>)

  type Inode = i: InodeRecord | |i.sectors| == 13 witness InodeRecord(0, 0, 0, false, seq(13, i => 0))

  function NoSectors(): (s: seq<u32>)
    ensures |s| == 13 && forall i | 0 <= i < 13 :: s[i] == 0
  {
    seq(13, i => 0)
  }

  /** inode_init. */
  function Fresh(no: u32): Inode {
    InodeRecord(no, 0, 0, false, NoSectors())
  }

  /** What inode_sync keeps of an inode: nobody has it open and nobody writes it. */
  function Pure(ino: Inode): Inode {
    ino.(opens := 0, deny := false)
  }

  /** The 19 words of a record; the last two are the pointers of the list tag. */
  function RecordWords(ino: Inode): (ws: seq<u32>)
    ensures |ws| == 19
  {
    [ino.no, ino.size, ino.opens, if ino.deny then 1 else 0] + ino.sectors + [0, 0]
  }

  function Record(ino: Inode): (s: seq<byte>)
    ensures |s| == INODE_SIZE
  {
    Bytes(RecordWords(ino))
  }

  /** A record read back; write_deny is the low byte of its word. */
  function InodeOf(s: seq<byte>): Inode
    requires |s| == INODE_SIZE
  {
    var ws := Words(s, 19);
    InodeRecord(ws[0], ws[1], ws[2], ws[3] % 256 != 0, ws[4..17])
  }

  lemma InodeOfRecord(ino: Inode)
    ensures InodeOf(Record(ino)) == ino
  {
    hide Words, Bytes;
    var ws := RecordWords(ino);
    WordsOfBytes(ws);
    assert ws[4..17] == ino.sectors;
  }

  lemma ZeroWords(n: nat)
    ensures forall i | 0 <= i < n :: Words(Zeros(4 * n), n)[i] == 0
  {
    var s := Zeros(4 * n);
    forall i | 0 <= i < n ensures Words(s, n)[i] == 0 {
      assert s[4 * i] == 0 && s[4 * i + 1] == 0 && s[4 * i + 2] == 0 && s[4 * i + 3] == 0;
    }
  }

  /** A freed record: 76 zero bytes. */
  lemma InodeOfZeros()
    ensures InodeOf(Zeros(INODE_SIZE)) == Fresh(0)
  {
    hide Words, Zeros, NoSectors;
    ZeroWords(19);
    var ws := Words(Zeros(INODE_SIZE), 19);
    assert ws[4..17] == NoSectors();
  }

  // ---------------------------------------------------------------- where a record lies

  datatype Position = Position(twoSectors: bool, sector: nat, offset: nat)

  /** inode_locate, with the sector counted from the start of the table. */
  function Locate(no: nat): (p: Position)
    requires no < MAX_FILES
    ensures 512 * p.sector + p.offset == INODE_SIZE * no
    ensures p.twoSectors <==> p.offset + INODE_SIZE > SECTOR_SIZE
    ensures p.sector + (if p.twoSectors then 2 else 1) <= TABLE_SECTORS
  {
    var at := no * INODE_SIZE;
    Position(SECTOR_SIZE - at % 512 < INODE_SIZE, at / 512, at % 512)
  }

  /** Byte q of the table that starts at sector `table`. */
  function TableByte(disk: seq<Sector>, table: nat, q: nat): byte
    requires table + TABLE_SECTORS <= |disk| && q < 512 * TABLE_SECTORS
  {
    disk[table + q / 512][q % 512]
  }

  /** The 76 bytes of slot n. */
  function Slot(disk: seq<Sector>, table: nat, n: nat): (s: seq<byte>)
    requires table + TABLE_SECTORS <= |disk| && n < MAX_FILES
    ensures |s| == INODE_SIZE
  {
    seq<byte>(INODE_SIZE, p requires 0 <= p < INODE_SIZE => TableByte(disk, table, INODE_SIZE * n + p))
  }

  /** The inode that inode_open would read. */
  function OnDisk(disk: seq<Sector>, table: nat, n: nat): Inode
    requires table + TABLE_SECTORS <= |disk| && n < MAX_FILES
  {
    InodeOf(Slot(disk, table, n))
  }

  /** Slot n, and nothing else on the disk, was overwritten. */
  ghost predicate SlotWritten(before: seq<Sector>, after: seq<Sector>, table: nat, n: nat, record: seq<byte>)
    requires table + TABLE_SECTORS <= |before| && n < MAX_FILES && |record| == INODE_SIZE
  {
    && |after| == |before|
    && (forall l | 0 <= l < |before| && !(table <= l < table + TABLE_SECTORS) :: after[l] == before[l])
    && (forall q: nat | q < 512 * TABLE_SECTORS ::
          TableByte(after, table, q) ==
          if INODE_SIZE * n <= q < INODE_SIZE * n + INODE_SIZE then record[q - INODE_SIZE * n] else TableByte(before, table, q))
  }

  lemma WrittenSlot(before: seq<Sector>, after: seq<Sector>, table: nat, n: nat, record: seq<byte>)
    requires table + TABLE_SECTORS <= |before| && n < MAX_FILES && |record| == INODE_SIZE
    requires SlotWritten(before, after, table, n, record)
    ensures Slot(after, table, n) == record
    ensures forall m: nat | m < MAX_FILES && m != n :: Slot(after, table, m) == Slot(before, table, m)
  {
    forall p: nat | p < INODE_SIZE ensures Slot(after, table, n)[p] == record[p] {
      assert Slot(after, table, n)[p] == TableByte(after, table, INODE_SIZE * n + p);
    }
    forall m: nat | m < MAX_FILES && m != n ensures Slot(after, table, m) == Slot(before, table, m) {
      forall p: nat | p < INODE_SIZE ensures Slot(after, table, m)[p] == Slot(before, table, m)[p] {
        assert TableByte(after, table, INODE_SIZE * m + p) == TableByte(before, table, INODE_SIZE * m + p);
      }
    }
  }

  function TwoSectors(disk: seq<Sector>, l: nat): (s: seq<byte>)
    requires l + 1 < |disk|
    ensures |s| == 1024 && s[..512] == disk[l] && s[512..] == disk[l + 1]
  {
    var a: seq<byte> := disk[l];
    a + disk[l + 1]
  }

  /** The sector or sectors read from a slot's position, patched at its offset and written back, overwrite that slot. */
  lemma PatchedSlot(before: seq<Sector>, after: seq<Sector>, table: nat, n: nat, record: seq<byte>)
    requires table + TABLE_SECTORS <= |before| && n < MAX_FILES && |record| == INODE_SIZE
    requires |after| == |before|
    requires var p := Locate(n); var l := table + p.sector;
             if p.twoSectors then
               var buf := Patch(TwoSectors(before, l), p.offset, record);
               after == before[l := buf[..512]][l + 1 := buf[512..]]
             else
               after == before[l := Patch(before[l], p.offset, record)]
    ensures SlotWritten(before, after, table, n, record)
  {
    var p := Locate(n);
    forall q: nat | q < 512 * TABLE_SECTORS
      ensures TableByte(after, table, q) ==
              if INODE_SIZE * n <= q < INODE_SIZE * n + INODE_SIZE then record[q - INODE_SIZE * n] else TableByte(before, table, q)
    {
      var k, r := q / 512, q % 512;
      assert q == 512 * k + r;
      if p.twoSectors {
        var buf := Patch(TwoSectors(before, table + p.sector), p.offset, record);
        if k == p.sector {
          assert after[table + k][r] == buf[r];
        } else if k == p.sector + 1 {
          assert after[table + k][r] == buf[512 + r];
        }
      }
    }
  }
}
