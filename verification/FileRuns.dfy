/** Many open files used in any order: what the reads, writes and seeks of fs/file.c and sys_lseek do over a whole run,
    stated on the contents alone. */
module FileRuns {
  import opened Disks
  import opened InodeTable
  import opened Bitmaps
  import opened Partitions
  import opened Files

  datatype Op =
    | Write(fd: nat, buf: seq<byte>)
    | Read(fd: nat, count: u32)
    | Seek(fd: nat, offset: s32, whence: Whence)

  datatype Result = Wrote(n: nat) | WriteFailed | Got(data: seq<byte>) | AtEnd | At(pos: int)

  /** What a program can see of the files: what is in each, and where each descriptor stands. */
  datatype View = View(contents: map<nat, seq<byte>>, pos: seq<u32>)

  /** The descriptors exist, and each stands inside its file. */
  ghost predicate Good(v: View, inodes: seq<nat>) {
    |inodes| == |v.pos| &&
    forall d | 0 <= d < |inodes| :: inodes[d] in v.contents && GoodPos(v.contents[inodes[d]], v.pos[d])
  }

  predicate GoodPos(contents: seq<byte>, pos: u32) {
    |contents| < 512 * INDIRECT && (pos <= |contents| || pos == NO_POS)
  }

  predicate GoodOp(op: Op, n: nat) {
    op.fd < n && (op.Write? ==> |op.buf| <= 0xc000_0000) && (op.Read? ==> op.count <= 0xc000_0000)
  }

  /** One operation on the view, when it neither runs out of blocks nor fails an assertion. */
  function Step(v: View, inodes: seq<nat>, op: Op): (r: (View, Result))
    requires |inodes| == |v.pos| && op.fd < |inodes| && inodes[op.fd] in v.contents
  {
    var d, i := op.fd, inodes[op.fd];
    var data, pos := v.contents[i], v.pos[d];
    match op
    case Write(_, buf) =>
      if |data| + |buf| > 512 * INDIRECT then (v, WriteFailed)
      else (View(v.contents[i := data + buf], v.pos[d := Wrap(|data| + |buf| - 1)]), Wrote(|buf|))
    case Read(_, count) =>
      (match ReadOutcome(data, pos, count)
       case Read(got) => (View(v.contents, v.pos[d := Wrap(pos + |got|)]), Got(got))
       case _ => (v, AtEnd))
    case Seek(_, offset, whence) =>
      var to := Target(|data|, pos, offset, whence);
      if 0 <= to < |data| then (View(v.contents, v.pos[d := Wrap(to)]), At(to)) else (v, At(-1))
  }

  /** Whether the source can take the step: reads and writes up to block 138 and 139 respectively. */
  predicate Fits(v: View, inodes: seq<nat>, op: Op)
    requires |inodes| == |v.pos| && op.fd < |inodes| && inodes[op.fd] in v.contents
  {
    var data, pos := v.contents[inodes[op.fd]], v.pos[op.fd];
    match op
    case Write(_, buf) => |data| + |buf| != 512 * INDIRECT
    case Read(_, count) => !ReadOutcome(data, pos, count).Crashed?
    case Seek(_, _, _) => true
  }

  /** The operations are on descriptors that there are. */
  predicate Runnable(v: View, inodes: seq<nat>, ops: seq<Op>) {
    && |inodes| == |v.pos|
    && (forall d | 0 <= d < |inodes| :: inodes[d] in v.contents)
    && (forall op | op in ops :: op.fd < |inodes|)
  }

  predicate GoodOps(ops: seq<Op>, n: nat) {
    forall op | op in ops :: GoodOp(op, n)
  }

  lemma GoodOpsAt(ops: seq<Op>, n: nat, k: nat)
    requires GoodOps(ops, n) && k < |ops|
    ensures GoodOp(ops[k], n)
  {
  }

  /** A run on the view, with the result of every operation. */
  function RunOf(v: View, inodes: seq<nat>, ops: seq<Op>): (r: (View, seq<Result>))
    requires Runnable(v, inodes, ops)
    ensures r.0.contents.Keys == v.contents.Keys && |r.0.pos| == |v.pos| && |r.1| == |ops|
    decreases |ops|
  {
    if ops == [] then (v, [])
    else
      var n := |ops| - 1;
      var before := RunOf(v, inodes, ops[..n]);
      var last := Step(before.0, inodes, ops[n]);
      (last.0, before.1 + [last.1])
  }

  lemma RunNone(v: View, inodes: seq<nat>, ops: seq<Op>)
    requires Runnable(v, inodes, ops)
    ensures Runnable(v, inodes, ops[..0]) && RunOf(v, inodes, ops[..0]) == (v, [])
  {
  }

  lemma RunMore(v: View, inodes: seq<nat>, ops: seq<Op>, k: nat)
    requires Runnable(v, inodes, ops) && k < |ops|
    ensures Runnable(v, inodes, ops[..k]) && Runnable(v, inodes, ops[..k + 1])
    ensures var before := RunOf(v, inodes, ops[..k]);
            |inodes| == |before.0.pos| && ops[k].fd < |inodes| && inodes[ops[k].fd] in before.0.contents
    ensures var before := RunOf(v, inodes, ops[..k]);
            var last := Step(before.0, inodes, ops[k]);
            RunOf(v, inodes, ops[..k + 1]) == (last.0, before.1 + [last.1])
  {
    hide Step;
    assert ops[..k + 1][..k] == ops[..k];
  }

  /** What the writes of a run added to inode i: their buffers, one behind the other. */
  function Added(ops: seq<Op>, results: seq<Result>, inodes: seq<nat>, i: nat): seq<byte>
    requires |ops| == |results| && forall op | op in ops :: op.fd < |inodes|
    decreases |ops|
  {
    if ops == [] then []
    else
      var n := |ops| - 1;
      Added(ops[..n], results[..n], inodes, i) + AddedBy(ops[n], results[n], inodes, i)
  }

  /** What one operation writes to inode i. */
  function AddedBy(op: Op, result: Result, inodes: seq<nat>, i: nat): seq<byte>
    requires op.fd < |inodes|
  {
    if op.Write? && inodes[op.fd] == i && result.Wrote? then op.buf else []
  }

  lemma StepAdds(v: View, inodes: seq<nat>, op: Op, i: nat)
    requires |inodes| == |v.pos| && op.fd < |inodes| && inodes[op.fd] in v.contents && i in v.contents
    ensures var r := Step(v, inodes, op); r.0.contents[i] == v.contents[i] + AddedBy(op, r.1, inodes, i)
  {
  }

  /** A file is what it was and then what was written to it, whichever descriptors it was written through and whatever
      else was done in between; a file that was not written to is what it was. */
  lemma {:induction false} RunAppends(v: View, inodes: seq<nat>, ops: seq<Op>, i: nat)
    requires Runnable(v, inodes, ops) && i in v.contents
    ensures var r := RunOf(v, inodes, ops); r.0.contents[i] == v.contents[i] + Added(ops, r.1, inodes, i)
    decreases |ops|
  {
    if ops == [] {
    } else {
      hide Step, AddedBy, RunOf, Added;
      var n := |ops| - 1;
      RunAppends(v, inodes, ops[..n], i);
      RunMore(v, inodes, ops, n);
      assert ops[..n + 1] == ops;
      var (before, results) := RunOf(v, inodes, ops[..n]);
      var last := Step(before, inodes, ops[n]).1;
      StepAdds(before, inodes, ops[n], i);
      AddedMore(ops, results, last, inodes, i);
      Assoc(v.contents[i], Added(ops[..n], results, inodes, i), AddedBy(ops[n], last, inodes, i));
    }
  }

  lemma AddedMore(ops: seq<Op>, results: seq<Result>, last: Result, inodes: seq<nat>, i: nat)
    requires |ops| == |results| + 1 && forall op | op in ops :: op.fd < |inodes|
    ensures Added(ops, results + [last], inodes, i) == Added(ops[..|results|], results, inodes, i) + AddedBy(ops[|results|], last, inodes, i)
  {
    hide AddedBy;
    assert (results + [last])[..|results|] == results;
  }

  lemma Assoc(a: seq<byte>, b: seq<byte>, c: seq<byte>)
    ensures a + (b + c) == a + b + c
  {
  }

  /** What was written can be read back: go to where the write began and read that many bytes. */
  lemma WriteSeekRead(v: View, inodes: seq<nat>, d: nat, buf: seq<byte>)
    requires Good(v, inodes) && d < |inodes| && 0 < |buf| && |v.contents[inodes[d]]| + |buf| < 139 * 512
    ensures var ops := [Write(d, buf), Seek(d, |v.contents[inodes[d]]|, SeekSet), Op.Read(d, |buf|)];
            RunOf(v, inodes, ops).1[2] == Got(buf)
  {
    var size := |v.contents[inodes[d]]|;
    var ops := [Write(d, buf), Seek(d, size, SeekSet), Op.Read(d, |buf|)];
    var r0 := RunOf(v, inodes, []);
    assert ops[..1][..0] == [];
    var r1 := RunOf(v, inodes, ops[..1]);
    assert ops[..1][0] == ops[0] && r1.0 == Step(v, inodes, ops[0]).0;
    assert ops[..2][..1] == ops[..1];
    var r2 := RunOf(v, inodes, ops[..2]);
    assert r2.0 == Step(r1.0, inodes, ops[1]).0;
    var data := r1.0.contents[inodes[d]];
    assert r2.0.contents == r1.0.contents && r2.0.pos[d] == size;
    assert data == v.contents[inodes[d]] + buf && data[size..size + |buf|] == buf;
    assert Step(r2.0, inodes, ops[2]).1 == Got(buf);
  }

  // ---------------------------------------------------------------- what the reads of a run give

  /** What the reads through descriptor d gave, one behind the other. */
  function GotBy(ops: seq<Op>, results: seq<Result>, d: nat): seq<byte>
    requires |ops| == |results|
    decreases |ops|
  {
    if ops == [] then []
    else
      var n := |ops| - 1;
      GotBy(ops[..n], results[..n], d) + if ops[n].fd == d && results[n].Got? then results[n].data else []
  }

  /** How many bytes they asked for. */
  function AskedBy(ops: seq<Op>, d: nat): nat
    decreases |ops|
  {
    if ops == [] then 0
    else
      var n := |ops| - 1;
      AskedBy(ops[..n], d) + if ops[n].fd == d && ops[n].Read? then ops[n].count else 0
  }

  predicate OnlyReads(ops: seq<Op>, d: nat) {
    forall op | op in ops && op.fd == d :: op.Read?
  }

  predicate NotWritten(ops: seq<Op>, inodes: seq<nat>, i: nat) {
    forall op | op in ops && op.Write? :: op.fd < |inodes| && inodes[op.fd] != i
  }

  /** Where descriptor d stands in its file. */
  predicate StandsIn(v: View, inodes: seq<nat>, d: nat) {
    && d < |inodes| == |v.pos| && inodes[d] in v.contents
    && v.pos[d] <= |v.contents[inodes[d]]| <= 512 * INDIRECT
  }

  /** One step of a run in which descriptor d only reads. */
  lemma StepReads(v: View, inodes: seq<nat>, op: Op, d: nat)
    requires StandsIn(v, inodes, d) && op.fd < |inodes| && inodes[op.fd] in v.contents && (op.fd == d ==> op.Read?)
    ensures var r := Step(v, inodes, op); var got := if op.fd == d && r.1.Got? then r.1.data else [];
            && StandsIn(r.0, inodes, d) && v.contents[inodes[d]] <= r.0.contents[inodes[d]]
            && r.0.pos[d] == v.pos[d] + |got| && got == r.0.contents[inodes[d]][v.pos[d]..r.0.pos[d]]
  {
    if op.fd == d {
      ReadIsExact(v.contents[inodes[d]], v.pos[d], op.count);
    }
  }

  lemma OpIn(ops: seq<Op>, n: nat)
    requires n < |ops|
    ensures ops[n] in ops && ops[..n + 1] == ops[..n] + [ops[n]]
  {
  }

  /** Where d only reads, and the other descriptors do anything, its reads give the file in order and without a gap,
      from where d stood to where it stands now. */
  lemma {:induction false} ReadsAreInOrder(v: View, inodes: seq<nat>, ops: seq<Op>, d: nat)
    requires Runnable(v, inodes, ops) && StandsIn(v, inodes, d) && OnlyReads(ops, d)
    ensures var (last, results) := RunOf(v, inodes, ops);
            && StandsIn(last, inodes, d) && v.contents[inodes[d]] <= last.contents[inodes[d]]
            && v.pos[d] <= last.pos[d] && GotBy(ops, results, d) == last.contents[inodes[d]][v.pos[d]..last.pos[d]]
    decreases |ops|
  {
    if ops == [] {
    } else {
      hide Step, RunOf, GotBy, Runnable;
      var n := |ops| - 1;
      OpIn(ops, n);
      RunnableAt(v, inodes, ops, n);
      ReadsAreInOrder(v, inodes, ops[..n], d);
      RunMore(v, inodes, ops, n);
      assert ops[..n + 1] == ops;
      var (before, results) := RunOf(v, inodes, ops[..n]);
      var (last, result) := Step(before, inodes, ops[n]);
      StepReads(before, inodes, ops[n], d);
      GotMore(ops, results, result, d);
      Slices(before.contents[inodes[d]], last.contents[inodes[d]], v.pos[d], before.pos[d], last.pos[d]);
    }
  }

  lemma RunnableAt(v: View, inodes: seq<nat>, ops: seq<Op>, n: nat)
    requires Runnable(v, inodes, ops) && n < |ops|
    ensures Runnable(v, inodes, ops[..n]) && ops[n].fd < |inodes| && inodes[ops[n].fd] in v.contents
  {
  }

  lemma GotMore(ops: seq<Op>, results: seq<Result>, last: Result, d: nat)
    requires |ops| == |results| + 1
    ensures GotBy(ops, results + [last], d)
         == GotBy(ops[..|results|], results, d) + if ops[|results|].fd == d && last.Got? then last.data else []
  {
    assert (results + [last])[..|results|] == results;
  }

  lemma Slices(c0: seq<byte>, c: seq<byte>, p: nat, q: nat, q1: nat)
    requires c0 <= c && p <= q <= |c0| && q <= q1 <= |c|
    ensures c0[p..q] + c[q..q1] == c[p..q1]
  {
  }

  /** As long as nobody writes to the file, below the blocks that cannot be read, a read gives all that it asks for or all
      that is left: together the reads give as much as they ask for together or the whole rest. */
  lemma {:induction false} ReadsGetAll(v: View, inodes: seq<nat>, ops: seq<Op>, d: nat)
    requires Runnable(v, inodes, ops) && StandsIn(v, inodes, d) && OnlyReads(ops, d)
    requires NotWritten(ops, inodes, inodes[d]) && |v.contents[inodes[d]]| < 139 * 512
    ensures var c, p := v.contents[inodes[d]], v.pos[d];
            var (last, results) := RunOf(v, inodes, ops);
            var end := if p + AskedBy(ops, d) < |c| then p + AskedBy(ops, d) else |c|;
            && last.contents[inodes[d]] == c && last.pos[d] == end && GotBy(ops, results, d) == c[p..end]
    decreases |ops|
  {
    ReadsAreInOrder(v, inodes, ops, d);
    if ops == [] {
    } else {
      hide Step, RunOf, GotBy;
      var n := |ops| - 1;
      OpIn(ops, n);
      ReadsGetAll(v, inodes, ops[..n], d);
      RunMore(v, inodes, ops, n);
      assert ops[..n + 1] == ops;
      var (before, results) := RunOf(v, inodes, ops[..n]);
      StepGetsAll(before, inodes, ops[n], d);
    }
  }

  lemma StepGetsAll(v: View, inodes: seq<nat>, op: Op, d: nat)
    requires StandsIn(v, inodes, d) && op.fd < |inodes| && inodes[op.fd] in v.contents && (op.fd == d ==> op.Read?)
    requires (op.Write? ==> inodes[op.fd] != inodes[d]) && |v.contents[inodes[d]]| < 139 * 512
    ensures var c, p, asked := v.contents[inodes[d]], v.pos[d], if op.fd == d then op.count else 0;
            var r := Step(v, inodes, op);
            && r.0.contents[inodes[d]] == c && r.0.pos[d] == (if p + asked < |c| then p + asked else |c|)
            && (op.fd == d ==> Fits(v, inodes, op) && (r.1 == AtEnd <==> p == |c| && asked > 0))
  {
    if op.fd == d {
      ReadIsExact(v.contents[inodes[d]], v.pos[d], op.count);
    }
  }

  /** The end of the file is reported once the file has been read, and then only: after it the reads have given all. */
  lemma EndMeansAll(v: View, inodes: seq<nat>, ops: seq<Op>, d: nat)
    requires Runnable(v, inodes, ops) && StandsIn(v, inodes, d) && OnlyReads(ops, d) && ops != []
    requires NotWritten(ops, inodes, inodes[d]) && |v.contents[inodes[d]]| < 139 * 512
    requires ops[|ops| - 1].fd == d
    ensures var c, p, n := v.contents[inodes[d]], v.pos[d], |ops| - 1;
            && (RunOf(v, inodes, ops).1[n] == AtEnd <==> ops[n].count > 0 && p + AskedBy(ops[..n], d) >= |c|)
            && (RunOf(v, inodes, ops).1[n] == AtEnd ==> GotBy(ops, RunOf(v, inodes, ops).1, d) == c[p..])
  {
    hide Step, RunOf, GotBy, AskedBy;
    var n := |ops| - 1;
    OpIn(ops, n);
    ReadsGetAll(v, inodes, ops[..n], d);
    ReadsGetAll(v, inodes, ops, d);
    RunMore(v, inodes, ops, n);
    assert ops[..n + 1] == ops;
    var (before, results) := RunOf(v, inodes, ops[..n]);
    StepGetsAll(before, inodes, ops[n], d);
    AskedMore(ops, d);
  }

  lemma AskedMore(ops: seq<Op>, d: nat)
    requires ops != []
    ensures AskedBy(ops[..|ops| - 1], d) <= AskedBy(ops, d)
  {
  }

  /** A file of 139 blocks or more can be written, but no read that reaches its end returns. */
  lemma LastBlocksCannotBeRead(contents: seq<byte>, pos: u32, count: u32)
    requires 139 * 512 <= |contents| < 512 * INDIRECT && pos < |contents| && count >= |contents| - pos
    ensures ReadOutcome(contents, pos, count) == Crashed
  {
  }

  // ---------------------------------------------------------------- the source's functions take these steps

  /** Every descriptor is open on a regular file. */
  ghost predicate Regular(open: set<nat>, live: map<nat, Inode>, blocks: map<nat, seq<u32>>, inodes: seq<nat>) {
    forall i | i in inodes :: i in open && i in live && i in blocks && FileShaped(blocks[i], live[i].size)
  }

  /** The entries of the file table are different ones, and stand where the view says. */
  ghost predicate Positions(files: seq<OpenFile>, inodes: seq<nat>, pos: seq<u32>)
    reads files
  {
    && |files| == |inodes| == |pos|
    && (forall c, d | 0 <= c < d < |files| :: files[c] != files[d])
    && (forall d | 0 <= d < |files| :: files[d].used && files[d].inode == inodes[d] && files[d].pos == pos[d])
  }

  /** The view is what the descriptors show. */
  ghost predicate Shows(part: Partition, files: seq<OpenFile>, inodes: seq<nat>, v: View)
    reads part, part.blockBitmap, part.inodeBitmap, part.blockBitmap.bits, part.inodeBitmap.bits, files
  {
    && part.Valid() && v.contents == part.Contents() && Good(v, inodes)
    && Positions(files, inodes, v.pos) && Regular(part.open.Keys, part.live, part.blocks, inodes)
  }

  /** What the operation on descriptor d may rely on. */
  lemma Shown(part: Partition, files: seq<OpenFile>, inodes: seq<nat>, v: View, d: nat)
    requires Shows(part, files, inodes, v) && d < |files|
    ensures |inodes| == |v.pos| == |files| && files[d] in files && files[d].used && files[d].inode == inodes[d] && files[d].pos == v.pos[d]
    ensures var i := inodes[d];
            && part.Opened(i) && FileShaped(part.blocks[i], part.live[i].size) && part.open[i] == part.live[i]
            && i in v.contents && |v.contents[i]| == part.live[i].size < 512 * INDIRECT
    ensures GoodPos(v.contents[inodes[d]], v.pos[d])
  {
    hide Owns, Covers, Room, Agree, Loaded, Synced, AllData;
    AgreeAt(part.live, part.open, part.inodeBitmap.Used(), inodes[d]);
    InContents(part, inodes[d]);
  }

  lemma WriteIsGood(v: View, inodes: seq<nat>, d: nat, buf: seq<byte>)
    requires Good(v, inodes) && d < |inodes| && |v.contents[inodes[d]]| + |buf| < 512 * INDIRECT
    ensures var i := inodes[d];
            var next := View(v.contents[i := v.contents[i] + buf], v.pos[d := Wrap(|v.contents[i]| + |buf| - 1)]);
            Step(v, inodes, Write(d, buf)) == (next, Wrote(|buf|)) && Good(next, inodes)
  {
  }

  lemma MoveIsGood(v: View, inodes: seq<nat>, d: nat, pos: u32)
    requires Good(v, inodes) && d < |inodes| && GoodPos(v.contents[inodes[d]], pos)
    ensures Good(View(v.contents, v.pos[d := pos]), inodes)
    ensures pos == v.pos[d] ==> View(v.contents, v.pos[d := pos]) == v
  {
  }

  lemma RegularKept(open: set<nat>, live0: map<nat, Inode>, blocks0: map<nat, seq<u32>>, contents0: map<nat, seq<byte>>,
                    live: map<nat, Inode>, blocks: map<nat, seq<u32>>, contents: map<nat, seq<byte>>,
                    i: nat, buf: seq<byte>, inodes: seq<nat>)
    requires Appends(live0, blocks0, contents0, live, blocks, contents, i, buf) && Regular(open, live0, blocks0, inodes)
    ensures Regular(open, live, blocks, inodes)
    ensures i in live0 && i in live && i in contents0 && contents == contents0[i := contents0[i] + buf]
    ensures live[i].size == live0[i].size + |buf| < 512 * INDIRECT
  {
    hide Prefix;
  }

  lemma ShowsRunnable(part: Partition, files: seq<OpenFile>, inodes: seq<nat>, v: View, ops: seq<Op>)
    requires Shows(part, files, inodes, v) && GoodOps(ops, |files|)
    ensures Runnable(v, inodes, ops)
  {
    hide Partition.ValidBut, Partition.Contents;
  }

  method PerformWrite(part: Partition, files: seq<OpenFile>, ghost inodes: seq<nat>, ghost v: View, d: nat, buf: seq<byte>)
    returns (ok: bool, res: Result)
    requires Shows(part, files, inodes, v) && d < |files| && |buf| <= 0xc000_0000
    modifies part`owner, part`blocks, part`open, part`live, part`disk, part.blockBitmap.bits, files
    ensures ok ==> Fits(v, inodes, Write(d, buf)) && res == Step(v, inodes, Write(d, buf)).1
    ensures ok ==> Shows(part, files, inodes, Step(v, inodes, Write(d, buf)).0)
    ensures !ok ==> v.contents == part.Contents()
    ensures !ok ==> !Fits(v, inodes, Write(d, buf)) || part.Free() == {}
  {
    hide Appends, Good, Regular, FreeIn, Partition.ValidBut, Partition.Contents, Prefix;
    Shown(part, files, inodes, v, d);
    ghost var live0, blocks0 := part.live, part.blocks;
    var f := files[d];
    var r := FileWrite(part, f, buf);
    assert Positions(files, inodes, v.pos[d := f.pos]);
    ok := r.Written? || r.Refused?;
    res := WriteFailed;
    if r.Written? {
      res := Wrote(r.n);
      RegularKept(part.open.Keys, live0, blocks0, v.contents, part.live, part.blocks, part.Contents(), inodes[d], buf, inodes);
      WriteIsGood(v, inodes, d, buf);
    }
  }

  method PerformRead(part: Partition, files: seq<OpenFile>, ghost inodes: seq<nat>, ghost v: View, d: nat, count: u32)
    returns (ok: bool, res: Result)
    requires Shows(part, files, inodes, v) && d < |files| && count <= 0xc000_0000
    modifies files
    ensures ok <==> Fits(v, inodes, Op.Read(d, count))
    ensures ok ==> res == Step(v, inodes, Op.Read(d, count)).1 && Shows(part, files, inodes, Step(v, inodes, Op.Read(d, count)).0)
  {
    hide Good, Regular, FreeIn, Partition.ValidBut, Partition.Contents, Prefix;
    Shown(part, files, inodes, v, d);
    var r := FileRead(part, files[d], count);
    ok := !r.Crashed?;
    res := if r.Read? then Got(r.data) else AtEnd;
    assert Positions(files, inodes, v.pos[d := files[d].pos]);
    MoveIsGood(v, inodes, d, files[d].pos);
  }

  method PerformSeek(part: Partition, files: seq<OpenFile>, ghost inodes: seq<nat>, ghost v: View, d: nat, offset: s32, whence: Whence)
    returns (res: Result)
    requires Shows(part, files, inodes, v) && d < |files|
    modifies files
    ensures Fits(v, inodes, Seek(d, offset, whence))
    ensures res == Step(v, inodes, Seek(d, offset, whence)).1 && Shows(part, files, inodes, Step(v, inodes, Seek(d, offset, whence)).0)
  {
    hide Good, Regular, FreeIn, Partition.ValidBut, Partition.Contents, Prefix, Target;
    Shown(part, files, inodes, v, d);
    var to := Lseek(part, files[d], offset, whence);
    res := At(to);
    assert Positions(files, inodes, v.pos[d := files[d].pos]);
    MoveIsGood(v, inodes, d, files[d].pos);
  }

  /** The source cannot take the step from this view, or there was no block left for it. */
  ghost predicate Stops(v: View, inodes: seq<nat>, op: Op, part: Partition)
    reads part, part.blockBitmap, part.blockBitmap.bits
    requires |inodes| == |v.pos|
  {
    op.fd < |inodes| && inodes[op.fd] in v.contents && (!Fits(v, inodes, op) || (op.Write? && part.Free() == {}))
  }

  method Perform(part: Partition, files: seq<OpenFile>, ghost inodes: seq<nat>, ghost v: View, op: Op) returns (ok: bool, res: Result)
    requires Shows(part, files, inodes, v) && GoodOp(op, |files|)
    modifies part`owner, part`blocks, part`open, part`live, part`disk, part.blockBitmap.bits, files
    ensures ok ==> Fits(v, inodes, op) && res == Step(v, inodes, op).1 && Shows(part, files, inodes, Step(v, inodes, op).0)
    ensures !ok ==> v.contents == part.Contents()
    ensures !ok ==> !Fits(v, inodes, op) || (op.Write? && part.Free() == {})
  {
    hide Step, Fits, Good, FreeIn, Positions, Regular, Partition.ValidBut, Partition.Contents;
    Shown(part, files, inodes, v, op.fd);
    match op {
      case Write(d, buf) => ok, res := PerformWrite(part, files, inodes, v, d, buf);
      case Read(d, count) => ok, res := PerformRead(part, files, inodes, v, d, count);
      case Seek(d, offset, whence) =>
        res := PerformSeek(part, files, inodes, v, d, offset, whence);
        ok := true;
    }
  }

  /** The steps that the source cannot take: a write that ends at byte 71680, a read that would end behind block 138, and one
      from nowhere. */
  lemma FitsIsExact(v: View, inodes: seq<nat>, op: Op)
    requires |inodes| == |v.pos| && op.fd < |inodes| && inodes[op.fd] in v.contents
    ensures var c, pos := v.contents[inodes[op.fd]], v.pos[op.fd];
            && (op.Seek? ==> Fits(v, inodes, op))
            && (op.Write? ==> (Fits(v, inodes, op) <==> |c| + |op.buf| != 71680))
            && (op.Read? ==> (Fits(v, inodes, op) <==>
                              pos <= |c| && ((pos == |c| && op.count > 0) || pos + op.count < 71168 || |c| < 71168)))
  {
    if op.Read? { ReadIsExact(v.contents[inodes[op.fd]], v.pos[op.fd], op.count); }
  }

  lemma StopsMeans(v: View, inodes: seq<nat>, op: Op, part: Partition)
    requires |inodes| == |v.pos| && Stops(v, inodes, op, part)
    ensures op.fd < |inodes| && inodes[op.fd] in v.contents
    ensures var c, pos := v.contents[inodes[op.fd]], v.pos[op.fd];
            if op.Write? then |c| + |op.buf| == 71680 || part.Free() == {}
            else op.Read? && (pos > |c| || (|c| >= 71168 && pos + op.count >= 71168))
  {
    FitsIsExact(v, inodes, op);
    hide Fits;
  }

  /** A whole run through the source's functions is the run on the view, up to the first step that the source cannot take
      or a write that uses up the last free block. */
  method Run(part: Partition, files: seq<OpenFile>, ghost inodes: seq<nat>, ghost v: View, ops: seq<Op>)
    returns (done: nat, results: seq<Result>)
    requires Shows(part, files, inodes, v) && GoodOps(ops, |files|)
    modifies part`owner, part`blocks, part`open, part`live, part`disk, part.blockBitmap.bits, files
    ensures done <= |ops| && Runnable(v, inodes, ops[..done])
    ensures var (last, all) := RunOf(v, inodes, ops[..done]);
            && results == all && last.contents == part.Contents()
            && (done == |ops| ==> Shows(part, files, inodes, last))
            && (done < |ops| ==> Stops(last, inodes, ops[done], part))
    ensures var last, op := RunOf(v, inodes, ops[..done]).0, if done < |ops| then ops[done] else Seek(0, 0, SeekSet);
            done < |ops| ==>
              && op.fd < |inodes| == |last.pos| && inodes[op.fd] in last.contents
              && var c, pos := last.contents[inodes[op.fd]], last.pos[op.fd];
                 if op.Write? then |c| + |op.buf| == 71680 || part.Free() == {}
                 else op.Read? && (pos > |c| || (|c| >= 71168 && pos + op.count >= 71168))
  {
    done, results := 0, [];
    ghost var now := v;
    assert Runnable(v, inodes, ops) by { ShowsRunnable(part, files, inodes, v, ops); }
    hide Step, Fits, Good, GoodOps, Shows, Runnable, RunOf;
    RunNone(v, inodes, ops);
    while done < |ops|
      invariant done <= |ops| && Shows(part, files, inodes, now) && Runnable(v, inodes, ops[..done])
      invariant RunOf(v, inodes, ops[..done]) == (now, results)
    {
      GoodOpsAt(ops, |files|, done);
      var ok, res := Perform(part, files, inodes, now, ops[done]);
      if !ok {
        StopsMeans(now, inodes, ops[done], part);
        return;
      }
      RunMore(v, inodes, ops, done);
      now := Step(now, inodes, ops[done]).0;
      results := results + [res];
      done := done + 1;
    }
    assert ops[..done] == ops;
  }
}
