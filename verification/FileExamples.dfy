/** Runs from a file system just made in which the code falls short of what it is for. */
module FileExamples {
  import opened Common
  import opened SuperBlocks
  import opened BlockMap
  import opened FileData
  import opened Release
  import opened ReadWrite
  import opened FileSpec
  import opened FileSystems
  import opened DenseFiles
  import opened Directories
  import opened Catalogs
  import Bitmaps

  /** mktestfs makes no smaller file system. */
  const MIN_BLOCKS := 128

  /** The log of the root directory. */
  function RootLog(): seq<Record> {
    [Record(0, DOT), Record(0, DOT_DOT)]
  }

  /** mktestfs, with so many blocks: a root directory. */
  method NewVolume(maxFsBlocks: nat) returns (c: Catalog)
    requires MIN_BLOCKS <= maxFsBlocks <= NR_BLOCK_BITS
    ensures c.Valid() && fresh(c) && fresh(c.fs) && fresh(c.fs.sb.Repr())
    ensures forall o | o in c.fs.inodes :: fresh(c.fs.inodes[o])
    ensures c.fs.inodes.Keys == Numbers(1) && c.logs == map[0 := RootLog()] && c.Lasts(0)
    ensures c.fs.sb.Free() == maxFsBlocks - 1
  {
    hide FileSystem.ValidBut, SuperBlock.Valid, SuperBlock.Used, IsDir, Removable, Bitmaps.Bitmap.Valid;
    var blocks := new Block[NR_BLOCKS](_ => ZeroBlock());
    var dev := new Device(blocks, DSuper(0, 0, 0));
    var fs := new FileSystem.Mkfs(dev, maxFsBlocks);
    c := new Catalog(fs);
    var ret := c.MakeRoot();
  }

  /** The name is not there, nor a tombstone that could take it. */
  predicate Absent(log: seq<Record>, name: Name) {
    ValidName(name) && NumberOf(log, name) < 0 && StopFrom(log, name, 0) == |log|
  }

  /** An entry goes to the end of a directory, inside its last block. */
  predicate Appendable(log: seq<Record>, name: Name) {
    && Absent(log, name)
    && |Bytes(log)| % BLOCK_SIZE > 0 && |Bytes(log)| % BLOCK_SIZE + HEADER + |name| + 1 <= BLOCK_SIZE
  }

  lemma StillAbsent(log: seq<Record>, nr: nat, a: Name, b: Name)
    requires Absent(log, b) && a != b
    ensures Absent(log + [Record(nr, a)], b)
  {
    var after := log + [Record(nr, a)];
    assert FindFrom(log, b, 0) == |log|;
    forall j | 0 <= j < |after| ensures !Stops(after[j], b) && !(Live(after[j]) && after[j].name == b) {
      assert j < |log| ==> after[j] == log[j];
    }
  }

  lemma StillAppendable(log: seq<Record>, nr: nat, a: Name, b: Name)
    requires Appendable(log, a) && Appendable(log, b) && a != b
    requires |Bytes(log)| % BLOCK_SIZE + HEADER + |a| + 1 + HEADER + |b| + 1 <= BLOCK_SIZE
    ensures Appendable(log + [Record(nr, a)], b)
  {
    hide Bytes, Encoded, Absent;
    WrittenAtEnd(log, Record(nr, a));
    StillAbsent(log, nr, a, b);
  }

  /** The inode numbers below n. */
  function Numbers(n: nat): (s: set<nat>)
    ensures forall i: nat :: i in s <==> i < n
  {
    if n == 0 then {} else Numbers(n - 1) + {n - 1}
  }

  lemma NextNumber(n: nat, nr: nat, after: set<nat>)
    requires nr !in Numbers(n) && after == Numbers(n) + {nr} && forall j: nat | j < nr :: j in Numbers(n)
    ensures nr == n && after == Numbers(n + 1)
  {
    assert n !in Numbers(n);
    forall i: nat ensures i in after <==> i in Numbers(n + 1) {
    }
  }

  /** cmd_create in the root directory, the only one, where there is room. */
  method NewFile(c: Catalog, name: Name, n: nat, ghost log: seq<Record>)
    requires c.Valid() && 0 in c.fs.inodes && c.logs == map[0 := log] && Appendable(log, name) && c.Lasts(0)
    requires c.fs.inodes.Keys == Numbers(n) && n < NR_INODE_BLOCKS * INODES_PER_BLOCK
    modifies c`logs, c.fs`inodes, c.fs.inodes[0], c.fs.sb, c.fs.sb.dev, c.fs.sb.dev.blocks, c.fs.sb.blockFreemap.v,
             c.fs.sb.inodeFreemap.v
    ensures c.Valid() && c.Lasts(0) && c.fs.sb.Free() == old(c.fs.sb.Free())
    ensures c.fs.inodes.Keys == Numbers(n + 1) && c.fs.inodes[0] == old(c.fs.inodes[0])
    ensures fresh(c.fs.inodes[n]) && c.fs.inodes[n].d == EmptyInode(I_FILE)
    ensures c.logs == map[0 := log + [Record(n, name)]]
    ensures forall o: nat | 0 < o < n ::
              c.fs.inodes[o] == old(c.fs.inodes[o]) && c.fs.inodes[o].d == old(c.fs.inodes[o].d)
  {
    hide Catalog.ValidBut, IsDir, Removable, Bytes, NumberOf, Stop, Fits, Breaks, Dangles, SameFile, EmptyInode,
         Catalog.At, Dense, FileOf, CreateLogs, Added, StopFrom, CreateError, CreateHarms, EntryFree;
    ghost var z := c.At(0);
    c.Opened(0);
    NextAppend(z, HEADER + |name| + 1);
    FitsFine(z, log, name);
    assert n !in c.fs.inodes.Keys;
    var ret;
    ghost var made;
    ret, made := c.Create(0, name, false);
    AppendedLog(log, name, made);
    NextNumber(n, made, c.fs.inodes.Keys);
    assert forall o: nat | 0 < o < n :: o in Numbers(n);
  }

  lemma FitsFine(z: Snap, log: seq<Record>, name: Name)
    requires |z.d.direct| == NR_DIRECT_BLOCKS && z.d.size >= 0 && Absent(log, name)
    requires Fits(z, HEADER + |name| + 1) && Stop(z, HEADER + |name| + 1).1 == z.free
    ensures CreateError(z, log, name, false) == 0 && !CreateHarms(z, log, name, false)
    ensures EntryFree(Before(z, false), log, name) == z.free
  {
    hide Stop;
  }

  lemma AppendedLog(log: seq<Record>, name: Name, nr: nat)
    requires Absent(log, name)
    ensures CreateLogs(map[0 := log], 0, name, false, nr, 0) == (map[0 := log + [Record(nr, name)]], 0)
  {
    var logs: map<int, seq<Record>> := map[0 := log];
    assert logs[0 := log + [Record(nr, name)]] == map[0 := log + [Record(nr, name)]];
    hide NumberOf;
  }

  // ---------- a full file system ----------

  lemma OneStep(dev: seq<Block>, d: DInode, free: int, n: nat)
    requires |d.direct| == NR_DIRECT_BLOCKS && n < MAX_FILE_BLOCKS && free >= StepNeeds(dev, d, n, n)
    ensures Reach(dev, d, free, n, n, n) == (n + 1, free - StepNeeds(dev, d, n, n))
  {
    hide StepNeeds;
    assert Reach(dev, d, free - StepNeeds(dev, d, n, n), n, n + 1, n) == (n + 1, free - StepNeeds(dev, d, n, n));
  }

  /** One byte written where there is room for it. */
  method OneByte(fs: FileSystem, nr: nat, start: nat) returns (ghost leak: Block)
    requires fs.Valid() && nr in fs.inodes && start / BLOCK_SIZE < MAX_FILE_BLOCKS
    requires fs.inodes[nr].sb == fs.sb && |fs.inodes[nr].d.direct| == NR_DIRECT_BLOCKS && fs.sb.Valid()
    requires var n0 := start / BLOCK_SIZE; fs.sb.Free() >= StepNeeds(fs.sb.dev.blocks[..], fs.inodes[nr].d, n0, n0)
    modifies fs.inodes[nr], fs.sb, fs.sb.dev, fs.sb.dev.blocks, fs.sb.blockFreemap.v
    ensures fs.Valid() && fs.inodes == old(fs.inodes) && fs.sb.Valid() && fs.inodes[nr].sb == fs.sb
    ensures |fs.inodes[nr].d.direct| == NR_DIRECT_BLOCKS
    ensures fs.inodes[nr].d.size == Max(old(fs.inodes[nr].d.size), start + 1)
    ensures fs.inodes[nr].d.itype == old(fs.inodes[nr].d.itype)
    ensures forall o | o in fs.inodes && o != nr :: fs.FileKept(o)
    ensures var n0 := start / BLOCK_SIZE;
      && Wrote(old(fs.inodes[nr].Now()), fs.sb.dev.blocks[..], fs.inodes[nr].d, fs.inodes[nr].own,
               start, [1], start + 1, leak, n0, n0 + 1)
      && fs.sb.Free() == old(fs.sb.Free()) - StepNeeds(old(fs.sb.dev.blocks[..]), old(fs.inodes[nr].d), n0, n0)
  {
    hide FileSystem.ValidBut, SuperBlock.Valid, SuperBlock.Used, RemovableAfter, StepNeeds, Populated, Owns, Wrote,
         Leaked, Harmless, NothingShows, Removable, ZeroTail, FileOf, FileSystem.FileKept, FileSystem.OthersKept;
    var ret;
    assert LastBlock(start, 1) == start / BLOCK_SIZE;
    OneStep(fs.sb.dev.blocks[..], fs.inodes[nr].d, fs.sb.Free(), start / BLOCK_SIZE);
    ret, leak := fs.WriteFile(nr, [1], start);
    fs.Members();
  }

  /** No block from m on is mapped, and the tables above them are not needed before. */
  ghost predicate Unmapped(dev: seq<Block>, d: DInode, m: nat)
    requires |d.direct| == NR_DIRECT_BLOCKS
  {
    forall k: nat | m <= k < MAX_FILE_BLOCKS :: Ptr(dev, d, DataRole(k)) == 0
  }

  lemma NextUnmapped(z: Snap, dev: seq<Block>, d: DInode, own: map<int, Role>, m: nat)
    requires |z.d.direct| == |d.direct| == NR_DIRECT_BLOCKS && Unmapped(z.dev, z.d, m)
    requires Progress(z, dev, d, own, m, m + 1)
    ensures Unmapped(dev, d, m + 1)
  {
    hide Ptr, DataRole, Owns, Populated;
  }

  lemma NeedsOneToThree(dev: seq<Block>, d: DInode, m: nat)
    requires |d.direct| == NR_DIRECT_BLOCKS && m < MAX_FILE_BLOCKS && Unmapped(dev, d, m)
    ensures 1 <= StepNeeds(dev, d, m, m) <= 3 && (m < NR_DIRECT_BLOCKS ==> StepNeeds(dev, d, m, m) == 1)
  {
    assert Ptr(dev, d, DataRole(m)) == 0;
    hide Ptr, DataRole;
  }

  lemma EmptyUnmapped(dev: seq<Block>, itype: int)
    ensures |EmptyInode(itype).direct| == NR_DIRECT_BLOCKS && Unmapped(dev, EmptyInode(itype), 0)
  {
    EmptyPtr(dev, itype);
  }

  lemma EmptyPtr(dev: seq<Block>, itype: int)
    ensures var d := EmptyInode(itype); |d.direct| == NR_DIRECT_BLOCKS && d.indirect == d.dindirect == d.size == 0
    ensures forall r | ValidRole(r) :: Ptr(dev, EmptyInode(itype), r) == 0
  {
  }

  /** Another block of a file is written, with the tables it needs. */
  method TakeBlock(fs: FileSystem, nr: nat, j: nat)
    requires fs.Valid() && nr in fs.inodes && j < MAX_FILE_BLOCKS
    requires |fs.inodes[nr].d.direct| == NR_DIRECT_BLOCKS && Unmapped(fs.sb.dev.blocks[..], fs.inodes[nr].d, j)
    requires fs.sb.Free() >= if j < NR_DIRECT_BLOCKS then 1 else 3
    modifies fs.inodes[nr], fs.sb, fs.sb.dev, fs.sb.dev.blocks, fs.sb.blockFreemap.v
    ensures fs.Valid() && fs.inodes == old(fs.inodes) && forall o | o in fs.inodes && o != nr :: fs.FileKept(o)
    ensures |fs.inodes[nr].d.direct| == NR_DIRECT_BLOCKS && Unmapped(fs.sb.dev.blocks[..], fs.inodes[nr].d, j + 1)
    ensures fs.inodes[nr].d.itype == old(fs.inodes[nr].d.itype)
    ensures old(fs.sb.Free()) - 3 <= fs.sb.Free() < old(fs.sb.Free())
    ensures j < NR_DIRECT_BLOCKS ==> fs.sb.Free() == old(fs.sb.Free()) - 1
  {
    hide FileSystem.ValidBut, SuperBlock.Valid, SuperBlock.Used, StepNeeds, Progress, SameFile, Unmapped, Expected,
         ByteAt, Owns, Populated;
    fs.Members();
    ghost var z := fs.inodes[nr].Now();
    NeedsOneToThree(z.dev, z.d, j);
    ghost var leak := OneByte(fs, nr, j * BLOCK_SIZE);
    NextUnmapped(z, fs.sb.dev.blocks[..], fs.inodes[nr].d, fs.inodes[nr].own, j);
  }

  /** An empty file takes up blocks until there are k left, or one or two more. */
  method TakeMany(fs: FileSystem, nr: nat, k: nat)
    requires fs.Valid() && nr in fs.inodes && fs.inodes[nr].d == EmptyInode(I_FILE) && fs.sb.Free() >= k
    modifies fs.inodes[nr], fs.sb, fs.sb.dev, fs.sb.dev.blocks, fs.sb.blockFreemap.v
    ensures fs.Valid() && fs.inodes == old(fs.inodes) && forall o | o in fs.inodes && o != nr :: fs.FileKept(o)
    ensures fs.inodes[nr].d.itype == old(fs.inodes[nr].d.itype) && k <= fs.sb.Free() <= k + 2
  {
    hide FileSystem.ValidBut, SameFile, Unmapped, EmptyInode;
    fs.Idle();
    EmptyUnmapped(fs.sb.dev.blocks[..], I_FILE);
    fs.Members();
    AtMost(fs.sb);
    var free, j := fs.sb.dsb.maxFsBlocks - fs.sb.dsb.usedBlockCount, 0;
    ghost var dev0 := fs.sb.dev.blocks[..];
    while free > k + 2
      invariant fs.inodes == old(fs.inodes) && fs.inodes[nr].d.itype == old(fs.inodes[nr].d.itype)
      invariant fs.Valid() && free == fs.sb.Free() >= k
      invariant forall o | o in fs.inodes && o != nr :: fs.FileKept(o)
      invariant |fs.inodes[nr].d.direct| == NR_DIRECT_BLOCKS && Unmapped(fs.sb.dev.blocks[..], fs.inodes[nr].d, j)
      invariant j + free <= old(fs.sb.Free()) <= NR_BLOCK_BITS
      decreases free
    {
      ghost var dev1 := fs.sb.dev.blocks[..];
      TakeBlock(fs, nr, j);
      forall o | o in fs.inodes && o != nr ensures SameFile(dev0, fs.sb.dev.blocks[..], fs.inodes[o].d) {
        SameFileTwice(dev0, dev1, fs.sb.dev.blocks[..], fs.inodes[o].d);
      }
      free, j := fs.sb.dsb.maxFsBlocks - fs.sb.dsb.usedBlockCount, j + 1;
    }
  }

  lemma AtMost(sb: SuperBlock)
    requires sb.Valid()
    ensures sb.Free() <= NR_BLOCK_BITS < MAX_FILE_BLOCKS
  {
  }

  /** An empty file takes up those one or two. */
  method TakeFew(fs: FileSystem, nr: nat, k: nat)
    requires fs.Valid() && nr in fs.inodes && fs.inodes[nr].d == EmptyInode(I_FILE) && k <= fs.sb.Free() <= k + 2
    modifies fs.inodes[nr], fs.sb, fs.sb.dev, fs.sb.dev.blocks, fs.sb.blockFreemap.v
    ensures fs.Valid() && fs.inodes == old(fs.inodes) && forall o | o in fs.inodes && o != nr :: fs.FileKept(o)
    ensures fs.inodes[nr].d.itype == old(fs.inodes[nr].d.itype) && fs.sb.Free() == k
  {
    hide FileSystem.ValidBut, SameFile, Unmapped, EmptyInode;
    fs.Idle();
    EmptyUnmapped(fs.sb.dev.blocks[..], I_FILE);
    var free, j := fs.sb.dsb.maxFsBlocks - fs.sb.dsb.usedBlockCount, 0;
    ghost var dev0 := fs.sb.dev.blocks[..];
    while free > k
      invariant fs.inodes == old(fs.inodes) && fs.inodes[nr].d.itype == old(fs.inodes[nr].d.itype)
      invariant fs.Valid() && free == fs.sb.Free() >= k && j + free <= k + 2
      invariant forall o | o in fs.inodes && o != nr :: fs.FileKept(o)
      invariant |fs.inodes[nr].d.direct| == NR_DIRECT_BLOCKS && Unmapped(fs.sb.dev.blocks[..], fs.inodes[nr].d, j)
      decreases free
    {
      ghost var dev1 := fs.sb.dev.blocks[..];
      TakeBlock(fs, nr, j);
      forall o | o in fs.inodes && o != nr ensures SameFile(dev0, fs.sb.dev.blocks[..], fs.inodes[o].d) {
        SameFileTwice(dev0, dev1, fs.sb.dev.blocks[..], fs.inodes[o].d);
      }
      free, j := fs.sb.dsb.maxFsBlocks - fs.sb.dsb.usedBlockCount, j + 1;
    }
  }

  /** Two empty files take up all blocks but k. */
  method FillUp(fs: FileSystem, nr: nat, other: nat, k: nat)
    requires fs.Valid() && nr in fs.inodes && other in fs.inodes && nr != other && fs.sb.Free() >= k
    requires fs.inodes[nr].d == fs.inodes[other].d == EmptyInode(I_FILE)
    modifies fs.inodes[nr], fs.inodes[other], fs.sb, fs.sb.dev, fs.sb.dev.blocks, fs.sb.blockFreemap.v
    ensures fs.Valid() && fs.inodes == old(fs.inodes) && fs.sb.Free() == k
    ensures forall o | o in fs.inodes :: fs.inodes[o].d.itype == old(fs.inodes[o].d.itype)
    ensures forall o | o in fs.inodes && o != nr && o != other :: fs.FileKept(o)
  {
    hide FileSystem.ValidBut, SameFile, EmptyInode;
    ghost var dev0 := fs.sb.dev.blocks[..];
    TakeMany(fs, nr, k);
    ghost var dev1 := fs.sb.dev.blocks[..];
    TakeFew(fs, other, k);
    forall o | o in fs.inodes && o != nr && o != other ensures SameFile(dev0, fs.sb.dev.blocks[..], fs.inodes[o].d) {
      SameFileTwice(dev0, dev1, fs.sb.dev.blocks[..], fs.inodes[o].d);
    }
  }

  /** Names of one letter each. */
  const A: Name := [97]
  const B: Name := [98]
  const C: Name := [99]

  lemma RootAppendable(name: Name)
    requires |name| <= BLOCK_SIZE - 50 && 0 !in name && name != DOT && name != DOT_DOT
    ensures Appendable(RootLog(), name) && |Bytes(RootLog())| == 21
  {
    WrittenAtEnd([Record(0, DOT)], Record(0, DOT_DOT));
    OneRecord(Record(0, DOT));
    assert [Record(0, DOT)] + [Record(0, DOT_DOT)] == RootLog();
    assert StopFrom(RootLog(), name, 0) == 2 && FindFrom(RootLog(), name, 0) == 2;
  }

  /** The root directory with entries for two files. */
  function TwoFiles(a: nat, b: nat): seq<Record> {
    RootLog() + [Record(a, A)] + [Record(b, B)]
  }

  lemma TwoFilesAppendable(a: nat, b: nat, name: Name)
    requires |name| <= BLOCK_SIZE - 50 && 0 !in name && name != DOT && name != DOT_DOT && name != A && name != B
    ensures Appendable(RootLog(), A) && Appendable(RootLog() + [Record(a, A)], B) && Appendable(TwoFiles(a, b), name)
    ensures |Bytes(TwoFiles(a, b))| == 41
  {
    hide Appendable, Bytes, RootLog;
    RootAppendable(A);
    RootAppendable(B);
    RootAppendable(name);
    StillAppendable(RootLog(), a, A, B);
    StillAppendable(RootLog(), a, A, name);
    var one := RootLog() + [Record(a, A)];
    WrittenAtEnd(RootLog(), Record(a, A));
    StillAppendable(one, b, B, name);
    WrittenAtEnd(one, Record(b, B));
  }

  /** The root directory with entries for three files. */
  function ThreeFiles(name: Name): seq<Record> {
    TwoFiles(1, 2) + [Record(3, name)]
  }

  /** A file system with three empty files in its root directory. */
  method SmallVolume(maxFsBlocks: nat, name: Name) returns (c: Catalog)
    requires MIN_BLOCKS <= maxFsBlocks <= NR_BLOCK_BITS
    requires |name| <= BLOCK_SIZE - 50 && 0 !in name && name != DOT && name != DOT_DOT && name != A && name != B
    ensures c.Valid() && c.Lasts(0) && c.fs.sb.Free() == maxFsBlocks - 1
    ensures fresh(c) && fresh(c.fs) && fresh(c.fs.sb.Repr()) && (forall o | o in c.fs.inodes :: fresh(c.fs.inodes[o]))
    ensures c.fs.inodes.Keys == Numbers(4) && c.logs == map[0 := ThreeFiles(name)]
    ensures c.fs.inodes[1].d == c.fs.inodes[2].d == c.fs.inodes[3].d == EmptyInode(I_FILE)
  {
    hide Catalog.ValidBut, SameFile, Appendable, Removable, EmptyInode, RootLog, Bytes;
    c := NewVolume(maxFsBlocks);
    TwoFilesAppendable(1, 2, name);
    NewFile(c, A, 1, RootLog());
    NewFile(c, B, 2, RootLog() + [Record(1, A)]);
    NewFile(c, name, 3, TwoFiles(1, 2));
    forall o | o in c.fs.inodes ensures fresh(c.fs.inodes[o]) {
      assert o in Numbers(4) && (o == 0 || o == 1 || o == 2 || o == 3);
    }
  }

  /** A file system full but for k blocks, with an empty file in its root directory and two large ones. */
  method FullVolume(maxFsBlocks: nat, name: Name, k: nat) returns (c: Catalog)
    requires MIN_BLOCKS <= maxFsBlocks <= NR_BLOCK_BITS && k < MIN_BLOCKS
    requires |name| <= BLOCK_SIZE - 50 && 0 !in name && name != DOT && name != DOT_DOT && name != A && name != B
    ensures c.Valid() && c.fs.Valid() && c.Lasts(0) && c.fs.sb.Free() == k
    ensures fresh(c) && fresh(c.fs) && fresh(c.fs.sb.Repr()) && (forall o | o in c.fs.inodes :: fresh(c.fs.inodes[o]))
    ensures c.fs.inodes.Keys == Numbers(4) && c.logs == map[0 := ThreeFiles(name)]
    ensures c.fs.inodes[3].d == EmptyInode(I_FILE)
  {
    hide Catalog.ValidBut, FileSystem.ValidBut, SameFile, Removable, EmptyInode, ThreeFiles;
    c := SmallVolume(maxFsBlocks, name);
    c.Below();
    ghost var dev0 := c.fs.sb.dev.blocks[..];
    label Full:
    FillUp(c.fs, 1, 2, k);
    c.DirsKept@Full();
    RemovableKept(dev0, c.fs.sb.dev.blocks[..], c.fs.inodes[0].d);
  }

  // ---------- what goes wrong ----------

  /** With one block free, a write below the double-indirect table takes the block for the table, gives it
      back and keeps its number: the inode is not well formed any more. */
  method Stranded(maxFsBlocks: nat) returns (fs: FileSystem, ret: int)
    requires MIN_BLOCKS <= maxFsBlocks <= NR_BLOCK_BITS
    ensures ret == -ENOSPC && !fs.Valid()
  {
    hide FileSystem.ValidBut, Catalog.ValidBut, SuperBlock.Valid, EmptyInode, WriteEnds, FileSystem.FileKept, Unstarted,
         FileSystem.OthersKept, ThreeFiles, Inode.Valid, Owns, Populated;
    var c := FullVolume(maxFsBlocks, C, 1);
    fs := c.fs;
    ghost var leak;
    fs.Members();
    ghost var z := fs.inodes[3].Now();
    ret, leak := fs.WriteFile(3, [1], FIRST_DOUBLE * BLOCK_SIZE);
    StrandedBy(z, fs.inodes[3].Now(), fs.Valid(), ret, leak);
  }

  lemma StrandedBy(z: Snap, w: Snap, wellFormed: bool, ret: int, leak: Block)
    requires z.d == EmptyInode(I_FILE) && z.free == 1
    requires |z.d.direct| == NR_DIRECT_BLOCKS && WriteEnds(z, w, wellFormed, FIRST_DOUBLE * BLOCK_SIZE, [1], ret, leak)
    ensures !wellFormed && ret == -ENOSPC
  {
    NeedsThree(z.dev, I_FILE);
    hide EmptyInode, StepNeeds, Wrote, WriteOutcome, StoppedAt;
    assert LastBlock(FIRST_DOUBLE * BLOCK_SIZE, 1) == FIRST_DOUBLE;
  }

  lemma NeedsThree(dev: seq<Block>, itype: int)
    ensures |EmptyInode(itype).direct| == NR_DIRECT_BLOCKS
    ensures StepNeeds(dev, EmptyInode(itype), FIRST_DOUBLE, FIRST_DOUBLE) == 3
  {
    EmptyPtr(dev, itype);
    hide Ptr, EmptyInode;
    assert GroupOf(FIRST_DOUBLE) == 0;
  }

  /** With one block free, a write at the start of an empty file gets as far as its first block. */
  lemma OneBlock(dev: seq<Block>, n1: nat)
    ensures |EmptyInode(I_FILE).direct| == NR_DIRECT_BLOCKS && Reach(dev, EmptyInode(I_FILE), 1, 0, 0, n1) == (1, 0)
  {
    EmptyPtr(dev, I_FILE);
    hide Ptr, EmptyInode;
    assert StepNeeds(dev, EmptyInode(I_FILE), 0, 0) == 1 && StepNeeds(dev, EmptyInode(I_FILE), 0, 1) == 1;
    assert Reach(dev, EmptyInode(I_FILE), 0, 0, 1, n1) == (1, 0);
  }

  lemma WriteToFull(z: Snap, w: Snap, wellFormed: bool, buf: seq<byte>, ret: int, leak: Block)
    requires z.d == EmptyInode(I_FILE) && z.free == 1 && |buf| <= 3 * BLOCK_SIZE
    requires |z.d.direct| == NR_DIRECT_BLOCKS && WriteEnds(z, w, wellFormed, 0, buf, ret, leak)
    ensures wellFormed && |w.d.direct| == NR_DIRECT_BLOCKS && (Removable(w.dev, w.d) <==> 0 < |buf| <= BLOCK_SIZE)
    ensures ret == if |buf| <= BLOCK_SIZE then |buf| else -ENOSPC
  {
    EmptyPtr(z.dev, I_FILE);
    EmptySound(z.dev, I_FILE);
    OneBlock(z.dev, LastBlock(0, |buf|));
    hide Wrote, Removable, ZeroTail, Reach, Ptr, Leaked, Harmless, NothingShows, FileOf, Spliced, EmptyInode;
  }

  /** A write to an empty file when one block is free, and the removal of the file. */
  method WriteAndRemove(maxFsBlocks: nat, buf: seq<byte>) returns (ret: int, removed: bool)
    requires MIN_BLOCKS <= maxFsBlocks <= NR_BLOCK_BITS && |buf| <= 3 * BLOCK_SIZE
    ensures ret == if |buf| <= BLOCK_SIZE then |buf| else -ENOSPC
    ensures removed <==> 0 < |buf| <= BLOCK_SIZE
  {
    hide FileSystem.ValidBut, Catalog.ValidBut, SuperBlock.Valid, EmptyInode, WriteEnds, Removable, ThreeFiles,
         FileSystem.FileKept, Unstarted, FileSystem.OthersKept, FileSystem.Intact, Inode.Valid, Owns, Populated;
    var c := FullVolume(maxFsBlocks, C, 1);
    var fs := c.fs;
    ghost var leak;
    fs.Members();
    ghost var z := fs.inodes[3].Now();
    ret, leak := fs.WriteFile(3, buf, 0);
    WriteToFull(z, fs.inodes[3].Now(), fs.Valid(), buf, ret, leak);
    removed := fs.RemoveInode(3);
  }

  /** A write of no bytes to an empty file maps a block that the removal does not give back. */
  method EmptyWrite(maxFsBlocks: nat) returns (ret: int, removed: bool)
    requires MIN_BLOCKS <= maxFsBlocks <= NR_BLOCK_BITS
    ensures ret == 0 && !removed
  {
    ret, removed := WriteAndRemove(maxFsBlocks, []);
  }

  /** So does a write of three blocks when there is room for one. */
  method ShortWrite(maxFsBlocks: nat) returns (ret: int, removed: bool)
    requires MIN_BLOCKS <= maxFsBlocks <= NR_BLOCK_BITS
    ensures ret == -ENOSPC && !removed
  {
    ret, removed := WriteAndRemove(maxFsBlocks, seq(2 * BLOCK_SIZE + 1, _ => 1 as byte));
  }

  /** A write of two blocks when there is room for one sets i_size to the maximum; the removal then takes
      block 0 for the double-indirect table that the file does not have. */
  method MaxSize(maxFsBlocks: nat) returns (ret: int, removed: bool)
    requires MIN_BLOCKS <= maxFsBlocks <= NR_BLOCK_BITS
    ensures ret == -ENOSPC && !removed
  {
    ret, removed := WriteAndRemove(maxFsBlocks, seq(BLOCK_SIZE + 1, _ => 1 as byte));
  }

  /** What the first block of group 0 adds to an empty file. */
  lemma FirstGroup(z: Snap, dev: seq<Block>, d: DInode, own: map<int, Role>, itype: int)
    requires z.d == EmptyInode(itype) && Progress(z, dev, d, own, FIRST_DOUBLE, FIRST_DOUBLE + 1)
    ensures |d.direct| == NR_DIRECT_BLOCKS && |dev| == NR_BLOCKS && 0 < d.dindirect < NR_BLOCKS
    ensures Ptr(dev, d, Sec(0)) != 0 && Ptr(dev, d, Sec(1)) == 0
  {
    EmptyPtr(z.dev, itype);
    Roots(dev, d, own);
    hide Ptr, Owns, Populated, EmptyInode;
    assert ValidRole(Sec(0)) && ValidRole(Sec(1));
    assert MeetsGroup(FIRST_DOUBLE, FIRST_DOUBLE + 1, 0) && !MeetsGroup(FIRST_DOUBLE, FIRST_DOUBLE + 1, 1);
  }

  lemma NeedsTwo(dev: seq<Block>, d: DInode)
    requires |d.direct| == NR_DIRECT_BLOCKS && d.dindirect != 0 && Ptr(dev, d, Sec(1)) == 0
    ensures GroupStart(1) < MAX_FILE_BLOCKS && StepNeeds(dev, d, GroupStart(1), GroupStart(1)) == 2
  {
    GroupOneHole(dev, d);
    hide Ptr;
    assert GroupOf(GroupStart(1)) == 1;
  }

  /** Two bytes written far apart in an empty file: another byte comes to read as part of a table. */
  method LeakedTable(maxFsBlocks: nat) returns (fs: FileSystem, ghost k: nat)
    requires MIN_BLOCKS <= maxFsBlocks <= NR_BLOCK_BITS
    ensures fs.Valid() && 3 in fs.inodes && fs.inodes[3].sb == fs.sb
    ensures |fs.inodes[3].d.direct| == NR_DIRECT_BLOCKS && k < fs.inodes[3].d.size
    ensures k != FIRST_DOUBLE * BLOCK_SIZE && k != GroupStart(1) * BLOCK_SIZE + 100 && fs.Content(3)[k] != 0
  {
    hide FileSystem.ValidBut, Catalog.ValidBut, SuperBlock.Valid, SuperBlock.Used, EmptyInode, Ptr, Progress, StepNeeds,
         Populated, Owns, ByteAt, Expected, FileSystem.FileKept, ThreeFiles, Inode.Valid;
    ghost var leak;
    var c := FullVolume(maxFsBlocks, C, 10);
    fs := c.fs;
    fs.Members();
    ghost var z := fs.inodes[3].Now();
    NeedsThree(z.dev, I_FILE);
    leak := OneByte(fs, 3, FIRST_DOUBLE * BLOCK_SIZE);
    ghost var y := fs.inodes[3].Now();
    FirstGroup(z, y.dev, y.d, y.own, I_FILE);
    NeedsTwo(y.dev, y.d);
    leak := OneByte(fs, 3, GroupStart(1) * BLOCK_SIZE + 100);
    k := LeakedByte(y, fs.sb.dev.blocks[..], fs.inodes[3].d, fs.inodes[3].own, 1, leak);
  }

  /** A name that brings the root directory to two bytes from the end of its block. */
  function LongName(): Name {
    seq(BLOCK_SIZE - 52, _ => 97)
  }

  lemma LongLog()
    ensures |LongName()| == BLOCK_SIZE - 52 && LongName() != C
    ensures Absent(ThreeFiles(LongName()), C) && |Bytes(ThreeFiles(LongName()))| == BLOCK_SIZE - 2
  {
    hide Bytes, Absent, Appendable, RootLog;
    TwoFilesAppendable(1, 2, LongName());
    TwoFilesAppendable(1, 2, C);
    WrittenAtEnd(TwoFiles(1, 2), Record(3, LongName()));
    AppendableAbsent(TwoFiles(1, 2), C);
    StillAbsent(TwoFiles(1, 2), 3, LongName(), C);
  }

  lemma AppendableAbsent(log: seq<Record>, name: Name)
    requires Appendable(log, name)
    ensures Absent(log, name)
  {
  }

  /** With no block free, an entry of ten bytes breaks such a directory. */
  lemma FullBreaks(z: Snap)
    requires |z.d.direct| == NR_DIRECT_BLOCKS && Dense(z.dev, z.d) && z.d.size == BLOCK_SIZE - 2 && z.free == 0
    requires Removable(z.dev, z.d)
    ensures Breaks(z, HEADER + 2) && !Dangles(z, HEADER + 2) && !Fits(z, HEADER + 2)
    ensures AppendError(z, HEADER + 2) == -ENOSPC
  {
    BreaksIff(z, HEADER + 2);
    assert Ptr(z.dev, z.d, DataRole(1)) == 0;
    hide Ptr, DataRole, Dense, Removable, Reach;
    assert LastBlock(z.d.size, HEADER + 2) == 1;
  }

  /** In a full file system whose root directory ends two bytes before the end of its block a file is created:
      there is no room for its entry, and the directory is broken. */
  method BrokenDirectory(maxFsBlocks: nat) returns (c: Catalog, ret: int)
    requires MIN_BLOCKS <= maxFsBlocks <= NR_BLOCK_BITS
    ensures ret == -ENOSPC && !c.Valid() && c.ValidBut({0})
  {
    hide FileSystem.ValidBut, Catalog.ValidBut, IsDir, ThreeFiles, LongName, Bytes, NumberOf, StopFrom, Breaks,
         Dangles, Fits, Stop, Catalog.At, Dense, Removable, SameFile, FileOf, FileSystem.FileKept;
    LongLog();
    LongValid();
    c := FullVolume(maxFsBlocks, LongName(), 0);
    c.Opened(0);
    FullBreaks(c.At(0));
    assert 4 !in c.fs.inodes.Keys;
    ghost var nr;
    ret, nr := c.Create(0, C, false);
  }

  lemma LongValid()
    ensures 0 !in LongName() && LongName() != DOT && LongName() != DOT_DOT && LongName() != A && LongName() != B
  {
    assert |LongName()| == BLOCK_SIZE - 52;
  }

  /** What testfs_next_dirent is to read at offset o: a length and a number, and the length behind that record. */
  predicate LengthsAt(f: File, o: nat, len: nat, nr: int, next: int) {
    && o + HEADER + len + 4 <= |f|
    && Value(f[o..o + 4]) == len && Value(f[o + 4..o + HEADER]) == nr
    && Value(f[o + HEADER + len..o + HEADER + len + 4]) == next
  }

  lemma BrokenEntry(z: Snap, w: Snap, log: seq<Record>, after: seq<Record>, nr: nat, ret: int, valid: bool)
    requires |z.d.direct| == NR_DIRECT_BLOCKS && z.d.size == BLOCK_SIZE - 2
    requires RecordEnds(z, w, log, after, |log|, Record(nr, C), ret, valid)
    requires Breaks(z, HEADER + 2) && !Dangles(z, HEADER + 2) && !Fits(z, HEADER + 2)
    requires AppendError(z, HEADER + 2) == -ENOSPC
    ensures ret == -ENOSPC && |w.d.direct| == NR_DIRECT_BLOCKS && w.d.size == MAX_FILE_SIZE
    ensures LengthsAt(FileOf(w.dev, w.d), BLOCK_SIZE - 2, 2, 0, 0)
  {
    hide Breaks, Dangles, Fits, AppendError, FileOf, Value;
    assert |Encoded(Record(nr, C))| == HEADER + 2;
    BrokenScan(z, w, Record(nr, C));
    hide Encoded;
    assert |FileOf(w.dev, w.d)| == w.d.size;
  }

  /** What the next scan of the directory meets is a live record with number 0, and then a length of 0, for which
      the assert of fs/dir.c:31 fails. */
  method BrokenScanned(maxFsBlocks: nat) returns (c: Catalog, ret: int)
    requires MIN_BLOCKS <= maxFsBlocks <= NR_BLOCK_BITS
    ensures ret == -ENOSPC && 0 in c.fs.inodes && c.fs.inodes[0].sb == c.fs.sb
    ensures |c.fs.inodes[0].d.direct| == NR_DIRECT_BLOCKS && c.fs.inodes[0].d.size == MAX_FILE_SIZE
    ensures LengthsAt(c.fs.Content(0), BLOCK_SIZE - 2, 2, 0, 0)
  {
    hide FileSystem.ValidBut, Catalog.ValidBut, IsDir, ThreeFiles, LongName, Bytes, NumberOf, StopFrom, Breaks,
         Dangles, Fits, Stop, Catalog.At, Dense, SameFile, FileOf, RecordEnds, Removable, AppendError, Unstarted,
         EmptyInode, LengthsAt;
    LongLog();
    LongValid();
    c := FullVolume(maxFsBlocks, LongName(), 0);
    assert 4 !in c.fs.inodes.Keys;
    ghost var dev0 := c.fs.sb.dev.blocks[..];
    var nr := c.NewInode(false);
    c.Opened(0);
    ghost var z, log := c.At(0), c.logs[0];
    RemovableKept(dev0, z.dev, z.d);
    FullBreaks(z);
    ret := c.AddDirent(0, C, nr);
    BrokenEntry(z, c.fs.inodes[0].Now(), log, c.logs[0], nr, ret, c.Valid());
  }
}
