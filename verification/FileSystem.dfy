/** All the inodes of a file system over one device and one allocator. The in-memory copy of every
    live inode stands for the inode (fs/inode.c keeps it in step with its slot on the device). */
module FileSystems {
  import opened Common
  import opened Bitmaps
  import opened SuperBlocks
  import opened BlockMap
  import opened FileData
  import opened Release
  import opened ReadWrite
  import opened FileSpec

  const INODES_PER_BLOCK := BLOCK_SIZE / 64

  /** The map of an inode leads to the same blocks on both devices. */
  ghost predicate SameMap(dev: seq<Block>, dev': seq<Block>, d: DInode)
    requires |d.direct| == NR_DIRECT_BLOCKS
  {
    forall r | ValidRole(r) :: Ptr(dev', d, r) == Ptr(dev, d, r)
  }

  /** The file is the same on both devices: its map, its contents, and what a removal and later writes meet. */
  ghost predicate SameFile(dev: seq<Block>, dev': seq<Block>, d: DInode) {
    && |d.direct| == NR_DIRECT_BLOCKS && 0 <= d.size <= MAX_FILE_SIZE && SameMap(dev, dev', d)
    && FileOf(dev', d) == FileOf(dev, d)
    && (Removable(dev, d) <==> Removable(dev', d)) && (ZeroTail(dev, d) <==> ZeroTail(dev', d))
  }

  lemma SameFileTwice(a: seq<Block>, b: seq<Block>, c: seq<Block>, d: DInode)
    requires SameFile(a, b, d) && SameFile(b, c, d)
    ensures SameFile(a, c, d)
  {
    hide Ptr, FileOf, Removable, ZeroTail;
  }

  /** The blocks of an inode are the same on both devices. */
  ghost predicate SameBlocks(dev: seq<Block>, dev': seq<Block>, own: map<int, Role>) {
    |dev'| == |dev| == NR_BLOCKS && forall p | p in own && 0 <= p < |dev| :: dev'[p] == dev[p]
  }

  lemma SameBlocksTwice(a: seq<Block>, b: seq<Block>, c: seq<Block>, own: map<int, Role>)
    requires SameBlocks(a, b, own) && |c| == NR_BLOCKS && forall p | p in own :: p >= INODE_BLOCKS_START
    requires forall b' | INODE_BLOCKS_START <= b' < NR_BLOCKS :: c[b'] == b[b']
    ensures SameBlocks(a, c, own)
  {
  }

  /** The map of a file depends on the blocks it owns and on no other. */
  lemma MapFrame(dev: seq<Block>, dev': seq<Block>, d: DInode, own: map<int, Role>)
    requires Owns(dev, d, own) && Populated(dev, d) && |dev'| == |dev|
    requires forall p | p in own && 0 <= p < |dev| :: dev'[p] == dev[p]
    ensures |d.direct| == NR_DIRECT_BLOCKS && Owns(dev', d, own) && Populated(dev', d)
    ensures SameMap(dev, dev', d) && (Removable(dev, d) <==> Removable(dev', d))
  {
    Roots(dev, d, own);
    InodeFrame(dev, dev', d, own);
    OwnsFrame(dev, dev', d, own);
    hide Ptr, Owns, Populated;
    forall m: nat | m < MAX_FILE_BLOCKS ensures Ptr(dev', d, DataRole(m)) == Ptr(dev, d, DataRole(m)) {
    }
  }

  /** So do its bytes. */
  lemma ByteFrame(dev: seq<Block>, dev': seq<Block>, d: DInode, own: map<int, Role>, k: nat)
    requires Owns(dev, d, own) && Populated(dev, d) && |dev'| == |dev|
    requires forall p | p in own && 0 <= p < |dev| :: dev'[p] == dev[p]
    ensures |d.direct| == NR_DIRECT_BLOCKS && ByteAt(dev', d, k) == ByteAt(dev, d, k)
  {
    Roots(dev, d, own);
    OwnsFrame(dev, dev', d, own);
    if k / BLOCK_SIZE < MAX_FILE_BLOCKS {
      OwnsPtr(dev, d, own, DataRole(k / BLOCK_SIZE));
      PtrRange(dev, d, own, DataRole(k / BLOCK_SIZE));
    }
  }

  lemma FileFrame(dev: seq<Block>, dev': seq<Block>, d: DInode, own: map<int, Role>)
    requires Owns(dev, d, own) && Populated(dev, d) && 0 <= d.size <= MAX_FILE_SIZE && |dev'| == |dev|
    requires forall p | p in own && 0 <= p < |dev| :: dev'[p] == dev[p]
    ensures |d.direct| == NR_DIRECT_BLOCKS && Owns(dev', d, own) && Populated(dev', d)
    ensures SameFile(dev, dev', d)
  {
    hide Owns, Populated, ByteAt, Removable, SameMap;
    MapFrame(dev, dev', d, own);
    forall k: nat ensures ByteAt(dev', d, k) == ByteAt(dev, d, k) {
      ByteFrame(dev, dev', d, own, k);
    }
    assert FileOf(dev', d) == FileOf(dev, d);
  }

  /** Inode.WriteData, and what it means for the file. */
  method WriteInode(ino: Inode, buf: seq<byte>, start: nat) returns (ret: int, ghost leak: Block)
    requires ino.Valid() && |buf| <= INT_MAX
    modifies ino, ino.sb, ino.sb.dev, ino.sb.dev.blocks, ino.sb.blockFreemap.v
    ensures ino.sb.Valid() && ino.Foreign() == old(ino.Foreign()) && Framed(old(ino.Now()), ino.Dev())
    ensures ino.own.Keys <= ino.sb.Used() && ino.d.itype == old(ino.d.itype) && |old(ino.d).direct| == NR_DIRECT_BLOCKS
    ensures WriteEnds(old(ino.Now()), ino.Now(), ino.Valid(), start, buf, ret, leak)
    ensures ret < 0 && ino.Valid() && Unstarted(old(ino.Now()), start, |buf|) ==>
              && ino.d == old(ino.d) && ino.own == old(ino.own)
              && forall b | b in ino.own :: ino.Dev()[b] == old(ino.Dev())[b]
  {
    hide Owns, Populated, SuperBlock.Valid, SuperBlock.Used, Bitmap.Valid, Wrote, Reach, StrandsAt, Leaked, WriteEnds;
    ghost var z := ino.Now();
    ret, leak := ino.WriteData(buf, start);
    if ino.Valid() {
      Roots(ino.Dev(), ino.d, ino.own);
    }
    WriteEnded(z, ino.Now(), ino.Valid(), start, buf, ret, leak);
  }

  class FileSystem {
    const sb: SuperBlock
    var inodes: map<nat, Inode>

    /** Every block in use belongs to exactly one inode, and to one place in it. */
    ghost predicate Valid()
      reads this, inodes.Values, sb.Repr()
    {
      ValidBut({})
    }

    /** The same, but for the maps of the broken inodes. */
    ghost predicate ValidBut(broken: set<nat>)
      reads this, inodes.Values, sb.Repr()
    {
      && sb.Valid()
      && inodes.Keys == sb.inodeFreemap.Bits()
      && (forall nr | nr in inodes ::
            inodes[nr].sb == sb && inodes[nr].nr == nr && (nr in broken || inodes[nr].Valid()))
      && Partition(Owners(), sb.Used())
    }

    /** Which inode owns which blocks, and where in it they hang. */
    ghost function Owners(): map<nat, set<int>>
      reads this, inodes.Values
    {
      map nr | nr in inodes :: inodes[nr].own.Keys
    }

    ghost function Content(nr: nat): File
      requires nr in inodes && inodes[nr].sb == sb && |inodes[nr].d.direct| == NR_DIRECT_BLOCKS
      requires inodes[nr].d.size >= 0
      reads this, inodes.Values, sb.dev.blocks
    {
      FileOf(sb.dev.blocks[..], inodes[nr].d)
    }

    /** What successful harmless writes keep: the file can be removed, and the bytes past the end are zero. */
    ghost predicate Sound(nr: nat)
      requires nr in inodes && inodes[nr].sb == sb && |inodes[nr].d.direct| == NR_DIRECT_BLOCKS
      requires 0 <= inodes[nr].d.size <= MAX_FILE_SIZE
      reads this, inodes.Values, sb.dev.blocks
    {
      Removable(sb.dev.blocks[..], inodes[nr].d) && ZeroTail(sb.dev.blocks[..], inodes[nr].d)
    }

    lemma Members()
      requires Valid()
      ensures sb.Valid()
      ensures forall o | o in inodes ::
                && inodes[o].sb == sb && |inodes[o].d.direct| == NR_DIRECT_BLOCKS
                && 0 <= inodes[o].d.size <= MAX_FILE_SIZE
                && Owns(sb.dev.blocks[..], inodes[o].d, inodes[o].own) && Populated(sb.dev.blocks[..], inodes[o].d)
                && inodes[o].own.Keys <= sb.Used()
    {
      hide Owns, Populated, SuperBlock.Valid, SuperBlock.Used, Bitmap.Valid, Partition;
      forall o | o in inodes ensures |inodes[o].d.direct| == NR_DIRECT_BLOCKS {
        Roots(sb.dev.blocks[..], inodes[o].d, inodes[o].own);
      }
    }

    /** mktestfs */
    constructor Mkfs(dev: Device, maxFsBlocks: nat)
      requires dev.blocks.Length == NR_BLOCKS && maxFsBlocks <= NR_BLOCK_BITS
      modifies dev, dev.blocks
      ensures Valid() && inodes == map[] && sb.Free() == maxFsBlocks && sb.dev == dev
      ensures fresh(sb.Repr() - {dev, dev.blocks})
    {
      var s := Make(dev, maxFsBlocks);
      sb := s;
      inodes := map[];
    }

    /** The inodes of rest own the blocks that rest says, and are well formed but for the broken ones. */
    ghost predicate Settled(rest: map<nat, set<int>>, broken: set<nat>)
      reads this, inodes.Values, sb.dev.blocks
    {
      && (forall o | o in rest ::
            o in inodes && inodes[o].sb == sb && inodes[o].nr == o && inodes[o].own.Keys == rest[o])
      && forall o | o in rest && o !in broken :: MapValid(o)
    }

    /** The map of inode o is well formed. */
    ghost predicate MapValid(o: nat)
      requires o in inodes
      reads this, inodes.Values, sb.dev.blocks
    {
      && |inodes[o].d.direct| == NR_DIRECT_BLOCKS && 0 <= inodes[o].d.size <= MAX_FILE_SIZE
      && Owns(sb.dev.blocks[..], inodes[o].d, inodes[o].own) && Populated(sb.dev.blocks[..], inodes[o].d)
    }

    /** Nothing has been done to inode o and its blocks. */
    twostate predicate Intact(o: nat)
      reads this, inodes.Values, sb.Repr()
    {
      && o in inodes && o in old(inodes) && inodes[o] == old(inodes[o])
      && inodes[o].d == old(inodes[o].d) && inodes[o].own == old(inodes[o].own)
      && SameBlocks(old(sb.dev.blocks[..]), sb.dev.blocks[..], inodes[o].own)
    }

    /** The other inodes after an operation on inode nr that keeps its hands off their blocks. */
    twostate predicate OthersKept(nr: nat)
      reads this, inodes.Values, sb.Repr()
    {
      inodes == old(inodes) && forall o | o in inodes && o != nr :: Intact(o)
    }

    /** What is well formed was so before, if nothing has been done to it. */
    twostate lemma NotHealed(o: nat)
      requires sb.Shape() && Intact(o) && inodes[o].sb == sb && inodes[o].Valid()
      requires old(sb.Valid() && inodes[o].own.Keys <= sb.Used())
      ensures old(inodes[o].Valid()) && SameFile(sb.dev.blocks[..], old(sb.dev.blocks[..]), inodes[o].d)
    {
      hide Owns, Populated, SuperBlock.Valid, SuperBlock.Used, SameFile;
      FileFrame(sb.dev.blocks[..], old(sb.dev.blocks[..]), inodes[o].d, inodes[o].own);
    }

    /** The file at inode o is what it was. */
    twostate predicate FileKept(o: nat)
      reads this, inodes.Values, sb.dev.blocks
    {
      && o in inodes && o in old(inodes) && inodes[o] == old(inodes[o]) && inodes[o].sb == sb
      && inodes[o].d == old(inodes[o].d) && SameFile(old(sb.dev.blocks[..]), sb.dev.blocks[..], inodes[o].d)
    }

    twostate lemma OthersSame(apart: set<nat>)
      requires old(ValidBut(apart)) && inodes == old(inodes) && sb.Shape()
      requires forall o | o in inodes && o !in apart :: Intact(o)
      ensures forall o | o in inodes && o !in apart :: FileKept(o) && MapValid(o)
    {
      hide Owns, Populated, SuperBlock.Valid, SuperBlock.Used, SameFile, FileSystem.FileKept, FileSystem.MapValid,
           SameBlocks;
      forall o | o in inodes && o !in apart ensures FileKept(o) && MapValid(o) {
        assert old(inodes[o].Valid());
        InodeSame(o);
      }
    }

    twostate lemma InodeSame(o: nat)
      requires sb.Shape() && Intact(o) && inodes[o].sb == sb && old(inodes[o].Valid())
      ensures FileKept(o) && MapValid(o)
    {
      hide Owns, Populated, SuperBlock.Valid, SuperBlock.Used, SameFile;
      FileFrame(old(sb.dev.blocks[..]), sb.dev.blocks[..], inodes[o].d, inodes[o].own);
    }

    twostate lemma Idle()
      requires old(Valid()) && inodes == old(inodes) && sb.dev.blocks[..] == old(sb.dev.blocks[..])
      requires forall o | o in inodes :: inodes[o].d == old(inodes[o].d)
      ensures forall o | o in inodes :: FileKept(o)
    {
      hide SuperBlock.Valid, SuperBlock.Used, Owns, Populated, Partition, FileOf, Ptr, Removable, ZeroTail;
      forall o | o in inodes ensures FileKept(o) {
        Roots(old(sb.dev.blocks[..]), inodes[o].d, old(inodes[o].own));
      }
    }

    /** The file system is well formed again, or but for inode nr, if the blocks in use that are not nr's are
        the same as before. */
    lemma ValidAgain(nr: nat, owns: map<nat, set<int>>, used0: set<int>)
      requires sb.Valid() && nr in inodes && owns.Keys == inodes.Keys == sb.inodeFreemap.Bits()
      requires Partition(owns, used0)
      requires inodes[nr].sb == sb && inodes[nr].nr == nr && inodes[nr].own.Keys <= sb.Used()
      requires Settled(Without(owns, nr), {})
      requires sb.Used() - inodes[nr].own.Keys == used0 - owns[nr]
      ensures ValidBut({nr}) && (Valid() <==> inodes[nr].Valid())
    {
      hide Owns, Populated, SuperBlock.Valid, SuperBlock.Used, Bitmap.Valid, Bitmap.Bits, Partition, Without;
      assert forall o | o in inodes && o != nr :: o in Without(owns, nr);
      PartitionAgain(owns, used0, nr, inodes[nr].own.Keys, sb.Used());
      assert Owners() == owns[nr := inodes[nr].own.Keys];
      forall o | o in inodes && o != nr ensures inodes[o].own.Keys <= sb.Used() {
        PartitionOwner(Owners(), sb.Used(), o);
      }
    }

    /** cmd_write on a regular file, once its inode is found, and every other use of testfs_write_data. The
        other files keep their contents whatever happens. The file system stays well formed unless the write
        strands a table, and then is so but for this inode. A write that succeeds does exactly what writing to a
        sequence of bytes does if what it shows by mistake is zeros, and only then; one that fails has written
        the blocks up to the one it stopped at. */
    method WriteFile(nr: nat, buf: seq<byte>, start: nat) returns (ret: int, ghost leak: Block)
      requires Valid() && nr in inodes && |buf| <= INT_MAX
      modifies inodes[nr], sb, sb.dev, sb.dev.blocks, sb.blockFreemap.v
      ensures sb.Valid() && inodes == old(inodes) && inodes[nr].sb == sb
      ensures ValidBut({nr}) && OthersKept(nr) && forall o | o in inodes && o != nr :: FileKept(o)
      ensures old(|inodes[nr].d.direct|) == NR_DIRECT_BLOCKS && inodes[nr].d.itype == old(inodes[nr].d.itype)
      ensures WriteEnds(old(inodes[nr].Now()), inodes[nr].Now(), Valid(), start, buf, ret, leak)
      ensures ret < 0 && Valid() && Unstarted(old(inodes[nr].Now()), start, |buf|) ==> FileKept(nr)
    {
      hide SameFile, Owns, Populated, SuperBlock.Valid, SuperBlock.Used, Bitmap.Valid,
           Partition, WriteEnds, Unstarted, FileSystem.FileKept, FileSystem.MapValid, Bitmap.Bits;
      sb.UsedRange();
      ghost var ino := inodes[nr];
      ghost var owns, used := Owners(), sb.Used();
      ret, leak := WriteInode(inodes[nr], buf, start);
      forall o | o in inodes && o != nr ensures inodes[o].own.Keys <= used - owns[nr] {
        PartitionApart(owns, used, o, nr);
      }
      OthersSame({nr});
      ValidAgain(nr, owns, used);
      if ret < 0 && ino.Valid() && Unstarted(old(inodes[nr].Now()), start, |buf|) {
        InodeSame(nr);
      }
    }

    /** What it takes for the file system to be well formed with the blocks in use shared out as owns says. */
    lemma ValidShared(owns: map<nat, set<int>>, broken: set<nat>)
      requires sb.Valid() && owns.Keys == inodes.Keys == sb.inodeFreemap.Bits() && Partition(owns, sb.Used())
      requires forall o | o in inodes ::
                 && inodes[o].sb == sb && inodes[o].nr == o && inodes[o].own.Keys == owns[o]
                 && (o in broken || inodes[o].Valid())
      ensures ValidBut(broken)
    {
      hide Inode.Valid, SuperBlock.Valid, SuperBlock.Used, Bitmap.Valid, Bitmap.Bits, Partition;
      assert Owners() == owns;
    }

    /** Writing freemap blocks and the super block leaves every inode what it was. */
    lemma Unaffected(dev0: seq<Block>, broken: set<nat>)
      requires sb.Valid() && |dev0| == NR_BLOCKS
      requires forall b | INODE_BLOCKS_START <= b < NR_BLOCKS :: sb.dev.blocks[b] == dev0[b]
      requires forall o | o in inodes && o !in broken ::
                 && inodes[o].sb == sb && Owns(dev0, inodes[o].d, inodes[o].own) && Populated(dev0, inodes[o].d)
                 && 0 <= inodes[o].d.size <= MAX_FILE_SIZE && inodes[o].own.Keys <= sb.Used()
      ensures forall o | o in inodes && o !in broken ::
                inodes[o].Valid() && SameFile(dev0, sb.dev.blocks[..], inodes[o].d)
    {
      hide Owns, Populated, SuperBlock.Valid, SuperBlock.Used, Bitmap.Valid, SameFile;
      sb.UsedRange();
      forall o | o in inodes && o !in broken
        ensures inodes[o].Valid() && SameFile(dev0, sb.dev.blocks[..], inodes[o].d)
      {
        FileFrame(dev0, sb.dev.blocks[..], inodes[o].d, inodes[o].own);
      }
    }

    lemma Resettled(owns: map<nat, set<int>>, dev0: seq<Block>, broken: set<nat>)
      requires sb.Valid() && |dev0| == NR_BLOCKS
      requires owns.Keys == inodes.Keys == sb.inodeFreemap.Bits() && Partition(owns, sb.Used())
      requires forall b | INODE_BLOCKS_START <= b < NR_BLOCKS :: sb.dev.blocks[b] == dev0[b]
      requires forall o | o in inodes ::
                 inodes[o].sb == sb && inodes[o].nr == o && inodes[o].own.Keys == owns[o]
      requires forall o | o in inodes && o !in broken ::
                 && Owns(dev0, inodes[o].d, inodes[o].own) && Populated(dev0, inodes[o].d)
                 && 0 <= inodes[o].d.size <= MAX_FILE_SIZE
      ensures ValidBut(broken)
      ensures forall o | o in inodes && o !in broken ::
                SameFile(dev0, sb.dev.blocks[..], inodes[o].d)
    {
      hide Inode.Valid, Owns, Populated, SuperBlock.Valid, SuperBlock.Used, Bitmap.Valid, Bitmap.Bits, Partition,
           SameFile;
      forall o | o in inodes ensures owns[o] <= sb.Used() {
        PartitionOwner(owns, sb.Used(), o);
      }
      Unaffected(dev0, broken);
      ValidShared(owns, broken);
    }

    /** cmd_read on a regular file: the window must lie inside the file. What comes back is the file exactly
        when the table bytes fetched for leaky holes of the window are zeros. */
    method ReadFile(nr: nat, buf: array<byte>, offset: nat, size: nat) returns (ret: int)
      requires Valid() && nr in inodes && size <= INT_MAX && size <= buf.Length && buf !in sb.Repr()
      modifies buf
      ensures Valid() && |inodes[nr].d.direct| == NR_DIRECT_BLOCKS
      ensures ret ==
                if offset + size > inodes[nr].d.size then -EINVAL
                else if offset == MAX_FILE_SIZE then -EFBIG
                else size
      ensures ret < 0 ==> buf[..] == old(buf[..])
      ensures ret >= 0 ==>
                && (forall i | size <= i < buf.Length :: buf[i] == old(buf[i]))
                && (buf[..size] == Content(nr)[offset..offset + size] <==>
                      LeaksZeros(sb.dev.blocks[..], inodes[nr].d, offset, size))
    {
      hide Owns, Populated, SuperBlock.Valid, SuperBlock.Used, Bitmap.Valid, Partition, FetchedAt, Fetched, LeaksZeros,
           FileOf;
      assert inodes[nr].Valid();
      Roots(sb.dev.blocks[..], inodes[nr].d, inodes[nr].own);
      if offset + size > inodes[nr].d.size {
        return -EINVAL;
      }
      ret := inodes[nr].ReadData(buf, offset, size);
      if ret >= 0 {
        ReadBack(sb.dev.blocks[..], inodes[nr].d, offset, buf[..size]);
      }
    }

    /** testfs_create_inode, lines 202-209: an inode number that has a slot on the device. */
    method InodeNumber() returns (ret: int)
      requires Valid()
      modifies sb, sb.dev, sb.dev.blocks, sb.inodeFreemap.v
      ensures sb.Valid() && sb.Used() == old(sb.Used()) && sb.Free() == old(sb.Free())
      ensures forall b | INODE_BLOCKS_START <= b < NR_BLOCKS :: sb.dev.blocks[b] == old(sb.dev.blocks[b])
      ensures ret < 0 ==> ret == -ENOSPC && sb.inodeFreemap.Bits() == old(sb.inodeFreemap.Bits())
      ensures ret < 0 ==> forall i: nat | i < NR_INODE_BLOCKS * INODES_PER_BLOCK :: i in old(sb.inodeFreemap.Bits())
      ensures ret >= 0 ==>
                && ret !in old(sb.inodeFreemap.Bits()) && ret < NR_INODE_BLOCKS * INODES_PER_BLOCK
                && (forall i: nat | i < ret :: i in old(sb.inodeFreemap.Bits()))
                && sb.inodeFreemap.Bits() == old(sb.inodeFreemap.Bits()) + {ret}
    {
      hide SuperBlock.Valid, SuperBlock.Used, Bitmap.Valid, Bitmap.Bits, Partition, Inode.Valid;
      assert this !in sb.Repr();
      ghost var bits := sb.inodeFreemap.Bits();
      ret := sb.GetInodeFreemap();
      if ret >= 0 && ret / INODES_PER_BLOCK >= NR_INODE_BLOCKS {
        sb.PutInodeFreemap(ret);
        assert bits + {ret as nat} - {ret} == bits;
        ret := -ENOSPC;
      }
    }

    /** The rest of testfs_create_inode: an empty inode is filed under its number. */
    method FileInode(nr: nat, itype: int, ghost owns: map<nat, set<int>>)
      requires sb.Valid() && nr !in inodes && sb.inodeFreemap.Bits() == inodes.Keys + {nr}
      requires owns.Keys == inodes.Keys && Partition(owns, sb.Used())
      requires forall o | o in inodes ::
                 inodes[o].sb == sb && inodes[o].nr == o && inodes[o].Valid() && inodes[o].own.Keys == owns[o]
      modifies this`inodes
      ensures Valid() && nr in inodes && inodes == old(inodes)[nr := inodes[nr]] && fresh(inodes[nr])
      ensures inodes[nr].d == EmptyInode(itype) && Content(nr) == [] && Sound(nr)
    {
      hide Inode.Valid, Owns, Populated, SuperBlock.Valid, SuperBlock.Used, Bitmap.Valid, Bitmap.Bits, Partition,
           FileOf, Removable, ZeroTail;
      assert this !in sb.Repr();
      var ino := new Inode(sb, nr, itype);
      assert ino.own.Keys == {};
      inodes := inodes[nr := ino];
      EmptySound(sb.dev.blocks[..], itype);
      PartitionNew(owns, sb.Used(), nr);
      ValidShared(owns[nr := {}], {});
    }

    /** testfs_create_inode: the least free inode number, with an empty file behind it. */
    method CreateInode(itype: int) returns (ret: int)
      requires Valid()
      modifies this`inodes, sb, sb.dev, sb.dev.blocks, sb.inodeFreemap.v
      ensures Valid() && sb.Used() == old(sb.Used()) && sb.Free() == old(sb.Free())
      ensures ret < 0 ==> ret == -ENOSPC && inodes == old(inodes)
      ensures ret < 0 <==> forall i: nat | i < NR_INODE_BLOCKS * INODES_PER_BLOCK :: i in old(inodes)
      ensures ret >= 0 ==>
                && ret !in old(inodes) && (forall i: nat | i < ret :: i in old(inodes))
                && ret < NR_INODE_BLOCKS * INODES_PER_BLOCK
                && inodes.Keys == old(inodes).Keys + {ret} && fresh(inodes[ret])
                && inodes[ret].d == EmptyInode(itype) && Content(ret) == [] && Sound(ret)
      ensures forall o | o in old(inodes) :: FileKept(o)
    {
      hide Inode.Valid, Owns, Populated, SuperBlock.Valid, SuperBlock.Used, Bitmap.Valid, Bitmap.Bits, Partition,
           FileOf, Removable, ZeroTail;
      ghost var owns, dev0 := Owners(), sb.dev.blocks[..];
      Members();
      assert this !in sb.Repr();
      ret := InodeNumber();
      Unaffected(dev0, {});
      if ret < 0 {
        ValidShared(owns, {});
      } else {
        FileInode(ret, itype, owns);
      }
    }

    /** testfs_remove_inode up to the assert that block_count is 0: whether it and the asserts before it
        hold; if they do, the blocks of the file, and no others, are free again. */
    method FreeFile(nr: nat, ghost broken: set<nat>) returns (ok: bool)
      requires ValidBut(broken) && nr in inodes && nr !in broken
      modifies inodes[nr], sb, sb.dev, sb.dev.blocks, sb.blockFreemap.v
      ensures old(|inodes[nr].d.direct|) == NR_DIRECT_BLOCKS
      ensures ok <==> old(Removable(sb.dev.blocks[..], inodes[nr].d))
      ensures sb.Valid() && inodes == old(inodes)
      ensures ok ==>
                && OthersKept(nr) && sb.inodeFreemap.Bits() == old(sb.inodeFreemap.Bits())
                && inodes[nr].d.blockCount == 0
                && sb.Used() == old(sb.Used() - inodes[nr].own.Keys)
                && sb.Free() == old(sb.Free() + inodes[nr].d.blockCount)
    {
      hide Owns, Populated, SuperBlock.Valid, SuperBlock.Used, Bitmap.Valid, Bitmap.Bits, Partition, Removable;
      ghost var owns, used, dev0 := Owners(), sb.Used(), sb.dev.blocks[..];
      var ino := inodes[nr];
      assert ino.Valid();
      CountOwned(dev0, ino.d, ino.own);
      sb.UsedRange();
      ok := ino.FreeBlocks();
      ok := ok && ino.d.blockCount == 0;
      assert ino !in sb.Repr();
      ino.dirty := true;
      if ok {
        forall o | o in inodes && o != nr ensures inodes[o].own.Keys <= used - owns[nr] {
          PartitionApart(owns, used, o, nr);
        }
      }
    }

    /** Once the number of an inode that owns nothing is back, the others are what they were. */
    twostate lemma Dropped(broken: set<nat>)
      requires sb.Valid() && old(|sb.dev.blocks[..]|) == NR_BLOCKS
      requires inodes.Keys == sb.inodeFreemap.Bits() && Partition(Owners(), sb.Used())
      requires forall b | INODE_BLOCKS_START <= b < NR_BLOCKS :: sb.dev.blocks[b] == old(sb.dev.blocks[b])
      requires forall o | o in inodes ::
                 && o in old(inodes) && inodes[o] == old(inodes[o]) && unchanged(inodes[o])
                 && inodes[o].sb == sb && inodes[o].nr == o && (o in broken || old(MapValid(o)))
      ensures ValidBut(broken) && forall o | o in inodes && o !in broken :: FileKept(o)
    {
      hide Inode.Valid, Owns, Populated, SuperBlock.Valid, SuperBlock.Used, Bitmap.Valid, Bitmap.Bits, Partition,
           SameFile;
      Resettled(Owners(), old(sb.dev.blocks[..]), broken);
    }

    /** The end of testfs_remove_inode: the number of an inode that owns nothing is put back. */
    method DropInode(nr: nat, ghost rest: map<nat, set<int>>, ghost broken: set<nat>)
      requires sb.Valid() && nr in inodes && inodes.Keys == sb.inodeFreemap.Bits()
      requires rest.Keys == inodes.Keys - {nr} && Settled(rest, broken) && Partition(rest, sb.Used())
      modifies this`inodes, sb, sb.dev, sb.dev.blocks, sb.inodeFreemap.v
      ensures ValidBut(broken) && inodes == old(inodes) - {nr}
      ensures sb.Used() == old(sb.Used()) && sb.Free() == old(sb.Free())
      ensures forall b | INODE_BLOCKS_START <= b < NR_BLOCKS :: sb.dev.blocks[b] == old(sb.dev.blocks[b])
      ensures forall o | o in inodes && o !in broken :: FileKept(o)
    {
      hide Inode.Valid, Owns, Populated, SuperBlock.Valid, SuperBlock.Used, Bitmap.Valid, Bitmap.Bits, Partition,
           SameFile, FileSystem.MapValid;
      assert this !in sb.Repr();
      inodes := inodes - {nr};
      sb.PutInodeFreemap(nr);
      assert Owners() == rest;
      Dropped(broken);
    }

    lemma BlocksStill(dev0: seq<Block>, dev1: seq<Block>)
      requires sb.Valid() && Partition(Owners(), sb.Used()) && |dev1| == NR_BLOCKS
      requires forall o | o in inodes :: SameBlocks(dev0, dev1, inodes[o].own)
      requires forall b | INODE_BLOCKS_START <= b < NR_BLOCKS :: sb.dev.blocks[b] == dev1[b]
      ensures forall o | o in inodes :: SameBlocks(dev0, sb.dev.blocks[..], inodes[o].own)
    {
      hide Partition, SameBlocks, SuperBlock.Valid, SuperBlock.Used;
      sb.UsedRange();
      forall o | o in inodes ensures SameBlocks(dev0, sb.dev.blocks[..], inodes[o].own) {
        PartitionOwner(Owners(), sb.Used(), o);
        SameBlocksTwice(dev0, dev1, sb.dev.blocks[..], inodes[o].own);
      }
    }

    /** What is the same as on an earlier device before that still is. */
    method DropLast(nr: nat, ghost rest: map<nat, set<int>>, ghost broken: set<nat>, ghost dev0: seq<Block>)
      requires sb.Valid() && nr in inodes && inodes.Keys == sb.inodeFreemap.Bits()
      requires rest.Keys == inodes.Keys - {nr} && Settled(rest, broken) && Partition(rest, sb.Used())
      requires forall o | o in rest :: SameBlocks(dev0, sb.dev.blocks[..], inodes[o].own)
      requires forall o | o in rest && o !in broken :: SameFile(dev0, sb.dev.blocks[..], inodes[o].d)
      modifies this`inodes, sb, sb.dev, sb.dev.blocks, sb.inodeFreemap.v
      ensures ValidBut(broken) && inodes == old(inodes) - {nr}
      ensures sb.Used() == old(sb.Used()) && sb.Free() == old(sb.Free())
      ensures forall o | o in inodes :: inodes[o].d == old(inodes[o].d) && inodes[o].own == old(inodes[o].own)
      ensures forall o | o in inodes :: SameBlocks(dev0, sb.dev.blocks[..], inodes[o].own)
      ensures forall o | o in inodes && o !in broken :: SameFile(dev0, sb.dev.blocks[..], inodes[o].d)
    {
      hide SuperBlock.Valid, SuperBlock.Used, Bitmap.Valid, Bitmap.Bits, Partition, SameFile, SameBlocks,
           FileSystem.MapValid, Inode.Valid;
      assert this !in sb.Repr();
      ghost var dev1 := sb.dev.blocks[..];
      DropInode(nr, rest, broken);
      forall o | o in inodes && o !in broken ensures SameFile(dev0, sb.dev.blocks[..], inodes[o].d) {
        SameFileTwice(dev0, dev1, sb.dev.blocks[..], inodes[o].d);
      }
      BlocksStill(dev0, dev1);
    }

    /** testfs_remove_inode: it gets past its asserts exactly when the file is removable; then every block
        of the file, and no other, is free again. Other inodes may be broken. */
    method RemoveInode(nr: nat, ghost broken: set<nat> := {}) returns (ok: bool)
      requires ValidBut(broken) && nr in inodes && nr !in broken
      modifies this`inodes, inodes[nr], sb, sb.dev, sb.dev.blocks, sb.blockFreemap.v, sb.inodeFreemap.v
      ensures old(|inodes[nr].d.direct|) == NR_DIRECT_BLOCKS
      ensures ok <==> old(Removable(sb.dev.blocks[..], inodes[nr].d))
      ensures ok ==>
                && ValidBut(broken) && inodes == old(inodes) - {nr}
                && sb.Used() == old(sb.Used() - inodes[nr].own.Keys)
                && sb.Free() == old(sb.Free() + inodes[nr].d.blockCount)
                && (forall o | o in inodes :: Intact(o))
                && forall o | o in inodes && o !in broken :: FileKept(o)
    {
      hide Owns, Populated, SuperBlock.Valid, SuperBlock.Used, Bitmap.Valid, Bitmap.Bits, Partition, SameFile,
           Removable, FileSystem.MapValid, SameBlocks, Inode.Valid;
      ghost var owns, used, dev0 := Owners(), sb.Used(), sb.dev.blocks[..];
      ok := FreeFile(nr, broken);
      if ok {
        OthersSame(broken + {nr});
        PartitionGone(owns, used, nr);
        DropLast(nr, Without(owns, nr), broken, dev0);
      }
    }

    /** used_block_count is the sum of the block counts of all inodes. */
    lemma UsedBlockCount()
      requires Valid()
      ensures sb.dsb.usedBlockCount == Sum(Owners(), NR_INODE_BITS)
      ensures forall nr | nr in inodes :: inodes[nr].d.blockCount == |Owners()[nr]|
    {
      sb.UsedSize();
      PartitionCount(Owners(), sb.Used(), NR_INODE_BITS);
      forall nr | nr in inodes ensures inodes[nr].d.blockCount == |Owners()[nr]| {
        CountOwned(sb.dev.blocks[..], inodes[nr].d, inodes[nr].own);
      }
    }
  }

  lemma CountOwned(dev: seq<Block>, d: DInode, own: map<int, Role>)
    requires Owns(dev, d, own)
    ensures d.blockCount == |own| == |own.Keys|
  {
  }

  /** Every block in use belongs to exactly one of the owners. */
  ghost predicate Partition(owns: map<nat, set<int>>, used: set<int>) {
    && (forall o | o in owns :: owns[o] <= used)
    && (forall a, b | a in owns && b in owns && a != b :: owns[a] !! owns[b])
    && (forall p | p in used :: exists o :: o in owns && p in owns[o])
  }

  lemma PartitionOwner(owns: map<nat, set<int>>, used: set<int>, o: nat)
    requires Partition(owns, used) && o in owns
    ensures owns[o] <= used
  {
  }

  lemma PartitionApart(owns: map<nat, set<int>>, used: set<int>, o: nat, nr: nat)
    requires Partition(owns, used) && o in owns && nr in owns && o != nr
    ensures owns[o] <= used - owns[nr]
  {
  }

  /** One owner may change what it owns, as long as the rest of the used blocks stays the rest. */
  lemma PartitionAgain(owns: map<nat, set<int>>, used: set<int>, nr: nat, own: set<int>, used': set<int>)
    requires Partition(owns, used) && nr in owns && own <= used'
    requires used' - own == used - owns[nr]
    ensures Partition(owns[nr := own], used')
  {
    var after, rest := owns[nr := own], used - owns[nr];
    forall o | o in owns && o != nr ensures after[o] <= rest {
    }
    forall p | p in used' ensures exists o :: o in after && p in after[o] {
      if p in own {
        assert p in after[nr];
      } else {
        assert p in rest;
        var o :| o in owns && p in owns[o];
        assert p in after[o];
      }
    }
  }

  /** Where the window meets a leaky hole, the bytes fetched for it are zeros. */
  ghost predicate LeaksZeros(dev: seq<Block>, d: DInode, start: nat, n: nat)
    requires |d.direct| == NR_DIRECT_BLOCKS && start + n <= MAX_FILE_SIZE
  {
    forall k: nat | start <= k < start + n ::
      k / BLOCK_SIZE < MAX_FILE_BLOCKS && (Leaky(dev, d, k / BLOCK_SIZE) ==> FetchedAt(dev, d, k) == 0)
  }

  /** What the code fetches is the file exactly when what leaks is zeros. */
  lemma ReadBack(dev: seq<Block>, d: DInode, start: nat, got: seq<byte>)
    requires |d.direct| == NR_DIRECT_BLOCKS && start + |got| <= d.size <= MAX_FILE_SIZE
    requires forall k: nat | start <= k < start + |got| ::
               k / BLOCK_SIZE < MAX_FILE_BLOCKS && got[k - start] == FetchedAt(dev, d, k)
    ensures got == FileOf(dev, d)[start..start + |got|] <==> LeaksZeros(dev, d, start, |got|)
  {
    hide FetchedAt, Leaky, FileOf, ByteAt;
    var f := FileOf(dev, d)[start..start + |got|];
    forall k: nat | start <= k < start + |got|
      ensures k / BLOCK_SIZE < MAX_FILE_BLOCKS
      ensures f[k - start] == ByteAt(dev, d, k) && got[k - start] == FetchedAt(dev, d, k)
    {
      FileByte(dev, d, k);
    }
    if got == f {
      forall k: nat | start <= k < start + |got|
        ensures k / BLOCK_SIZE < MAX_FILE_BLOCKS && (Leaky(dev, d, k / BLOCK_SIZE) ==> FetchedAt(dev, d, k) == 0)
      {
        assert f[k - start] == got[k - start];
        ReadByte(dev, d, k);
      }
    }
    if LeaksZeros(dev, d, start, |got|) {
      forall i | 0 <= i < |got| ensures f[i] == got[i] {
        var k := start + i;
        assert f[k - start] == ByteAt(dev, d, k);
        ReadByte(dev, d, k);
      }
    }
  }

  lemma FileByte(dev: seq<Block>, d: DInode, k: nat)
    requires |d.direct| == NR_DIRECT_BLOCKS && k < d.size
    ensures FileOf(dev, d)[k] == ByteAt(dev, d, k)
  {
    hide ByteAt;
  }

  lemma ReadByte(dev: seq<Block>, d: DInode, k: nat)
    requires |d.direct| == NR_DIRECT_BLOCKS && k / BLOCK_SIZE < MAX_FILE_BLOCKS
    ensures ByteAt(dev, d, k) == FetchedAt(dev, d, k) <==> (Leaky(dev, d, k / BLOCK_SIZE) ==> FetchedAt(dev, d, k) == 0)
  {
    LeakyEmpty(dev, d, k / BLOCK_SIZE, k / BLOCK_SIZE);
    hide Leaky, Contents, Fetched;
  }

  lemma EmptySound(dev: seq<Block>, itype: int)
    ensures |EmptyInode(itype).direct| == NR_DIRECT_BLOCKS && EmptyInode(itype).size == 0
    ensures Removable(dev, EmptyInode(itype)) && ZeroTail(dev, EmptyInode(itype))
    ensures FileOf(dev, EmptyInode(itype)) == []
  {
  }

  lemma PartitionNew(owns: map<nat, set<int>>, used: set<int>, nr: nat)
    requires Partition(owns, used) && nr !in owns
    ensures Partition(owns[nr := {}], used)
  {
    var after := owns[nr := {}];
    forall p | p in used ensures exists o :: o in after && p in after[o] {
      var o :| o in owns && p in owns[o];
      assert p in after[o];
    }
  }

  function Without(owns: map<nat, set<int>>, nr: nat): (rest: map<nat, set<int>>)
    ensures rest.Keys == owns.Keys - {nr} && forall o | o in rest :: rest[o] == owns[o]
  {
    map o | o in owns && o != nr :: owns[o]
  }

  lemma PartitionGone(owns: map<nat, set<int>>, used: set<int>, nr: nat)
    requires Partition(owns, used) && nr in owns
    ensures Partition(Without(owns, nr), used - owns[nr])
  {
    var after := Without(owns, nr);
    forall p | p in used - owns[nr] ensures exists o :: o in after && p in after[o] {
      var o :| o in owns && p in owns[o];
      assert o in after && p in after[o];
    }
  }

  /** The blocks owned by the inodes below n. */
  ghost function Sum(owns: map<nat, set<int>>, n: nat): nat {
    if n == 0 then 0 else Sum(owns, n - 1) + if n - 1 in owns then |owns[n - 1]| else 0
  }

  /** The blocks in use are as many as the block counts of all inodes together. */
  lemma {:induction false} PartitionCount(owns: map<nat, set<int>>, used: set<int>, n: nat)
    requires Partition(owns, used) && forall o | o in owns :: o < n
    ensures |used| == Sum(owns, n)
    decreases n
  {
    hide Partition, Without;
    if n == 0 {
      NoOwners(owns, used);
    } else if n - 1 in owns {
      PartitionGone(owns, used, n - 1);
      PartitionOwner(owns, used, n - 1);
      WithoutBelow(owns, n - 1);
      PartitionCount(Without(owns, n - 1), used - owns[n - 1], n - 1);
      SumGone(owns, n - 1, n - 1);
      Split(used, owns[n - 1]);
    } else {
      PartitionCount(owns, used, n - 1);
    }
  }

  lemma WithoutBelow(owns: map<nat, set<int>>, n: nat)
    requires forall o | o in owns :: o <= n
    ensures forall o | o in Without(owns, n) :: o < n
  {
  }

  lemma Split(a: set<int>, b: set<int>)
    requires b <= a
    ensures |a| == |a - b| + |b|
  {
    assert a == (a - b) + b;
  }

  lemma NoOwners(owns: map<nat, set<int>>, used: set<int>)
    requires Partition(owns, used) && forall o | o in owns :: o < 0
    ensures used == {}
  {
    forall p ensures p !in used {
    }
  }

  lemma {:induction false} SumGone(owns: map<nat, set<int>>, o: nat, n: nat)
    requires n <= o
    ensures Sum(Without(owns, o), n) == Sum(owns, n)
  {
    if n > 0 {
      SumGone(owns, o, n - 1);
    }
  }
}
