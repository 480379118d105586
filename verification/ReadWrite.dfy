/** Reading, writing and releasing the blocks of an inode (fs/read_write.c, and the two block
    functions at the end of fs/inode.c). */
module ReadWrite {
  import opened Common
  import opened Bitmaps
  import opened SuperBlocks
  import opened BlockMap
  import opened FileData
  import opened Release

  class Inode {
    var d: DInode
    var dirty: bool
    const nr: nat
    const sb: SuperBlock
    ghost var own: map<int, Role>

    /** An inode whose slot on the device is zeroed, as testfs_create_inode finds it. */
    constructor (sb: SuperBlock, nr: nat, itype: int)
      requires sb.Valid()
      ensures Valid() && this.sb == sb && this.nr == nr && own == map[]
      ensures d == EmptyInode(itype) && dirty
    {
      this.sb, this.nr := sb, nr;
      d := EmptyInode(itype);
      dirty := true;
      own := map[];
    }

    /** The block map is well formed and all of its blocks are allocated. */
    ghost predicate Valid()
      reads this, sb.Repr()
    {
      && sb.Valid()
      && Owns(sb.dev.blocks[..], d, own)
      && Populated(sb.dev.blocks[..], d)
      && own.Keys <= sb.Used()
      && 0 <= d.size <= MAX_FILE_SIZE
    }

    ghost function Dev(): seq<Block>
      reads sb.dev.blocks
    {
      sb.dev.blocks[..]
    }

    /** Blocks in use that belong to other inodes. */
    ghost function Foreign(): set<int>
      requires sb.Shape() && sb.blockFreemap.Valid()
      reads this, sb.blockFreemap.v
    {
      sb.Used() - own.Keys
    }

    /** testfs_alloc_block_for_inode */
    method AllocBlockForInode() returns (ret: int)
      requires sb.Valid()
      modifies this`d, this`dirty, sb, sb.dev, sb.dev.blocks, sb.blockFreemap.v
      ensures sb.Valid()
      ensures old(sb.Free()) <= 0 ==> ret == -ENOSPC && sb.Used() == old(sb.Used()) && sb.dsb == old(sb.dsb)
      ensures old(sb.Free()) <= 0 ==> d == old(d) && dirty == old(dirty) && sb.dev.blocks[..] == old(sb.dev.blocks[..])
      ensures old(sb.Free()) > 0 ==>
                && DATA_BLOCKS_START <= ret < NR_BLOCKS
                && ret !in old(sb.Used()) && sb.Used() == old(sb.Used()) + {ret}
                && sb.Free() == old(sb.Free()) - 1
                && d == old(d).(blockCount := old(d).blockCount + 1) && dirty
      ensures forall b | INODE_BLOCKS_START <= b < NR_BLOCKS :: sb.dev.blocks[b] == old(sb.dev.blocks[b])
    {
      ret := sb.AllocBlock();
      if ret >= 0 {
        d := d.(blockCount := d.blockCount + 1);
        dirty := true;
      }
    }

    /** testfs_free_block_from_inode */
    method FreeBlockFromInode(p: int)
      requires sb.Valid() && (p != 0 ==> p in sb.Used())
      modifies this`d, this`dirty, sb, sb.dev, sb.dev.blocks, sb.blockFreemap.v
      ensures sb.Valid()
      ensures p == 0 ==> sb.Used() == old(sb.Used()) && sb.Free() == old(sb.Free()) && d == old(d)
      ensures p != 0 ==>
                && sb.Used() == old(sb.Used()) - {p}
                && sb.Free() == old(sb.Free()) + 1
                && d == old(d).(blockCount := old(d).blockCount - 1) && dirty
                && sb.dev.blocks[p] == ZeroBlock()
      ensures forall b | INODE_BLOCKS_START <= b < NR_BLOCKS && b != p :: sb.dev.blocks[b] == old(sb.dev.blocks[b])
    {
      if p == 0 {
        return;
      }
      sb.UsedRange();
      sb.FreeBlock(p);
      d := d.(blockCount := d.blockCount - 1);
      dirty := true;
    }

    /** testfs_read_block: block0 is the buffer on entry, block the buffer on return. */
    method ReadBlock(log: nat, block0: Block) returns (ret: int, block: Block)
      requires sb.Valid() && Owns(Dev(), d, own)
      ensures log >= MAX_FILE_BLOCKS ==> ret == -EFBIG && block == block0
      ensures log < MAX_FILE_BLOCKS ==> ret == Ptr(Dev(), d, DataRole(log)) && ret >= 0
      ensures log < MAX_FILE_BLOCKS ==> block == Fetched(Dev(), d, log)
    {
      hide Entry, Ptr, DataRole, Fetched, Leaky, Owns, SuperBlock.Valid;
      if log < MAX_FILE_BLOCKS {
        Lookup(Dev(), d, own, log);
      }
      var n := log;
      block := block0;
      ret := 0;
      if n < NR_DIRECT_BLOCKS {
        ret := d.direct[n];
      } else {
        n := n - NR_DIRECT_BLOCKS;
        if n >= NR_INDIRECT_BLOCKS {
          n := n - NR_INDIRECT_BLOCKS;
          if n >= NR_INDIRECT_BLOCKS * NR_INDIRECT_BLOCKS {
            return -EFBIG, block;
          }
          RowRange(n);
          if d.dindirect > 0 {
            block := sb.dev.blocks[d.dindirect];
            var addr := Entry(block, n / NR_INDIRECT_BLOCKS);
            if addr > 0 {
              block := sb.dev.blocks[addr];
              ret := Entry(block, n % NR_INDIRECT_BLOCKS);
            } else {
              return addr, block;
            }
          }
        } else if d.indirect > 0 {
          block := sb.dev.blocks[d.indirect];
          ret := Entry(block, n);
        }
      }
      assert ret == Ptr(Dev(), d, DataRole(log));
      if ret > 0 {
        block := sb.dev.blocks[ret];
      } else {
        block := ZeroBlock();
      }
    }

    /** testfs_allocate_block, lines 129-137: a direct block. */
    method AllocateDirect(n: nat) returns (ret: int)
      requires Valid() && n < NR_DIRECT_BLOCKS && Ptr(Dev(), d, DataRole(n)) == 0
      modifies this, sb, sb.dev, sb.dev.blocks, sb.blockFreemap.v
      ensures sb.Valid() && Foreign() == old(Foreign())
      ensures forall b | INODE_BLOCKS_START <= b < NR_BLOCKS && (b < DATA_BLOCKS_START || b in old(Foreign())) ::
                sb.dev.blocks[b] == old(sb.dev.blocks[b])
      ensures old(sb.Free()) >= Needs(old(Dev()), old(d), n) ==>
                && Grown(old(Dev()), old(d), old(own), Dev(), d, own, n)
                && own.Keys <= sb.Used() && sb.Free() == old(sb.Free()) - Needs(old(Dev()), old(d), n)
                && dirty && ret == Ptr(Dev(), d, DataRole(n)) && ret !in old(sb.Used())
      ensures old(sb.Free()) < Needs(old(Dev()), old(d), n) ==>
                && ret == -ENOSPC && d == old(d) && own == old(own) && sb.Used() == old(sb.Used())
                && sb.Free() == old(sb.Free()) && (forall b | b in own :: Dev()[b] == old(Dev())[b])
    {
      hide Entry, WithEntry, Populated, SuperBlock.Valid, SuperBlock.Used, Bitmap.Valid, Grown, Owns, Ptr, Path,
           AttachInode, DataRole;
      ghost var dev0, d0, own0 := Dev(), d, own;
      Lookup(dev0, d0, own0, n);
      assert Needs(dev0, d0, n) == 1;
      sb.UsedRange();
      assert this !in sb.Repr();
      assert d.direct[n] == 0;
      ret := AllocBlockForInode();
      if ret >= 0 {
        GrowDirect(dev0, d0, own0, n, ret, Dev());
        d := d.(direct := d.direct[n := ret]);
        own := own[ret := DataRole(n)];
        assert own.Keys == own0.Keys + {ret};
      }
    }

    /** testfs_allocate_block, lines 204-213: the single-indirect table, allocated when missing. */
    method IndirectTable() returns (ret: int, indirect: Block, isNew: bool)
      requires sb.Valid() && (d.indirect == 0 || DATA_BLOCKS_START <= d.indirect < NR_BLOCKS)
      modifies this`d, this`dirty, sb, sb.dev, sb.dev.blocks, sb.blockFreemap.v
      ensures sb.Valid() && isNew == (old(d).indirect == 0 && old(sb.Free()) > 0)
      ensures old(d).indirect != 0 ==> ret == 0 && indirect == old(sb.dev.blocks[d.indirect])
      ensures old(d).indirect == 0 && old(sb.Free()) <= 0 ==> ret == -ENOSPC
      ensures isNew ==>
                && ret > 0 && indirect == ZeroBlock() && dirty
                && DATA_BLOCKS_START <= d.indirect < NR_BLOCKS && d.indirect !in old(sb.Used())
                && d == old(d).(indirect := d.indirect, blockCount := old(d).blockCount + 1)
                && sb.Used() == old(sb.Used()) + {d.indirect} && sb.Free() == old(sb.Free()) - 1
      ensures !isNew ==> d == old(d) && sb.Used() == old(sb.Used()) && sb.Free() == old(sb.Free())
      ensures forall b | INODE_BLOCKS_START <= b < NR_BLOCKS :: sb.dev.blocks[b] == old(sb.dev.blocks[b])
    {
      hide SuperBlock.Valid, SuperBlock.Used, Bitmap.Valid;
      assert this !in sb.Repr();
      ret, isNew := 0, false;
      if d.indirect == 0 {
        indirect := ZeroBlock();
        ret := AllocBlockForInode();
        if ret < 0 {
          return;
        }
        isNew := true;
        d := d.(indirect := ret);
      } else {
        indirect := sb.dev.blocks[d.indirect];
      }
    }

    /** testfs_allocate_block, lines 204-228: a block under the single-indirect table. */
    method AllocateIndirect(n: nat) returns (ret: int)
      requires Valid() && NR_DIRECT_BLOCKS <= n < FIRST_DOUBLE && Ptr(Dev(), d, DataRole(n)) == 0
      modifies this, sb, sb.dev, sb.dev.blocks, sb.blockFreemap.v
      ensures sb.Valid() && Foreign() == old(Foreign())
      ensures forall b | INODE_BLOCKS_START <= b < NR_BLOCKS && (b < DATA_BLOCKS_START || b in old(Foreign())) ::
                sb.dev.blocks[b] == old(sb.dev.blocks[b])
      ensures old(sb.Free()) >= Needs(old(Dev()), old(d), n) ==>
                && Grown(old(Dev()), old(d), old(own), Dev(), d, own, n)
                && own.Keys <= sb.Used() && sb.Free() == old(sb.Free()) - Needs(old(Dev()), old(d), n)
                && dirty && ret == Ptr(Dev(), d, DataRole(n)) && ret !in old(sb.Used())
      ensures old(sb.Free()) < Needs(old(Dev()), old(d), n) ==>
                && ret == -ENOSPC && d == old(d) && own == old(own) && sb.Used() == old(sb.Used())
                && sb.Free() == old(sb.Free()) && (forall b | b in own :: Dev()[b] == old(Dev())[b])
    {
      hide Entry, WithEntry, Populated, SuperBlock.Valid, SuperBlock.Used, Bitmap.Valid, Grown, Owns, Ptr, Needs, Path,
           AttachInode, DataRole;
      ghost var dev0, d0, own0 := Dev(), d, own;
      IndirectHole(dev0, d0, own0, n);
      sb.UsedRange();
      assert this !in sb.Repr();
      var log := n - NR_DIRECT_BLOCKS;
      var indirect, indirect_allocated;
      ret, indirect, indirect_allocated := IndirectTable();
      if ret < 0 {
        return;
      }
      ZeroEntries();
      assert Entry(indirect, log) == 0;
      ret := AllocBlockForInode();
      if ret >= 0 {
        indirect := WithEntry(indirect, log, ret);
        own := if indirect_allocated then own0[d.indirect := Ind][ret := DataRole(n)] else own0[ret := DataRole(n)];
        sb.WriteBlock(d.indirect, indirect);
        if indirect_allocated {
          GrowIndirect(dev0, d0, own0, n, d.indirect, ret, Dev());
        } else {
          GrowInIndirect(dev0, d0, own0, n, ret, Dev());
        }
      } else if indirect_allocated {
        FreeBlockFromInode(d.indirect);
        d := d.(indirect := 0);
      }
    }

    /** The values testfs_allocate_block starts from. */
    ghost function Now(): Snap
      requires sb.Valid()
      reads this, sb.Repr()
    {
      Snap(Dev(), d, own, sb.Used(), sb.Free())
    }

    /** testfs_allocate_block, lines 151-162: the double-indirect table, allocated when missing. */
    method DoubleTable(ghost z: Snap) returns (ret: int, di_block: Block, di_block_available: bool)
      requires Valid() && z == Now()
      modifies this`d, this`dirty, sb, sb.dev, sb.dev.blocks, sb.blockFreemap.v
      ensures sb.Valid() && own == old(own)
      ensures ret < 0 <==> z.d.dindirect == 0 && z.free <= 0
      ensures ret < 0 ==> ret == -ENOSPC && d == z.d && sb.Used() == z.used && sb.Free() == z.free
      ensures ret < 0 ==> SameData(z.dev, Dev())
      ensures ret >= 0 ==> AfterDouble(z, Dev(), d, sb.Used(), sb.Free(), di_block, di_block_available)
    {
      Roots(Dev(), d, own);
      hide SuperBlock.Valid, SuperBlock.Used, Bitmap.Valid, Owns, Populated;
      assert this !in sb.Repr();
      ret, di_block_available := 0, false;
      if d.dindirect == 0 {
        di_block := ZeroBlock();
        ret := AllocBlockForInode();
        if ret < 0 {
          return;
        }
        di_block_available := true;
        d := d.(dindirect := ret);
      } else {
        di_block := sb.dev.blocks[d.dindirect];
      }
    }

    /** testfs_allocate_block, lines 165-183: the second-level table at entry i, allocated and
        entered in the double-indirect table when missing. */
    method SecondTable(di_block0: Block, i: nat)
      returns (ret: int, di_block: Block, indirect: Block, indirect_allocated: bool)
      requires sb.Valid() && i < NR_INDIRECT_BLOCKS && d.dindirect in sb.Used()
      requires Entry(di_block0, i) == 0 || Entry(di_block0, i) in sb.Used()
      modifies this`d, this`dirty, sb, sb.dev, sb.dev.blocks, sb.blockFreemap.v
      ensures sb.Valid() && indirect_allocated == (Entry(di_block0, i) == 0 && old(sb.Free()) > 0)
      ensures ret < 0 <==> Entry(di_block0, i) == 0 && old(sb.Free()) <= 0
      ensures ret < 0 ==> ret == -ENOSPC && sb.dev.blocks[..] == old(sb.dev.blocks[..])
      ensures ret >= 0 && !indirect_allocated ==> indirect == old(sb.dev.blocks[Entry(di_block0, i)])
      ensures indirect_allocated ==>
                && ret == Entry(di_block, i) && ret !in old(sb.Used()) && indirect == ZeroBlock()
                && di_block == WithEntry(di_block0, i, ret)
                && d == old(d).(blockCount := old(d).blockCount + 1) && dirty
                && sb.Used() == old(sb.Used()) + {ret} && sb.Free() == old(sb.Free()) - 1
                && DATA_BLOCKS_START <= ret < NR_BLOCKS
      ensures !indirect_allocated ==>
                && d == old(d) && sb.Used() == old(sb.Used()) && sb.Free() == old(sb.Free()) && di_block == di_block0
      ensures forall b | INODE_BLOCKS_START <= b < NR_BLOCKS ::
                sb.dev.blocks[b] == if indirect_allocated && b == d.dindirect then di_block else old(sb.dev.blocks[b])
    {
      hide SuperBlock.Valid, SuperBlock.Used, Bitmap.Valid, Entry, WithEntry;
      sb.UsedRange();
      assert this !in sb.Repr();
      ret, indirect_allocated, di_block, indirect := 0, false, di_block0, ZeroBlock();
      if Entry(di_block, i) == 0 {
        ret := AllocBlockForInode();
        if ret < 0 {
          return;
        }
        StoreEntry(di_block, i, ret);
        di_block := WithEntry(di_block, i, ret);
        sb.WriteBlock(d.dindirect, di_block);
        indirect_allocated := true;
      } else {
        indirect := sb.dev.blocks[Entry(di_block, i)];
      }
    }

    /** testfs_allocate_block, lines 169-171: the table taken on this call is freed again, but
        i_dindirect keeps its number. */
    method UndoDouble(di_block_available: bool, ghost di_block: Block, ghost z: Snap)
      requires sb.Valid() && Owns(z.dev, z.d, z.own) && z.own.Keys <= z.used
      requires AfterDouble(z, Dev(), d, sb.Used(), sb.Free(), di_block, di_block_available)
      modifies this`d, this`dirty, sb, sb.dev, sb.dev.blocks, sb.blockFreemap.v
      ensures sb.Valid() && sb.Used() == z.used && sb.Free() == z.free
      ensures Framed(z, Dev()) && d == z.d.(dindirect := d.dindirect)
      ensures di_block_available ==> |d.direct| == NR_DIRECT_BLOCKS && Dangling(Dev(), d, sb.Used())
      ensures !di_block_available ==> d == z.d && SameData(z.dev, Dev())
    {
      Roots(z.dev, z.d, z.own);
      hide SuperBlock.Valid, SuperBlock.Used, Bitmap.Valid, Owns, Dangling;
      sb.UsedRange();
      assert this !in sb.Repr();
      if di_block_available {
        FreeBlockFromInode(d.dindirect);
        DanglingDouble(Dev(), d, sb.Used());
      }
    }

    /** testfs_allocate_block, lines 187-195: the blocks taken on this call are freed again, but
        neither i_dindirect nor the entry in its table is cleared. */
    method Undo(s: int, i: nat, di_block_available: bool, indirect_allocated: bool, ghost indirect: Block,
                ghost z: Snap)
      requires sb.Valid() && i < NR_INDIRECT_BLOCKS
      requires Owns(z.dev, z.d, z.own) && z.own.Keys <= z.used
      requires AfterSecond(z, Dev(), d, sb.Used(), sb.Free(), i, s, indirect, di_block_available, indirect_allocated)
      modifies this`d, this`dirty, sb, sb.dev, sb.dev.blocks, sb.blockFreemap.v
      ensures sb.Valid() && sb.Used() == z.used && sb.Free() == z.free && own == old(own)
      ensures Framed(z, Dev()) && d == z.d.(dindirect := d.dindirect)
      ensures indirect_allocated ==> |d.direct| == NR_DIRECT_BLOCKS && Dangling(Dev(), d, sb.Used())
      ensures !indirect_allocated ==> d == z.d && SameData(z.dev, Dev())
    {
      hide SuperBlock.Valid, SuperBlock.Used, Bitmap.Valid, Entry, WithEntry, Owns, Ptr, Dangling;
      sb.UsedRange();
      assert this !in sb.Repr();
      AfterSecondDistinct(z, Dev(), d, sb.Used(), sb.Free(), i, s, indirect, di_block_available, indirect_allocated);
      if di_block_available {
        FreeBlockFromInode(s);
        FreeBlockFromInode(d.dindirect);
        DanglingDouble(Dev(), d, sb.Used());
      } else if indirect_allocated {
        FreeBlockFromInode(s);
        DanglingSecond(Dev(), d, sb.Used(), i);
      }
    }

    /** testfs_allocate_block, lines 198-199: the new block goes into the second-level table. */
    method EnterLeaf(n: nat, s: int, indirect0: Block, p: int, di_block_available: bool, indirect_allocated: bool,
                     ghost z: Snap, ghost dev1: seq<Block>, ghost d1: DInode)
      requires sb.Valid() && FIRST_DOUBLE <= n < MAX_FILE_BLOCKS && own == z.own
      requires Owns(z.dev, z.d, z.own) && z.own.Keys <= z.used && Ptr(z.dev, z.d, DataRole(n)) == 0
      requires DATA_BLOCKS_START <= p < NR_BLOCKS && p in sb.Used()
      requires AfterSecond(z, dev1, d1, sb.Used() - {p}, sb.Free() + 1, (n - FIRST_DOUBLE) / NR_INDIRECT_BLOCKS, s,
                           indirect0, di_block_available, indirect_allocated)
      requires SameData(dev1, Dev()) && d == d1.(blockCount := d1.blockCount + 1)
      modifies this`own, sb.dev.blocks
      ensures sb.Valid() && sb.Used() == old(sb.Used())
      ensures Grown(z.dev, z.d, z.own, Dev(), d, own, n) && Ptr(Dev(), d, DataRole(n)) == p
      ensures own.Keys <= sb.Used() && Framed(z, Dev()) && sb.Used() - own.Keys == z.used - z.own.Keys
      ensures sb.Free() == z.free - Needs(z.dev, z.d, n)
    {
      hide SuperBlock.Valid, SuperBlock.Used, Bitmap.Valid, Entry, WithEntry, Owns, Ptr, Needs, Grown, Path, DataRole;
      sb.UsedRange();
      assert this !in sb.Repr();
      DoubleHole(z.dev, z.d, z.own, n);
      Roots(z.dev, z.d, z.own);
      TablePtrs(z.dev, z.d);
      var di_index, j := (n - FIRST_DOUBLE) / NR_INDIRECT_BLOCKS, (n - FIRST_DOUBLE) % NR_INDIRECT_BLOCKS;
      own := if di_block_available then own[d.dindirect := Dind][s := Sec(di_index)][p := DataRole(n)]
             else if indirect_allocated then own[s := Sec(di_index)][p := DataRole(n)]
             else own[p := DataRole(n)];
      sb.WriteBlock(s, WithEntry(indirect0, j, p));
      if di_block_available {
        GrowDouble(z.dev, z.d, z.own, n, d.dindirect, s, p, Dev());
      } else if indirect_allocated {
        GrowSecond(z.dev, z.d, z.own, n, s, p, Dev());
      } else {
        GrowInSecond(z.dev, z.d, z.own, n, s, p, Dev());
      }
    }

    /** testfs_allocate_block, lines 151-183: both tables above a block, allocated when missing; s is the
        second-level one. */
    method TablesAbove(i: nat, ghost z: Snap)
      returns (ret: int, s: int, indirect: Block, di_block_available: bool, indirect_allocated: bool)
      requires Valid() && z == Now() && i < NR_INDIRECT_BLOCKS && |d.direct| == NR_DIRECT_BLOCKS
      modifies this`d, this`dirty, sb, sb.dev, sb.dev.blocks, sb.blockFreemap.v
      ensures sb.Valid() && own == old(own)
      ensures ret < 0 <==> z.free < TablesMissing(z.dev, z.d, i)
      ensures ret < 0 ==>
                && ret == -ENOSPC && sb.Used() == z.used && sb.Free() == z.free && Framed(z, Dev())
                && d == z.d.(dindirect := d.dindirect)
                && if z.free <= 0 then d == z.d && SameData(z.dev, Dev())
                   else |d.direct| == NR_DIRECT_BLOCKS && Dangling(Dev(), d, sb.Used())
      ensures ret >= 0 ==>
                && AfterSecond(z, Dev(), d, sb.Used(), sb.Free(), i, s, indirect, di_block_available,
                               indirect_allocated)
                && z.used <= sb.Used()
                && sb.Free() == z.free - TablesMissing(z.dev, z.d, i)
                && (indirect_allocated <==> TablesMissing(z.dev, z.d, i) > 0)
    {
      hide Entry, WithEntry, Populated, SuperBlock.Valid, SuperBlock.Used, Bitmap.Valid, Owns, Ptr,
           Dangling, AfterDouble, AfterSecond, Child;
      sb.UsedRange();
      assert this !in sb.Repr();
      var di_block;
      s, indirect, indirect_allocated := 0, ZeroBlock(), false;
      ret, di_block, di_block_available := DoubleTable(z);
      if ret < 0 {
        return;
      }
      ghost var dev1, d1, used1, free1, di_block0 := Dev(), d, sb.Used(), sb.Free(), di_block;
      SecondEntry(z, dev1, d1, used1, free1, di_block, di_block_available, i);
      ret, di_block, indirect, indirect_allocated := SecondTable(di_block, i);
      if ret < 0 {
        UndoDouble(di_block_available, di_block, z);
        return;
      }
      SecondStep(z, dev1, d1, used1, free1, di_block0, di_block_available, Dev(), d, sb.Used(), sb.Free(),
                 i, di_block, indirect, indirect_allocated);
      s := Entry(di_block, i);
    }

    /** testfs_allocate_block, lines 140-202: a block under the double-indirect table. */
    method AllocateDouble(n: nat) returns (ret: int)
      requires Valid() && FIRST_DOUBLE <= n < MAX_FILE_BLOCKS && Ptr(Dev(), d, DataRole(n)) == 0
      modifies this, sb, sb.dev, sb.dev.blocks, sb.blockFreemap.v
      ensures sb.Valid() && Foreign() == old(Foreign())
      ensures forall b | INODE_BLOCKS_START <= b < NR_BLOCKS && (b < DATA_BLOCKS_START || b in old(Foreign())) ::
                sb.dev.blocks[b] == old(sb.dev.blocks[b])
      ensures old(sb.Free()) >= Needs(old(Dev()), old(d), n) ==>
                && Grown(old(Dev()), old(d), old(own), Dev(), d, own, n)
                && own.Keys <= sb.Used() && sb.Free() == old(sb.Free()) - Needs(old(Dev()), old(d), n)
                && dirty && ret == Ptr(Dev(), d, DataRole(n)) && ret !in old(sb.Used())
      ensures old(sb.Free()) < Needs(old(Dev()), old(d), n) ==>
                && ret == -ENOSPC && own == old(own) && sb.Used() == old(sb.Used()) && sb.Free() == old(sb.Free())
                && d == old(d).(dindirect := d.dindirect)
                && if old(sb.Free()) <= 0 then d == old(d) && SameData(old(Dev()), Dev())
                   else |d.direct| == NR_DIRECT_BLOCKS && Dangling(Dev(), d, sb.Used())
    {
      hide Entry, WithEntry, Populated, SuperBlock.Valid, SuperBlock.Used, Bitmap.Valid, Grown, Owns, Ptr, Needs,
           DataRole, Dangling, AfterSecond, Child, Leaky;
      ghost var z := Now();
      DoubleHole(z.dev, z.d, z.own, n);
      Roots(z.dev, z.d, z.own);
      TablePtrs(z.dev, z.d);
      sb.UsedRange();
      assert this !in sb.Repr();
      var log := n - FIRST_DOUBLE;
      var di_index := log / NR_INDIRECT_BLOCKS;
      var s, indirect, di_block_available, indirect_allocated;
      ret, s, indirect, di_block_available, indirect_allocated := TablesAbove(di_index, z);
      if ret < 0 {
        return;
      }
      ghost var dev2, d2 := Dev(), d;
      ret := AllocBlockForInode();
      if ret < 0 {
        Undo(s, di_index, di_block_available, indirect_allocated, indirect, z);
        return;
      }
      EnterLeaf(n, s, indirect, ret, di_block_available, indirect_allocated, z, dev2, d2);
    }

    /** testfs_allocate_block: the physical block of logical block log, allocated when missing.
        It fails for lack of space exactly when fewer blocks are free than the path needs, and it
        leaves a well-formed inode except when it strands a table. */
    method AllocateBlock(log: nat, block0: Block) returns (ret: int, block: Block)
      requires Valid()
      modifies this, sb, sb.dev, sb.dev.blocks, sb.blockFreemap.v
      ensures sb.Valid() && Foreign() == old(Foreign()) && Framed(old(Now()), Dev())
      ensures log >= MAX_FILE_BLOCKS ==> ret == -EFBIG && block == block0 && Now() == old(Now())
      ensures log < MAX_FILE_BLOCKS ==> block == Fetched(old(Dev()), old(d), log)
      ensures log < MAX_FILE_BLOCKS && old(sb.Free()) >= Needs(old(Dev()), old(d), log) ==>
                && Grown(old(Dev()), old(d), old(own), Dev(), d, own, log)
                && ret == Ptr(Dev(), d, DataRole(log)) && ret in own
                && d.size == old(d).size && d.itype == old(d).itype
                && sb.Free() == old(sb.Free()) - Needs(old(Dev()), old(d), log)
                && (ret in old(sb.Used()) ==> Now() == old(Now()))
      ensures log < MAX_FILE_BLOCKS && old(sb.Free()) < Needs(old(Dev()), old(d), log) ==>
                && ret == -ENOSPC && own == old(own)
                && sb.Used() == old(sb.Used()) && sb.Free() == old(sb.Free())
                && d == old(d).(dindirect := d.dindirect)
                && (!Strands(old(Dev()), old(d), log, old(sb.Free())) ==>
                      d == old(d) && forall b | b in own :: Dev()[b] == old(Dev())[b])
      ensures Valid() <==> log >= MAX_FILE_BLOCKS || !Strands(old(Dev()), old(d), log, old(sb.Free()))
    {
      hide Entry, Populated, SuperBlock.Valid, SuperBlock.Used, Bitmap.Valid, Grown, Owns, Ptr, Needs,
           DataRole, Dangling, Child, Fetched;
      ghost var z := Now();
      sb.UsedRange();
      assert this !in sb.Repr();
      ret, block := ReadBlock(log, block0);
      if ret != 0 {
        if log < MAX_FILE_BLOCKS {
          MappedGrown(z.dev, z.d, z.own, log);
        }
        return;
      }
      if log < NR_DIRECT_BLOCKS {
        ret := AllocateDirect(log);
      } else if log < FIRST_DOUBLE {
        ret := AllocateIndirect(log);
      } else {
        ret := AllocateDouble(log);
      }
      Allocated(z, Dev(), d, own, sb.Used(), log, z.free);
    }

    /** One block of testfs_read_data (lines 79-84, 88-92, 97-101 and 104-106): the block is looked up,
        and n bytes of it from offset from on are copied to place at of buf. */
    method GetPart(nr: nat, block0: Block, from: nat, buf: array<byte>, at: nat, n: nat, ghost start: nat)
      returns (ret: int, block: Block)
      requires Valid() && buf !in sb.Repr() && from + n <= BLOCK_SIZE && at + n <= buf.Length
      requires start + at == nr * BLOCK_SIZE + from
      modifies buf
      ensures Valid() && |d.direct| == NR_DIRECT_BLOCKS
      ensures nr >= MAX_FILE_BLOCKS ==> ret == -EFBIG && buf[..] == old(buf[..])
      ensures nr < MAX_FILE_BLOCKS ==>
                && ret >= 0
                && (forall i | at <= i < at + n ::
                      (start + i) / BLOCK_SIZE == nr && buf[i] == FetchedAt(Dev(), d, start + i))
                && (forall i | 0 <= i < buf.Length && !(at <= i < at + n) :: buf[i] == old(buf[i]))
    {
      hide Fetched, Owns, Populated, SuperBlock.Valid, SuperBlock.Used, Bitmap.Valid, Ptr, DataRole;
      Roots(Dev(), d, own);
      ret, block := ReadBlock(nr, block0);
      if ret < 0 {
        return;
      }
      Window(Dev(), d, nr, from, n, start + at);
      hide FetchedAt;
      CopyOut(buf, at, block, from, n);
      forall i | at <= i < at + n ensures (start + i) / BLOCK_SIZE == nr && buf[i] == FetchedAt(Dev(), d, start + i) {
        assert buf[i] == block[from + i - at];
      }
    }

    /** testfs_read_data: the bytes of the file from start, cut off at its size. At the very end of
        a file of maximum size the one block it looks up does not exist. */
    method ReadData(buf: array<byte>, start: nat, size0: nat) returns (ret: int)
      requires Valid() && start <= d.size && size0 <= INT_MAX
      requires size0 <= buf.Length && buf !in sb.Repr()
      modifies buf
      ensures Valid()
      ensures var size := if start + size0 > d.size then d.size - start else size0;
        if start == MAX_FILE_SIZE then ret == -EFBIG && buf[..] == old(buf[..])
        else
          && ret == size && (forall i | 0 <= i < size :: buf[i] == FetchedAt(Dev(), d, start + i))
          && (forall i | size <= i < buf.Length :: buf[i] == old(buf[i]))
    {
      hide Fetched, FetchedAt, Owns, Populated, SuperBlock.Valid, SuperBlock.Used, Bitmap.Valid, Ptr, DataRole;
      assert this !in sb.Repr();
      Roots(Dev(), d, own);
      FileSize();
      ghost var dev, d0 := Dev(), d;
      var block_nr, block_ix := start / BLOCK_SIZE, start % BLOCK_SIZE;
      var size := size0;
      if start + size > d.size {
        size := d.size - start;
      }
      var block := ZeroBlock();
      if block_ix + size > BLOCK_SIZE {
        ret, block := GetPart(block_nr, block, block_ix, buf, 0, BLOCK_SIZE - block_ix, start);
        if ret < 0 {
          return;
        }
        var leftover_size := size - BLOCK_SIZE + block_ix;
        var block_increment := 1;
        while leftover_size > BLOCK_SIZE
          invariant block_increment >= 1 && leftover_size == size - BLOCK_SIZE * block_increment + block_ix > 0
          invariant Valid() && Dev() == dev
          invariant forall i | 0 <= i < size - leftover_size :: buf[i] == FetchedAt(dev, d0, start + i)
          invariant forall i | size - leftover_size <= i < buf.Length :: buf[i] == old(buf[i])
        {
          ret, block := GetPart(block_nr + block_increment, block, 0, buf, BLOCK_SIZE * block_increment - block_ix,
                                BLOCK_SIZE, start);
          if ret < 0 {
            return;
          }
          leftover_size := leftover_size - BLOCK_SIZE;
          block_increment := block_increment + 1;
        }
        ret, block := GetPart(block_nr + block_increment, block, 0, buf, BLOCK_SIZE * block_increment - block_ix,
                              leftover_size, start);
        if ret < 0 {
          return;
        }
        return size;
      }
      ret, block := GetPart(block_nr, block, block_ix, buf, 0, size, start);
      if ret < 0 {
        return;
      }
      return size;
    }

    /** One block of testfs_write_data (lines 241-247, 251-256, 260-267 and 276-280): the block is
        looked up or allocated, n bytes of buf are copied over it, and it is written. */
    method PutPart(nr: nat, block0: Block, at: nat, buf: seq<byte>, from: nat, n: nat,
                   ghost z: Snap, ghost start: nat, ghost leak0: Block, ghost n0: nat)
      returns (ret: int, block: Block, ghost leak: Block)
      requires Valid() && at + n <= BLOCK_SIZE && from + n <= |buf|
      requires start / BLOCK_SIZE == n0 <= nr && start + from == nr * BLOCK_SIZE + at
      requires nr < MAX_FILE_BLOCKS ==> Wrote(z, Dev(), d, own, start, buf, start + from, leak0, n0, nr)
      requires nr == n0 ==> z == Now() && from == 0
      requires nr > n0 ==> at == 0
      modifies this, sb, sb.dev, sb.dev.blocks, sb.blockFreemap.v
      ensures sb.Valid() && Foreign() == old(Foreign()) && Framed(old(Now()), Dev())
      ensures nr >= MAX_FILE_BLOCKS ==> ret == -EFBIG && Now() == old(Now()) && Valid()
      ensures ret < 0 ==> leak == leak0
      ensures |d.direct| == NR_DIRECT_BLOCKS && own.Keys <= sb.Used()
      ensures nr < MAX_FILE_BLOCKS ==> |z.d.direct| == NR_DIRECT_BLOCKS
      ensures nr < MAX_FILE_BLOCKS && old(sb.Free()) >= StepNeeds(z.dev, z.d, n0, nr) ==>
                && ret >= 0 && Valid() && sb.Free() == old(sb.Free()) - StepNeeds(z.dev, z.d, n0, nr)
                && Wrote(z, Dev(), d, own, start, buf, start + from + n, leak, n0, nr + 1)
                && Leaked(z, Dev(), d, leak, n0, nr)
                && d.size == old(d).size && d.itype == old(d).itype
      ensures nr < MAX_FILE_BLOCKS && old(sb.Free()) < StepNeeds(z.dev, z.d, n0, nr) ==>
                && ret == -ENOSPC && sb.Free() == old(sb.Free()) && own == old(own)
                && d == old(d).(dindirect := d.dindirect)
                && (Valid() <==> !StrandsAt(z.dev, z.d, old(sb.Free()), n0, nr))
                && (Valid() ==>
                      && d == old(d) && (forall b | b in own :: Dev()[b] == old(Dev())[b])
                      && Wrote(z, Dev(), d, own, start, buf, start + from, leak0, n0, nr))
    {
      hide Entry, Populated, SuperBlock.Valid, SuperBlock.Used, Bitmap.Valid, Owns, Ptr, Needs, DataRole, Fetched,
           Dangling, Child, Grown, Progress, Expected, Filled, StepNeeds, Path, CopyIn, Leaked;
      sb.UsedRange();
      assert this !in sb.Repr();
      ghost var y := Now();
      Roots(y.dev, y.d, y.own);
      if nr < MAX_FILE_BLOCKS {
        ProgressFacts(z, Dev(), d, own, n0, nr);
        ProgressNeeds(z, Dev(), d, own, n0, nr);
      }
      ret, block := AllocateBlock(nr, block0);
      leak := leak0;
      sb.UsedRange();
      if ret < 0 {
        if nr < MAX_FILE_BLOCKS && Valid() {
          WroteFrame(z, y.dev, Dev(), d, own, start, buf, start + from, leak0, n0, nr);
        }
        return;
      }
      leak := block;
      CopiedIn(z, y.dev, y.d, at, start, buf, from, n, n0, nr);
      block := CopyIn(block, at, buf, from, n);
      WroteStep(z, y.dev, y.d, y.own, Dev(), d, own, block, start, buf, start + from, start + from + n, leak0, n0, nr);
      LeakStored(z, y.dev, y.d, y.own, Dev(), d, own, block, n0, nr);
      sb.WriteBlock(ret, block);
      ProgressFacts(z, Dev(), d, own, n0, nr + 1);
    }

    /** testfs_write_data: every block of the window is mapped and filled in turn; the write stops
        at the first block that does not exist or cannot be allocated. */
    method WriteData(buf: seq<byte>, start: nat) returns (ret: int, ghost leak: Block)
      requires Valid() && |buf| <= INT_MAX
      modifies this, sb, sb.dev, sb.dev.blocks, sb.blockFreemap.v
      ensures sb.Valid() && Foreign() == old(Foreign()) && Framed(old(Now()), Dev())
      ensures |old(d).direct| == NR_DIRECT_BLOCKS && own.Keys <= sb.Used() && d.itype == old(d).itype
      ensures var n0, n1 := start / BLOCK_SIZE, LastBlock(start, |buf|);
        var (m, left) := Reach(old(Dev()), old(d), old(sb.Free()), n0, n0, n1);
        && sb.Free() == left
        && (m > n1 ==>
              && ret == |buf| && Valid()
              && Wrote(old(Now()), Dev(), d, own, start, buf, start + |buf|, leak, n0, n1 + 1)
              && n1 < MAX_FILE_BLOCKS && Leaked(old(Now()), Dev(), d, leak, n0, n1)
              && d.size == (if |buf| > 0 then Max(old(d).size, start + |buf|) else old(d).size))
        && (m <= n1 ==>
              && ret == (if m >= MAX_FILE_BLOCKS then -EFBIG else -ENOSPC)
              && d.size == (if n0 < n1 == m then MAX_FILE_SIZE else old(d).size)
              && (Valid() <==> !StrandsAt(old(Dev()), old(d), left, n0, m))
              && (m == n0 && Valid() ==>
                    d == old(d) && own == old(own) && forall b | b in own :: Dev()[b] == old(Dev())[b])
              && (m > n0 && Valid() ==>
                    Wrote(old(Now()), Dev(), d, own, start, buf, m * BLOCK_SIZE, leak, n0, m)))
    {
      hide Entry, Populated, SuperBlock.Valid, SuperBlock.Used, Bitmap.Valid, Owns, Ptr, StepNeeds, Wrote, Leaked;
      assert this !in sb.Repr();
      ghost var z := Now();
      var block := ZeroBlock();
      leak := block;
      var block_nr, block_ix, size := start / BLOCK_SIZE, start % BLOCK_SIZE, |buf|;
      Roots(Dev(), d, own);
      if block_nr < MAX_FILE_BLOCKS {
        WroteStart(z, start, buf, leak, block_nr);
      }
      if block_ix + size > BLOCK_SIZE {
        ret, block, leak := PutPart(block_nr, block, block_ix, buf, 0, BLOCK_SIZE - block_ix, z, start, leak, block_nr);
        if ret < 0 {
          return;
        }
        ret, leak := WriteRest(buf, start, block, z, leak);
        return;
      }
      ret, block, leak := PutPart(block_nr, block, block_ix, buf, 0, size, z, start, leak, block_nr);
      if ret < 0 {
        return;
      }
      Grow(start, buf, z, leak, block_nr);
      return size, leak;
    }

    /** Lines 268-271 and 281-284: i_size becomes the end of the window if that is further. */
    method Grow(start: nat, buf: seq<byte>, ghost z: Snap, ghost leak: Block, ghost e: nat)
      requires Valid() && e < MAX_FILE_BLOCKS && start + |buf| <= (e + 1) * BLOCK_SIZE
      requires Wrote(z, Dev(), d, own, start, buf, start + |buf|, leak, start / BLOCK_SIZE, e + 1)
      requires |z.d.direct| == NR_DIRECT_BLOCKS && Leaked(z, Dev(), d, leak, start / BLOCK_SIZE, e)
      modifies this`d, this`dirty
      ensures Valid() && dirty
      ensures d == old(d).(size := if |buf| > 0 then Max(old(d).size, start + |buf|) else old(d).size)
      ensures Wrote(z, Dev(), d, own, start, buf, start + |buf|, leak, start / BLOCK_SIZE, e + 1)
      ensures Leaked(z, Dev(), d, leak, start / BLOCK_SIZE, e)
    {
      hide SuperBlock.Valid, SuperBlock.Used, Bitmap.Valid, Owns, Populated, Wrote, LeakyAt;
      assert this !in sb.Repr();
      if |buf| > 0 {
        WroteResize(z, Dev(), d, own, start, buf, start + |buf|, leak, start / BLOCK_SIZE, e + 1,
                    Max(d.size, start + |buf|));
        d := d.(size := Max(d.size, start + |buf|));
      }
      dirty := true;
    }

    /** Lines 248-259, once the first block is written: the blocks that are overwritten whole. */
    method WriteWhole(buf: seq<byte>, start: nat, block0: Block, ghost z: Snap, ghost leak0: Block)
      returns (ret: int, increment: nat, leftover_size: nat, block: Block, ghost leak: Block)
      requires Valid() && start / BLOCK_SIZE < MAX_FILE_BLOCKS && start % BLOCK_SIZE + |buf| > BLOCK_SIZE
      requires |z.d.direct| == NR_DIRECT_BLOCKS
      requires var n0 := start / BLOCK_SIZE;
        Wrote(z, Dev(), d, own, start, buf, (n0 + 1) * BLOCK_SIZE, leak0, n0, n0 + 1)
      modifies this, sb, sb.dev, sb.dev.blocks, sb.blockFreemap.v
      ensures sb.Valid() && Foreign() == old(Foreign()) && Framed(old(Now()), Dev())
      ensures d.size == old(d).size && d.itype == old(d).itype && own.Keys <= sb.Used()
      ensures var n0, n1 := start / BLOCK_SIZE, LastBlock(start, |buf|);
        var m := n0 + increment;
        && n0 < m <= n1 && m <= MAX_FILE_BLOCKS
        && Reach(z.dev, z.d, old(sb.Free()), n0, n0 + 1, n1) == Reach(z.dev, z.d, sb.Free(), n0, m, n1)
        && (Valid() ==> Wrote(z, Dev(), d, own, start, buf, m * BLOCK_SIZE, leak, n0, m))
        && (ret >= 0 ==>
              && Valid() && m == n1
              && start + |buf| == n1 * BLOCK_SIZE + leftover_size && 0 < leftover_size <= BLOCK_SIZE)
        && (ret < 0 ==>
              && m < n1 && ret == (if m >= MAX_FILE_BLOCKS then -EFBIG else -ENOSPC)
              && (m < MAX_FILE_BLOCKS ==> sb.Free() < StepNeeds(z.dev, z.d, n0, m))
              && (Valid() <==> !StrandsAt(z.dev, z.d, sb.Free(), n0, m)))
    {
      hide Entry, Populated, SuperBlock.Valid, SuperBlock.Used, Bitmap.Valid, Owns, Ptr, StepNeeds, Wrote, Leaked;
      assert this !in sb.Repr();
      ghost var y := Now();
      var block_nr, block_ix, size := start / BLOCK_SIZE, start % BLOCK_SIZE, |buf|;
      block, leak, ret := block0, leak0, 0;
      leftover_size := size - BLOCK_SIZE + block_ix;
      increment := 1;
      while leftover_size > BLOCK_SIZE
        invariant increment >= 1 && leftover_size == size - BLOCK_SIZE * increment + block_ix > 0 && ret >= 0
        invariant Valid() && Foreign() == old(Foreign()) && Framed(y, Dev())
        invariant d.size == y.d.size && d.itype == y.d.itype && block_nr + increment <= MAX_FILE_BLOCKS
        invariant Wrote(z, Dev(), d, own, start, buf, (block_nr + increment) * BLOCK_SIZE, leak, block_nr,
                        block_nr + increment)
        invariant Reach(z.dev, z.d, y.free, block_nr, block_nr + 1, LastBlock(start, size))
               == Reach(z.dev, z.d, sb.Free(), block_nr, block_nr + increment, LastBlock(start, size))
      {
        ret, block, leak := PutPart(block_nr + increment, block, 0, buf, BLOCK_SIZE * increment - block_ix, BLOCK_SIZE,
                                    z, start, leak, block_nr);
        if ret < 0 {
          return;
        }
        leftover_size := leftover_size - BLOCK_SIZE;
        increment := increment + 1;
      }
    }

    /** Lines 248-272, once the first block is written: the whole blocks and the last one. */
    method WriteRest(buf: seq<byte>, start: nat, block0: Block, ghost z: Snap, ghost leak0: Block)
      returns (ret: int, ghost leak: Block)
      requires Valid() && start / BLOCK_SIZE < MAX_FILE_BLOCKS && start % BLOCK_SIZE + |buf| > BLOCK_SIZE
      requires |z.d.direct| == NR_DIRECT_BLOCKS
      requires var n0 := start / BLOCK_SIZE;
        Wrote(z, Dev(), d, own, start, buf, (n0 + 1) * BLOCK_SIZE, leak0, n0, n0 + 1)
      modifies this, sb, sb.dev, sb.dev.blocks, sb.blockFreemap.v
      ensures sb.Valid() && Foreign() == old(Foreign()) && Framed(old(Now()), Dev())
      ensures own.Keys <= sb.Used() && d.itype == old(d).itype
      ensures var n0, n1 := start / BLOCK_SIZE, LastBlock(start, |buf|);
        var (m, left) := Reach(z.dev, z.d, old(sb.Free()), n0, n0 + 1, n1);
        && sb.Free() == left
        && (m > n1 ==>
              && ret == |buf| && Valid()
              && Wrote(z, Dev(), d, own, start, buf, start + |buf|, leak, n0, n1 + 1)
              && n1 < MAX_FILE_BLOCKS && Leaked(z, Dev(), d, leak, n0, n1)
              && d.size == Max(old(d).size, start + |buf|))
        && (m <= n1 ==>
              && ret == (if m >= MAX_FILE_BLOCKS then -EFBIG else -ENOSPC)
              && d.size == (if m == n1 then MAX_FILE_SIZE else old(d).size)
              && (Valid() <==> !StrandsAt(z.dev, z.d, left, n0, m))
              && (Valid() ==> Wrote(z, Dev(), d, own, start, buf, m * BLOCK_SIZE, leak, n0, m)))
    {
      hide Entry, Populated, SuperBlock.Valid, SuperBlock.Used, Bitmap.Valid, Owns, Ptr, StepNeeds, Wrote, Leaked;
      assert this !in sb.Repr();
      var block_nr, increment, leftover_size, block := start / BLOCK_SIZE, 1, 0, block0;
      ret, increment, leftover_size, block, leak := WriteWhole(buf, start, block, z, leak0);
      if ret < 0 {
        return;
      }
      ret, block, leak := PutPart(block_nr + increment, block, 0, buf, BLOCK_SIZE * increment - start % BLOCK_SIZE,
                                  leftover_size, z, start, leak, block_nr);
      if ret < 0 {
        SetMaxSize(start, buf, (block_nr + increment) * BLOCK_SIZE, z, leak, block_nr, block_nr + increment);
        return;
      }
      Grow(start, buf, z, leak, block_nr + increment);
      return |buf|, leak;
    }

    /** Lines 262-263: when the last block cannot be mapped, i_size becomes the largest file size. */
    method SetMaxSize(ghost start: nat, ghost buf: seq<byte>, ghost wend: nat, ghost z: Snap, ghost leak: Block,
                      ghost n0: nat, ghost e: nat)
      requires sb.Valid() && 0 <= d.size <= MAX_FILE_SIZE && |d.direct| == NR_DIRECT_BLOCKS
      requires Valid() ==> Wrote(z, Dev(), d, own, start, buf, wend, leak, n0, e)
      modifies this`d, this`dirty
      ensures sb.Valid() && (Valid() <==> old(Valid())) && d == old(d).(size := MAX_FILE_SIZE) && dirty
      ensures Valid() ==> Wrote(z, Dev(), d, own, start, buf, wend, leak, n0, e)
    {
      hide SuperBlock.Valid, SuperBlock.Used, Bitmap.Valid, Owns, Populated, Wrote;
      assert this !in sb.Repr();
      ResizeIff(Dev(), d, own, MAX_FILE_SIZE);
      if Valid() {
        WroteResize(z, Dev(), d, own, start, buf, wend, leak, n0, e, MAX_FILE_SIZE);
      }
      d := d.(size := MAX_FILE_SIZE);
      dirty := true;
    }

    /** testfs_free_block_from_inode, as one step of the release at role r. */
    method FreeAt(p: int, ghost z: Snap, ghost e: nat, ghost r: Role, ghost t: Point, ghost t': Point)
      requires sb.Valid() && Freeing(z, Dev(), d.blockCount, sb.Used(), sb.Free(), e, t)
      requires ValidRole(r) && OneStep(r, t, t') && Due(r, e) && |z.d.direct| == NR_DIRECT_BLOCKS
      requires p == Ptr(z.dev, z.d, r)
      modifies this`d, this`dirty, sb, sb.dev, sb.dev.blocks, sb.blockFreemap.v
      ensures sb.Valid() && Freeing(z, Dev(), d.blockCount, sb.Used(), sb.Free(), e, t')
      ensures d == old(d).(blockCount := d.blockCount)
    {
      hide SuperBlock.Valid, SuperBlock.Used, Bitmap.Valid, Freeing, Owns, Ptr, Due, Passed;
      FreeingFacts(z, Dev(), d.blockCount, sb.Used(), sb.Free(), e, t);
      StepPasses(r, t, t', r);
      StillThere(z, Dev(), d.blockCount, sb.Used(), sb.Free(), e, r, t);
      assert this !in sb.Repr();
      FreeBlockFromInode(p);
      FreeStep(z, old(Dev()), old(d).blockCount, old(sb.Used()), old(sb.Free()),
               Dev(), d.blockCount, sb.Used(), sb.Free(), e, r, t, t');
    }

    /** testfs_free_blocks, lines 299-304 */
    method FreeDirect(e: nat, ghost z: Snap)
      requires sb.Valid() && z.d == d && Freeing(z, Dev(), d.blockCount, sb.Used(), sb.Free(), e, AtDirect(0))
      modifies this`d, this`dirty, sb, sb.dev, sb.dev.blocks, sb.blockFreemap.v
      ensures sb.Valid() && Freeing(z, Dev(), d.blockCount, sb.Used(), sb.Free(), e, AtIndirect(0))
      ensures |d.direct| == |z.d.direct| == NR_DIRECT_BLOCKS
      ensures d == z.d.(blockCount := d.blockCount, direct := d.direct)
      ensures forall k | 0 <= k < NR_DIRECT_BLOCKS :: d.direct[k] == if k < e then 0 else z.d.direct[k]
    {
      hide SuperBlock.Valid, SuperBlock.Used, Bitmap.Valid, Freeing, Owns;
      assert this !in sb.Repr();
      FreeingFacts(z, Dev(), d.blockCount, sb.Used(), sb.Free(), e, AtDirect(0));
      var i := 0;
      while i < e && i < NR_DIRECT_BLOCKS
        invariant 0 <= i <= NR_DIRECT_BLOCKS && (i <= e || i == 0)
        invariant sb.Valid() && Freeing(z, Dev(), d.blockCount, sb.Used(), sb.Free(), e, AtDirect(i))
        invariant |d.direct| == NR_DIRECT_BLOCKS && d == z.d.(blockCount := d.blockCount, direct := d.direct)
        invariant forall k | 0 <= k < NR_DIRECT_BLOCKS :: d.direct[k] == if k < i then 0 else z.d.direct[k]
      {
        FreeAt(d.direct[i], z, e, Direct(i), AtDirect(i), AtDirect(i + 1));
        d := d.(direct := d.direct[i := 0]);
        i := i + 1;
      }
      SkipDirect(z, Dev(), d.blockCount, sb.Used(), sb.Free(), e, i);
    }

    /** testfs_free_blocks, lines 311-314: the blocks entered in the single-indirect table. */
    method FreeChildren(block: Block, e: nat, ghost z: Snap)
      requires sb.Valid() && Freeing(z, Dev(), d.blockCount, sb.Used(), sb.Free(), e, AtIndirect(0))
      requires |z.d.direct| == NR_DIRECT_BLOCKS
      requires forall i: nat | i < NR_INDIRECT_BLOCKS :: Entry(block, i) == Ptr(z.dev, z.d, IndChild(i))
      modifies this`d, this`dirty, sb, sb.dev, sb.dev.blocks, sb.blockFreemap.v
      ensures sb.Valid() && Freeing(z, Dev(), d.blockCount, sb.Used(), sb.Free(), e, AtIndirect(NR_INDIRECT_BLOCKS))
      ensures d == old(d).(blockCount := d.blockCount)
    {
      hide SuperBlock.Valid, SuperBlock.Used, Bitmap.Valid, Freeing, Owns, Entry, Ptr;
      assert this !in sb.Repr();
      var e_block_nr := e - NR_DIRECT_BLOCKS;
      var i := 0;
      while i < e_block_nr && i < NR_INDIRECT_BLOCKS
        invariant 0 <= i <= NR_INDIRECT_BLOCKS && (i <= e_block_nr || i == 0)
        invariant sb.Valid() && Freeing(z, Dev(), d.blockCount, sb.Used(), sb.Free(), e, AtIndirect(i))
        invariant d == old(d).(blockCount := d.blockCount)
      {
        FreeAt(Entry(block, i), z, e, IndChild(i), AtIndirect(i), AtIndirect(i + 1));
        i := i + 1;
      }
      FreeSkip(z, Dev(), d.blockCount, sb.Used(), sb.Free(), e, AtIndirect(i), AtIndirect(NR_INDIRECT_BLOCKS));
    }

    /** testfs_free_blocks, lines 307-317; here e is the last block number of line 296. */
    method FreeIndirect(e: nat, ghost z: Snap)
      requires sb.Valid() && d.indirect == z.d.indirect
      requires Freeing(z, Dev(), d.blockCount, sb.Used(), sb.Free(), e, AtIndirect(0))
      modifies this`d, this`dirty, sb, sb.dev, sb.dev.blocks, sb.blockFreemap.v
      ensures sb.Valid() && Freeing(z, Dev(), d.blockCount, sb.Used(), sb.Free(), e, AtDouble(0, 0))
      ensures d == old(d).(blockCount := d.blockCount, indirect := 0)
    {
      hide SuperBlock.Valid, SuperBlock.Used, Bitmap.Valid, Freeing, Owns, Entry;
      assert this !in sb.Repr();
      hide Ptr, Child;
      FreeingFacts(z, Dev(), d.blockCount, sb.Used(), sb.Free(), e, AtIndirect(0));
      Roots(z.dev, z.d, z.own);
      if d.indirect > 0 {
        IndirectEntries(z);
        StillThere(z, Dev(), d.blockCount, sb.Used(), sb.Free(), e, Ind, AtIndirect(0));
        var block := sb.dev.blocks[d.indirect];
        FreeChildren(block, e, z);
        FreeAt(d.indirect, z, e, Ind, AtIndirect(NR_INDIRECT_BLOCKS), AtDouble(0, 0));
        d := d.(indirect := 0);
      } else {
        SkipIndirect(z, Dev(), d.blockCount, sb.Used(), sb.Free(), e);
      }
    }

    /** testfs_free_blocks, lines 333-340: the blocks of one group and its table. */
    method FreeGroup(i: nat, s: int, counter0: nat, e: nat, ghost z: Snap) returns (counter: nat)
      requires sb.Valid() && Freeing(z, Dev(), d.blockCount, sb.Used(), sb.Free(), e, AtDouble(i, 0))
      requires |z.d.direct| == NR_DIRECT_BLOCKS
      requires i < NR_INDIRECT_BLOCKS && s == Ptr(z.dev, z.d, Sec(i)) > 0
      requires counter0 == i * NR_INDIRECT_BLOCKS && FIRST_DOUBLE + counter0 < e
      modifies this`d, this`dirty, sb, sb.dev, sb.dev.blocks, sb.blockFreemap.v
      ensures sb.Valid() && Freeing(z, Dev(), d.blockCount, sb.Used(), sb.Free(), e, AtDouble(i + 1, 0))
      ensures d == old(d).(blockCount := d.blockCount)
      ensures counter == (i + 1) * NR_INDIRECT_BLOCKS || (i + 1) * NR_INDIRECT_BLOCKS >= counter == e - FIRST_DOUBLE
    {
      hide SuperBlock.Valid, SuperBlock.Used, Bitmap.Valid, Freeing, Owns, Entry;
      assert this !in sb.Repr();
      FreeingFacts(z, Dev(), d.blockCount, sb.Used(), sb.Free(), e, AtDouble(i, 0));
      TablePtrs(z.dev, z.d);
      StillThere(z, Dev(), d.blockCount, sb.Used(), sb.Free(), e, Sec(i), AtDouble(i, 0));
      var e_block_nr := e - FIRST_DOUBLE;
      var direct_block := sb.dev.blocks[s];
      var j := 0;
      counter := counter0;
      while counter < e_block_nr && j < NR_INDIRECT_BLOCKS
        invariant 0 <= j <= NR_INDIRECT_BLOCKS && counter == counter0 + j && counter <= e_block_nr
        invariant sb.Valid() && Freeing(z, Dev(), d.blockCount, sb.Used(), sb.Free(), e, AtDouble(i, j))
        invariant d == old(d).(blockCount := d.blockCount)
      {
        FreeAt(Entry(direct_block, j), z, e, Leaf(i, j), AtDouble(i, j), AtDouble(i, j + 1));
        j := j + 1;
        counter := counter + 1;
      }
      SkipEnd(z, Dev(), d.blockCount, sb.Used(), sb.Free(), e, i, j);
      FreeAt(s, z, e, Sec(i), AtDouble(i, NR_INDIRECT_BLOCKS), AtDouble(i + 1, 0));
    }

    /** testfs_free_block_from_inode of a number that is no block of this inode. Block 0 is passed over;
        for one that is not in use an assert of testfs_free_block or of bitmap_unmark fails; any other is
        taken from the inode that owns it. */
    method FreeStray(p: int) returns (ok: bool)
      requires sb.Valid()
      modifies this`d, this`dirty, sb, sb.dev, sb.dev.blocks, sb.blockFreemap.v
      ensures ok <==> p == 0 || p in old(sb.Used())
      ensures ok && p > 0 ==> p >= DATA_BLOCKS_START
      ensures sb.Valid()
      ensures d == old(d).(blockCount := if ok && p != 0 then old(d).blockCount - 1 else old(d).blockCount)
    {
      hide SuperBlock.Valid, Bitmap.Valid, Bitmap.Bits;
      assert this !in sb.Repr();
      InUseElement(sb.blockFreemap.Bits(), p);
      if p == 0 {
        return true;
      } else if p < DATA_BLOCKS_START || p - DATA_BLOCKS_START >= NR_BLOCK_BITS {
        sb.UsedRange();
        return false;
      }
      ok := sb.blockFreemap.IsSet(p - DATA_BLOCKS_START);
      if ok {
        FreeBlockFromInode(p);
      }
    }

    /** testfs_free_blocks, lines 333-340, for a number t that is no table of this inode. */
    method FreeStrayGroup(t: int, counter0: nat, e_block_nr: nat) returns (ok: bool, counter: nat)
      requires sb.Valid() && 0 < t
      modifies this`d, this`dirty, sb, sb.dev, sb.dev.blocks, sb.blockFreemap.v
      ensures sb.Valid() && d == old(d).(blockCount := d.blockCount)
      ensures ok ==> t >= DATA_BLOCKS_START
    {
      hide SuperBlock.Valid, SuperBlock.Used, Bitmap.Valid, Entry;
      assert this !in sb.Repr();
      counter := counter0;
      if t >= NR_BLOCKS {
        return false, counter;
      }
      var direct_block := sb.dev.blocks[t];
      var j := 0;
      while counter < e_block_nr && j < NR_INDIRECT_BLOCKS
        invariant 0 <= j <= NR_INDIRECT_BLOCKS && sb.Valid()
        invariant d == old(d).(blockCount := d.blockCount)
      {
        ok := FreeStray(Entry(direct_block, j));
        if !ok {
          return;
        }
        j := j + 1;
        counter := counter + 1;
      }
      ok := FreeStray(t);
    }

    /** testfs_free_blocks, lines 320-346, when i_dindirect is 0: line 323 reads block 0, and what it says is
        taken for the numbers of tables. The first of them is itself given back, so that no assert fails and no
        read runs past the device only if it is a data block. */
    method FreeStrays(e: nat, block: Block) returns (ok: bool)
      requires sb.Valid() && e > FIRST_DOUBLE && d.dindirect == 0
      modifies this`d, this`dirty, sb, sb.dev, sb.dev.blocks, sb.blockFreemap.v
      ensures sb.Valid() && d == old(d).(blockCount := d.blockCount)
      ensures ok ==> Entry(block, 0) <= 0 || Entry(block, 0) >= DATA_BLOCKS_START
    {
      hide SuperBlock.Valid, SuperBlock.Used, Bitmap.Valid, Entry;
      assert this !in sb.Repr();
      var e_block_nr := e - FIRST_DOUBLE;
      var counter, i := 0, 0;
      ok := true;
      while counter < e_block_nr && i < NR_INDIRECT_BLOCKS
        invariant 0 <= i <= NR_INDIRECT_BLOCKS && counter >= 0 && ok && sb.Valid()
        invariant d == old(d).(blockCount := d.blockCount)
        invariant if i == 0 then counter == 0 else Entry(block, 0) <= 0 || Entry(block, 0) >= DATA_BLOCKS_START
        decreases NR_INDIRECT_BLOCKS - i
      {
        if Entry(block, i) <= 0 {
          counter := counter + NR_INDIRECT_BLOCKS;
        } else {
          ok, counter := FreeStrayGroup(Entry(block, i), counter, e_block_nr);
          if !ok {
            return;
          }
        }
        i := i + 1;
      }
      ok := FreeStray(d.dindirect);
    }

    /** testfs_free_blocks, lines 319-346: the double-indirect table. When the loop runs without one, the first
        field of the super block is taken for the number of a table, and an assert fails. */
    method FreeDouble(e: nat, ghost z: Snap) returns (ok: bool)
      requires sb.Valid() && d.dindirect == z.d.dindirect
      requires Freeing(z, Dev(), d.blockCount, sb.Used(), sb.Free(), e, AtDouble(0, 0))
      modifies this`d, this`dirty, sb, sb.dev, sb.dev.blocks, sb.blockFreemap.v
      ensures sb.Valid()
      ensures d == old(d).(blockCount := d.blockCount, dindirect := if e >= FIRST_DOUBLE then 0 else old(d).dindirect)
      ensures !(e > FIRST_DOUBLE && z.d.dindirect == 0) ==>
                ok && Freeing(z, Dev(), d.blockCount, sb.Used(), sb.Free(), e, Done)
      ensures e > FIRST_DOUBLE && z.d.dindirect == 0 ==> !ok
    {
      hide SuperBlock.Valid, SuperBlock.Used, Bitmap.Valid, Freeing, Owns, Entry, SuperImage;
      assert this !in sb.Repr();
      FreeingFacts(z, Dev(), d.blockCount, sb.Used(), sb.Free(), e, AtDouble(0, 0));
      Roots(z.dev, z.d, z.own);
      TablePtrs(z.dev, z.d);
      if e > FIRST_DOUBLE && d.dindirect == 0 {
        ok := FreeStrays(e, SuperImage(sb.dev.super));
        return;
      }
      ok := true;
      var e_block_nr := e - NR_DIRECT_BLOCKS - NR_INDIRECT_BLOCKS;
      if e_block_nr >= 0 {
        StillThere(z, Dev(), d.blockCount, sb.Used(), sb.Free(), e, Dind, AtDouble(0, 0));
        var block := sb.dev.blocks[d.dindirect];
        var counter, i := 0, 0;
        while counter < e_block_nr && i < NR_INDIRECT_BLOCKS
          invariant 0 <= i <= NR_INDIRECT_BLOCKS && counter >= 0
          invariant counter == i * NR_INDIRECT_BLOCKS || i * NR_INDIRECT_BLOCKS >= counter == e_block_nr
          invariant sb.Valid() && Freeing(z, Dev(), d.blockCount, sb.Used(), sb.Free(), e, AtDouble(i, 0))
          invariant d == old(d).(blockCount := d.blockCount)
        {
          assert Entry(block, i) == Ptr(z.dev, z.d, Sec(i));
          if Entry(block, i) <= 0 {
            PtrRange(z.dev, z.d, z.own, Sec(i));
            SkipGroup(z, Dev(), d.blockCount, sb.Used(), sb.Free(), e, i);
            counter := counter + NR_INDIRECT_BLOCKS;
          } else {
            counter := FreeGroup(i, Entry(block, i), counter, e, z);
          }
          i := i + 1;
        }
        SkipGroups(z, Dev(), d.blockCount, sb.Used(), sb.Free(), e, i);
        FreeAt(d.dindirect, z, e, Dind, AtDouble(NR_INDIRECT_BLOCKS, 0), Done);
        d := d.(dindirect := 0);
      } else {
        SkipDouble(z, Dev(), d.blockCount, sb.Used(), sb.Free(), e);
      }
    }

    /** testfs_free_blocks; ok says that no assert fails and no read runs past the device, which is so exactly
        unless line 323 reads block 0. block_count comes down to 0, as testfs_remove_inode asserts, exactly when
        the file is removable; then every owned block has been freed once and the inode is empty. */
    method FreeBlocks() returns (ok: bool)
      requires Valid()
      modifies this, sb, sb.dev, sb.dev.blocks, sb.blockFreemap.v
      ensures sb.Valid() && |old(d).direct| == NR_DIRECT_BLOCKS
      ensures ok <==> !(DivRoundUp(old(d).size, BLOCK_SIZE) > FIRST_DOUBLE && old(d).dindirect == 0)
      ensures ok && d.blockCount == 0 <==> Removable(old(Dev()), old(d))
      ensures var e := DivRoundUp(old(d).size, BLOCK_SIZE);
        !(e > FIRST_DOUBLE && old(d).dindirect == 0) ==>
          && ok && d.size == 0 && dirty
          && sb.Used() - old(own).Keys == old(sb.Used()) - old(own).Keys && Framed(old(Now()), Dev())
      ensures Removable(old(Dev()), old(d)) ==>
                && Valid() && own == map[] && d == EmptyInode(old(d).itype) && Framed(old(Now()), Dev())
                && sb.Used() == old(sb.Used()) - old(own).Keys && sb.Free() == old(sb.Free()) + |old(own)|
    {
      hide SuperBlock.Valid, SuperBlock.Used, Bitmap.Valid, Freeing, Owns, Populated;
      ghost var z := Now();
      var e := DivRoundUp(d.size, BLOCK_SIZE);
      Roots(z.dev, z.d, z.own);
      assert this !in sb.Repr();
      FreeingStart(z, e);
      FreeDirect(e, z);
      FreeIndirect(e, z);
      ok := FreeDouble(e, z);
      d := d.(size := 0);
      dirty := true;
      if !(e > FIRST_DOUBLE && z.d.dindirect == 0) {
        FreeingDone(z, Dev(), d.blockCount, sb.Used(), sb.Free(), e);
        own := if Covers(z.dev, z.d, e) then map[] else Remaining(z.own, e, Done);
        if Covers(z.dev, z.d, e) {
          CoveredRest(z, e);
          assert d == EmptyInode(z.d.itype);
          EmptyOwns(Dev(), z.d.itype);
        }
      }
    }
  }

  /** How many of the two tables above a block of group i there are not. */
  function TablesMissing(dev: seq<Block>, d: DInode, i: nat): nat
    requires |d.direct| == NR_DIRECT_BLOCKS && i < NR_INDIRECT_BLOCKS
  {
    if d.dindirect == 0 then 2 else if Ptr(dev, d, Sec(i)) == 0 then 1 else 0
  }

  /** memcpy(buf + at, block + from, n) */
  method CopyOut(buf: array<byte>, at: nat, block: Block, from: nat, n: nat)
    requires at + n <= buf.Length && from + n <= BLOCK_SIZE
    modifies buf
    ensures forall i | 0 <= i < buf.Length :: buf[i] == if at <= i < at + n then block[from + i - at] else old(buf[i])
  {
    forall i | at <= i < at + n {
      buf[i] := block[from + i - at];
    }
  }

  /** The double-indirect table is there: found, or just taken and not yet written. */
  ghost predicate AfterDouble(z: Snap, dev: seq<Block>, d: DInode, used: set<int>, free: int, di_block: Block,
                              isNew: bool)
  {
    && SameData(z.dev, dev)
    && DATA_BLOCKS_START <= d.dindirect < NR_BLOCKS
    && if isNew then
         && z.d.dindirect == 0 && di_block == ZeroBlock()
         && d == z.d.(dindirect := d.dindirect, blockCount := z.d.blockCount + 1)
         && d.dindirect !in z.used && used == z.used + {d.dindirect} && free == z.free - 1
       else
         && d == z.d && di_block == z.dev[d.dindirect] && used == z.used && free == z.free
  }

  /** The second-level table s is there: found, or just taken and entered in the table above it. */
  ghost predicate AfterSecond(z: Snap, dev: seq<Block>, d: DInode, used: set<int>, free: int,
                              i: nat, s: int, indirect: Block, diNew: bool, indNew: bool)
    requires i < NR_INDIRECT_BLOCKS
  {
    && |dev| == |z.dev| == NR_BLOCKS
    && DATA_BLOCKS_START <= d.dindirect < NR_BLOCKS && DATA_BLOCKS_START <= s < NR_BLOCKS
    && (diNew ==> indNew)
    && if indNew then
         && indirect == ZeroBlock() && s !in z.used && s != d.dindirect
         && (forall b | INODE_BLOCKS_START <= b < NR_BLOCKS && b != d.dindirect :: dev[b] == z.dev[b])
         && if diNew then
              && z.d.dindirect == 0 && dev[d.dindirect] == WithEntry(ZeroBlock(), i, s)
              && d == z.d.(dindirect := d.dindirect, blockCount := z.d.blockCount + 2)
              && d.dindirect !in z.used && used == z.used + {d.dindirect, s} && free == z.free - 2
            else
              && d == z.d.(blockCount := z.d.blockCount + 1) && used == z.used + {s} && free == z.free - 1
              && Child(z.dev, z.d.dindirect, i) == 0 && dev[d.dindirect] == WithEntry(z.dev[d.dindirect], i, s)
       else
         && SameData(z.dev, dev) && d == z.d && used == z.used && free == z.free
         && s == Child(z.dev, z.d.dindirect, i) && indirect == z.dev[s]
  }

  /** What each arm of testfs_allocate_block promises is enough to tell whether the inode is still
      well formed. */
  lemma Allocated(z: Snap, dev: seq<Block>, d: DInode, own: map<int, Role>, used: set<int>, log: nat, free: int)
    requires log < MAX_FILE_BLOCKS && free == z.free
    requires Owns(z.dev, z.d, z.own) && Populated(z.dev, z.d) && z.own.Keys <= z.used && |dev| == |z.dev|
    requires free >= Needs(z.dev, z.d, log) ==> Grown(z.dev, z.d, z.own, dev, d, own, log) && own.Keys <= used
    requires free < Needs(z.dev, z.d, log) ==> own == z.own && used == z.used
    requires free < Needs(z.dev, z.d, log) && !Strands(z.dev, z.d, log, free) ==>
               d == z.d && forall b | b in own && b < |dev| :: dev[b] == z.dev[b]
    requires Strands(z.dev, z.d, log, free) ==> |d.direct| == NR_DIRECT_BLOCKS && Dangling(dev, d, used)
    ensures free >= Needs(z.dev, z.d, log) ==>
              Ptr(dev, d, DataRole(log)) in own && d.size == z.d.size && d.itype == z.d.itype
    ensures Owns(dev, d, own) && Populated(dev, d) && own.Keys <= used <==> !Strands(z.dev, z.d, log, free)
  {
    hide Ptr, Needs, Populated, Entry;
    if free >= Needs(z.dev, z.d, log) {
      GrownPopulated(z.dev, z.d, z.own, dev, d, own, log);
      assert DataRole(log) in Path(log);
    } else if Strands(z.dev, z.d, log, free) {
      DanglingIsNotOwned(dev, d, own, used);
    } else {
      InodeFrame(z.dev, dev, d, own);
    }
  }

  lemma SecondEntry(z: Snap, dev: seq<Block>, d: DInode, used: set<int>, free: int, di_block: Block, isNew: bool,
                    i: nat)
    requires i < NR_INDIRECT_BLOCKS && Owns(z.dev, z.d, z.own) && z.own.Keys <= z.used
    requires AfterDouble(z, dev, d, used, free, di_block, isNew)
    ensures free == if isNew then z.free - 1 else z.free
    ensures isNew <==> z.d.dindirect == 0
    ensures d.dindirect in used && (Entry(di_block, i) == 0 || Entry(di_block, i) in used)
    ensures isNew ==> Entry(di_block, i) == 0
    ensures !isNew ==> Entry(di_block, i) == Ptr(z.dev, z.d, Sec(i)) == Child(z.dev, z.d.dindirect, i)
    ensures Entry(di_block, i) != 0 ==>
              DATA_BLOCKS_START <= Entry(di_block, i) < NR_BLOCKS && Entry(di_block, i) != d.dindirect
  {
    ZeroEntries();
    TablePtrs(z.dev, z.d);
    Roots(z.dev, z.d, z.own);
    hide Entry;
    if !isNew {
      PtrRange(z.dev, z.d, z.own, Sec(i));
      if Entry(di_block, i) != 0 {
        PointersDistinct(z.dev, z.d, z.own, Sec(i), Dind);
      }
    }
  }

  /** What line 185 finds, whichever of the two tables had to be taken. */
  lemma SecondStep(z: Snap, dev1: seq<Block>, d1: DInode, used1: set<int>, free1: int, di_block0: Block, diNew: bool,
                   dev: seq<Block>, d: DInode, used: set<int>, free: int,
                   i: nat, di_block: Block, indirect: Block, indNew: bool)
    requires i < NR_INDIRECT_BLOCKS && Owns(z.dev, z.d, z.own) && z.own.Keys <= z.used
    requires AfterDouble(z, dev1, d1, used1, free1, di_block0, diNew) && |dev| == NR_BLOCKS
    requires var s := Entry(di_block, i);
      if indNew then
        && Entry(di_block0, i) == 0 && s !in used1 && indirect == ZeroBlock() && di_block == WithEntry(di_block0, i, s)
        && d == d1.(blockCount := d1.blockCount + 1) && used == used1 + {s} && free == free1 - 1
        && DATA_BLOCKS_START <= s < NR_BLOCKS
      else
        && 0 < s < |dev1| && di_block == di_block0 && d == d1 && used == used1 && free == free1 && indirect == dev1[s]
    requires forall b | INODE_BLOCKS_START <= b < NR_BLOCKS ::
               dev[b] == if indNew && b == d.dindirect then di_block else dev1[b]
    ensures AfterSecond(z, dev, d, used, free, i, Entry(di_block, i), indirect, diNew, indNew)
    ensures z.used <= used && free == z.free - (if diNew then 1 else 0) - (if indNew then 1 else 0)
  {
    SecondEntry(z, dev1, d1, used1, free1, di_block0, diNew, i);
    hide Entry, WithEntry, Owns, Ptr, Child;
  }

  lemma AfterSecondDistinct(z: Snap, dev: seq<Block>, d: DInode, used: set<int>, free: int,
                            i: nat, s: int, indirect: Block, diNew: bool, indNew: bool)
    requires i < NR_INDIRECT_BLOCKS && Owns(z.dev, z.d, z.own) && z.own.Keys <= z.used
    requires AfterSecond(z, dev, d, used, free, i, s, indirect, diNew, indNew)
    ensures |d.direct| == NR_DIRECT_BLOCKS && s != 0
    ensures indNew ==> Entry(dev[d.dindirect], i) == s
    ensures d.dindirect in z.own || diNew
  {
    Roots(z.dev, z.d, z.own);
    if indNew {
      StoreEntry(if diNew then ZeroBlock() else z.dev[d.dindirect], i, s);
    }
  }
}
