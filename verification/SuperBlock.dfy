/** The super block of fs/super.c: two freemaps and their counters, written through to the
    device on every change, and the block allocator over them. */
module SuperBlocks {
  import opened Common
  import opened Bitmaps

  const SUPER_BLOCK_SIZE := 1
  const INODE_FREEMAP_SIZE := 1
  const BLOCK_FREEMAP_SIZE := 16
  const NR_INODE_BLOCKS := 128

  const INODE_FREEMAP_START := SUPER_BLOCK_SIZE
  const BLOCK_FREEMAP_START := INODE_FREEMAP_START + INODE_FREEMAP_SIZE
  const INODE_BLOCKS_START := BLOCK_FREEMAP_START + BLOCK_FREEMAP_SIZE
  const DATA_BLOCKS_START := INODE_BLOCKS_START + NR_INODE_BLOCKS

  const NR_INODE_BITS := BLOCK_SIZE * INODE_FREEMAP_SIZE * BITS_PER_WORD
  const NR_BLOCK_BITS := BLOCK_SIZE * BLOCK_FREEMAP_SIZE * BITS_PER_WORD
  const BITS_PER_BLOCK := BLOCK_SIZE * BITS_PER_WORD
  const NR_BLOCKS := DATA_BLOCKS_START + NR_BLOCK_BITS

  /** struct dsuper_block; its four region starts never change and are the constants above. */
  datatype DSuper = DSuper(usedInodeCount: nat, usedBlockCount: nat, maxFsBlocks: nat)

  /** The device: block 0 holds the super block structure, every other block holds bytes. */
  class Device {
    var super: DSuper
    const blocks: array<Block>

    constructor (blocks: array<Block>, super: DSuper)
      ensures this.blocks == blocks && this.super == super
    {
      this.blocks := blocks;
      this.super := super;
    }
  }

  /** The n device blocks from start hold exactly the bytes v. */
  ghost predicate Holds(blocks: seq<Block>, start: nat, n: nat, v: seq<byte>)
  {
    && start + n <= |blocks|
    && |v| == n * BLOCK_SIZE
    && (forall r: nat | r < n :: blocks[start + r] == v[r * BLOCK_SIZE..(r + 1) * BLOCK_SIZE])
  }

  /** Two byte strings held by the same blocks are equal. */
  lemma HoldsUnique(blocks: seq<Block>, start: nat, n: nat, v: seq<byte>, w: seq<byte>)
    requires Holds(blocks, start, n, v) && Holds(blocks, start, n, w)
    ensures v == w
  {
    forall i: nat | i < |v| ensures v[i] == w[i] {
      var r := i / BLOCK_SIZE;
      var b := blocks[start + r];
      assert b == v[r * BLOCK_SIZE..(r + 1) * BLOCK_SIZE] == w[r * BLOCK_SIZE..(r + 1) * BLOCK_SIZE];
      assert b[i % BLOCK_SIZE] == v[i] == w[i];
    }
  }

  /** After one bit changes, rewriting only the block that holds it brings the whole freemap on
      the device up to date. */
  lemma WriteThrough(blocks: seq<Block>, start: nat, n: nat, v: seq<byte>, i: nat, value: bool)
    requires Holds(blocks, start, n, v) && i < BITS_PER_WORD * |v|
    ensures var w, r := Stored(v, i, value), i / BITS_PER_BLOCK;
      && r < n
      && Holds(blocks[start + r := w[r * BLOCK_SIZE..(r + 1) * BLOCK_SIZE]], start, n, w)
  {
    var w, r := Stored(v, i, value), i / BITS_PER_BLOCK;
    hide StoredWord;
    forall q: nat | q < n && q != r
      ensures blocks[start + q] == w[q * BLOCK_SIZE..(q + 1) * BLOCK_SIZE]
    {
      assert i / BITS_PER_WORD / BLOCK_SIZE == r;
    }
  }

  /** The data blocks in use, by physical number. */
  function InUse(bits: set<nat>): set<int> {
    set i | i in bits :: DATA_BLOCKS_START + i
  }

  lemma InUseElement(bits: set<nat>, p: int)
    ensures p in InUse(bits) <==> p >= DATA_BLOCKS_START && p - DATA_BLOCKS_START in bits
  {
    if p >= DATA_BLOCKS_START && p - DATA_BLOCKS_START in bits {
      var i: nat := p - DATA_BLOCKS_START;
      assert DATA_BLOCKS_START + i in InUse(bits);
    }
  }

  lemma InUseChange(bits: set<nat>, i: nat)
    ensures InUse(bits + {i}) == InUse(bits) + {DATA_BLOCKS_START + i}
    ensures InUse(bits - {i}) == InUse(bits) - {DATA_BLOCKS_START + i}
  {
    forall p
      ensures p in InUse(bits + {i}) <==> p in InUse(bits) || p == DATA_BLOCKS_START + i
      ensures p in InUse(bits - {i}) <==> p in InUse(bits) && p != DATA_BLOCKS_START + i
    {
      InUseElement(bits, p);
      InUseElement(bits + {i}, p);
      InUseElement(bits - {i}, p);
    }
  }

  lemma {:induction false} InUseSize(bits: set<nat>)
    ensures |InUse(bits)| == |bits|
  {
    if bits != {} {
      var i :| i in bits;
      InUseSize(bits - {i});
      InUseChange(bits - {i}, i);
      InUseElement(bits - {i}, DATA_BLOCKS_START + i);
      assert bits - {i} + {i} == bits;
    }
  }

  lemma BitsBelow(b: Bitmap, index: nat)
    requires b.Valid() && index in b.Bits()
    ensures index < b.nbits
  {
  }

  /** A bitmap with as many elements as bits has every bit set. */
  lemma AllSet(b: Bitmap)
    requires b.Valid() && |b.Bits()| == b.nbits
    ensures forall i: nat | i < b.nbits :: i in b.Bits()
  {
    SetBitsBound(b.v[..], b.nbits);
  }

  lemma HoldsAgree(blocks: seq<Block>, blocks': seq<Block>, start: nat, n: nat, v: seq<byte>)
    requires Holds(blocks, start, n, v) && |blocks'| == |blocks|
    requires forall b | start <= b < start + n :: blocks'[b] == blocks[b]
    ensures Holds(blocks', start, n, v)
  {
  }

  /** Writing a block outside the freemap leaves it held. */
  lemma HoldsFrame(blocks: seq<Block>, nr: int, b: Block, start: nat, n: nat, v: seq<byte>)
    requires Holds(blocks, start, n, v) && 0 <= nr < |blocks| && !(start <= nr < start + n)
    ensures Holds(blocks[nr := b], start, n, v)
  {
  }

  class SuperBlock {
    var dsb: DSuper
    const dev: Device
    const inodeFreemap: Bitmap
    const blockFreemap: Bitmap

    ghost function Repr(): set<object> {
      {this, dev, dev.blocks, inodeFreemap.v, blockFreemap.v}
    }

    ghost predicate Shape() {
      && inodeFreemap.v != blockFreemap.v
      && dev.blocks as object !in {inodeFreemap.v, blockFreemap.v}
      && inodeFreemap.nbits == NR_INODE_BITS
      && blockFreemap.nbits == NR_BLOCK_BITS
      && dev.blocks.Length == NR_BLOCKS
    }

    /** Counters agree with the freemaps, and the device agrees with memory. */
    ghost predicate Valid()
      reads Repr()
      ensures Valid() ==> Shape() && blockFreemap.Valid() && inodeFreemap.Valid()
    {
      && Shape()
      && inodeFreemap.Valid() && blockFreemap.Valid()
      && dsb.usedInodeCount == |inodeFreemap.Bits()|
      && dsb.usedBlockCount == |blockFreemap.Bits()|
      && dsb.usedBlockCount <= dsb.maxFsBlocks <= NR_BLOCK_BITS
      && dev.super == dsb
      && Holds(dev.blocks[..], INODE_FREEMAP_START, INODE_FREEMAP_SIZE, inodeFreemap.v[..])
      && Holds(dev.blocks[..], BLOCK_FREEMAP_START, BLOCK_FREEMAP_SIZE, blockFreemap.v[..])
    }

    ghost function Used(): set<int>
      requires Shape() && blockFreemap.Valid()
      reads blockFreemap.v
    {
      InUse(blockFreemap.Bits())
    }

    /** How many more blocks testfs_alloc_block can hand out. */
    ghost function Free(): int
      reads this
    {
      dsb.maxFsBlocks - dsb.usedBlockCount
    }

    lemma UsedSize()
      requires Valid()
      ensures |Used()| == dsb.usedBlockCount
    {
      InUseSize(blockFreemap.Bits());
    }

    lemma UsedRange()
      requires Valid()
      ensures Free() >= 0
      ensures forall p | p in Used() :: DATA_BLOCKS_START <= p < NR_BLOCKS
    {
    }

    /** testfs_get_block_freemap, testfs_write_block_freemap */
    method GetBlockFreemap() returns (ret: int)
      requires Valid()
      modifies dev.blocks, blockFreemap.v
      ensures blockFreemap.Valid()
      ensures Holds(dev.blocks[..], BLOCK_FREEMAP_START, BLOCK_FREEMAP_SIZE, blockFreemap.v[..])
      ensures forall b | 0 <= b < NR_BLOCKS && !(BLOCK_FREEMAP_START <= b < INODE_BLOCKS_START) ::
                dev.blocks[b] == old(dev.blocks[b])
      ensures ret >= 0 ==> ret !in old(blockFreemap.Bits()) && blockFreemap.Bits() == old(blockFreemap.Bits()) + {ret}
      ensures ret >= 0 ==> ret < NR_BLOCK_BITS && forall i: nat | i < ret :: i in old(blockFreemap.Bits())
      ensures ret < 0 ==> ret == -ENOSPC && |old(blockFreemap.Bits())| == NR_BLOCK_BITS
    {
      hide Holds, SetBits, Stored;
      var r, index := blockFreemap.Alloc();
      if r < 0 {
        return r;
      }
      WriteThrough(old(dev.blocks[..]), BLOCK_FREEMAP_START, BLOCK_FREEMAP_SIZE, old(blockFreemap.v[..]), index, true);
      WriteBlockFreemap(index);
      ret := index;
    }

    /** testfs_write_block_freemap: one block of the freemap goes to the device. */
    method WriteBlockFreemap(index: nat)
      requires Shape() && blockFreemap.Valid() && index < NR_BLOCK_BITS
      modifies dev.blocks
      ensures var nr := index / BITS_PER_BLOCK;
        dev.blocks[..] == old(dev.blocks[..])[BLOCK_FREEMAP_START + nr :=
                                                blockFreemap.v[..][nr * BLOCK_SIZE..(nr + 1) * BLOCK_SIZE]]
    {
      var nr := index / (BLOCK_SIZE * BITS_PER_WORD);
      dev.blocks[BLOCK_FREEMAP_START + nr] := blockFreemap.v[nr * BLOCK_SIZE..(nr + 1) * BLOCK_SIZE];
    }

    /** testfs_put_block_freemap */
    method PutBlockFreemap(index: nat)
      requires Valid() && index in blockFreemap.Bits()
      modifies dev.blocks, blockFreemap.v
      ensures blockFreemap.Valid()
      ensures Holds(dev.blocks[..], BLOCK_FREEMAP_START, BLOCK_FREEMAP_SIZE, blockFreemap.v[..])
      ensures forall b | 0 <= b < NR_BLOCKS && !(BLOCK_FREEMAP_START <= b < INODE_BLOCKS_START) ::
                dev.blocks[b] == old(dev.blocks[b])
      ensures blockFreemap.Bits() == old(blockFreemap.Bits()) - {index}
    {
      blockFreemap.Unmark(index);
      WriteThrough(old(dev.blocks[..]), BLOCK_FREEMAP_START, BLOCK_FREEMAP_SIZE, old(blockFreemap.v[..]), index, false);
      WriteBlockFreemap(index);
    }

    /** testfs_alloc_block: it fails exactly when max_fs_blocks blocks are in use, and otherwise
        takes the lowest-numbered data block that is not. */
    method AllocBlock() returns (ret: int)
      requires Valid()
      modifies this, dev, dev.blocks, blockFreemap.v
      ensures Valid()
      ensures old(Free()) <= 0 ==> ret == -ENOSPC && Used() == old(Used()) && dsb == old(dsb)
      ensures old(Free()) <= 0 ==> dev.blocks[..] == old(dev.blocks[..])
      ensures old(Free()) > 0 ==>
                && DATA_BLOCKS_START <= ret < NR_BLOCKS
                && ret !in old(Used()) && Used() == old(Used()) + {ret}
                && (forall p | DATA_BLOCKS_START <= p < ret :: p in old(Used()))
                && dsb == old(dsb).(usedBlockCount := old(dsb).usedBlockCount + 1)
      ensures forall b | INODE_BLOCKS_START <= b < NR_BLOCKS :: dev.blocks[b] == old(dev.blocks[b])
    {
      hide Holds, SetBits, InUse, Bitmap.Valid;
      if dsb.usedBlockCount >= dsb.maxFsBlocks {
        return -ENOSPC;
      }
      var phy := GetBlockFreemap();
      assert inodeFreemap.v[..] == old(inodeFreemap.v[..]);
      HoldsAgree(old(dev.blocks[..]), dev.blocks[..], INODE_FREEMAP_START, INODE_FREEMAP_SIZE, old(inodeFreemap.v[..]));
      if phy < 0 {
        return phy;
      }
      InUseChange(old(blockFreemap.Bits()), phy);
      InUseElement(old(blockFreemap.Bits()), DATA_BLOCKS_START + phy);
      dsb := dsb.(usedBlockCount := dsb.usedBlockCount + 1);
      dev.super := dsb;
      ret := DATA_BLOCKS_START + phy;
      forall p | DATA_BLOCKS_START <= p < ret ensures p in old(Used()) {
        InUseElement(old(blockFreemap.Bits()), p);
      }
    }

    /** testfs_free_block: zeroes the block and releases it. Its asserts are the requires. */
    method FreeBlock(nr: int)
      requires Valid() && nr in Used()
      modifies this, dev, dev.blocks, blockFreemap.v
      ensures Valid()
      ensures Used() == old(Used()) - {nr}
      ensures dsb == old(dsb).(usedBlockCount := old(dsb).usedBlockCount - 1)
      ensures dev.blocks[nr] == ZeroBlock()
      ensures forall b | INODE_BLOCKS_START <= b < NR_BLOCKS && b != nr :: dev.blocks[b] == old(dev.blocks[b])
    {
      InUseElement(blockFreemap.Bits(), nr);
      var index := nr - DATA_BLOCKS_START;
      BitsBelow(blockFreemap, index);
      HoldsFrame(dev.blocks[..], nr, ZeroBlock(), INODE_FREEMAP_START, INODE_FREEMAP_SIZE, inodeFreemap.v[..]);
      HoldsFrame(dev.blocks[..], nr, ZeroBlock(), BLOCK_FREEMAP_START, BLOCK_FREEMAP_SIZE, blockFreemap.v[..]);
      hide Holds, SetBits, InUse, Bitmap.Valid;
      dev.blocks[nr] := ZeroBlock();
      assert index >= 0 && index in blockFreemap.Bits();
      PutBlockFreemap(index);
      InUseChange(old(blockFreemap.Bits()), index);
      assert dsb.usedBlockCount > 0;
      dsb := dsb.(usedBlockCount := dsb.usedBlockCount - 1);
      dev.super := dsb;
    }

    /** write_blocks of one data block */
    method WriteBlock(nr: int, block: Block)
      requires Valid() && INODE_BLOCKS_START <= nr < NR_BLOCKS
      modifies dev.blocks
      ensures Valid() && Used() == old(Used())
      ensures dev.blocks[..] == old(dev.blocks[..])[nr := block]
    {
      HoldsFrame(dev.blocks[..], nr, block, INODE_FREEMAP_START, INODE_FREEMAP_SIZE, inodeFreemap.v[..]);
      HoldsFrame(dev.blocks[..], nr, block, BLOCK_FREEMAP_START, BLOCK_FREEMAP_SIZE, blockFreemap.v[..]);
      hide Holds, SetBits, InUse;
      dev.blocks[nr] := block;
    }

    /** testfs_get_inode_freemap */
    method GetInodeFreemap() returns (ret: int)
      requires Valid()
      modifies this, dev, dev.blocks, inodeFreemap.v
      ensures Valid()
      ensures ret >= 0 ==>
                && ret < NR_INODE_BITS && ret !in old(inodeFreemap.Bits())
                && inodeFreemap.Bits() == old(inodeFreemap.Bits()) + {ret}
                && (forall i: nat | i < ret :: i in old(inodeFreemap.Bits()))
                && dsb == old(dsb).(usedInodeCount := old(dsb).usedInodeCount + 1)
      ensures ret < 0 ==>
                && ret == -ENOSPC && old(dsb).usedInodeCount == NR_INODE_BITS
                && inodeFreemap.v[..] == old(inodeFreemap.v[..]) && dsb == old(dsb)
                && inodeFreemap.Bits() == old(inodeFreemap.Bits())
                && (forall i: nat | i < NR_INODE_BITS :: i in old(inodeFreemap.Bits()))
      ensures forall b | BLOCK_FREEMAP_START <= b < NR_BLOCKS :: dev.blocks[b] == old(dev.blocks[b])
    {
      var r, index := inodeFreemap.Alloc();
      if r < 0 {
        AllSet(inodeFreemap);
        return r;
      }
      WriteThrough(dev.blocks[..], INODE_FREEMAP_START, INODE_FREEMAP_SIZE, old(inodeFreemap.v[..]), index, true);
      WriteInodeFreemap(index);
      dsb := dsb.(usedInodeCount := dsb.usedInodeCount + 1);
      dev.super := dsb;
      ret := index;
    }

    /** testfs_put_inode_freemap */
    method PutInodeFreemap(index: nat)
      requires Valid() && index in inodeFreemap.Bits()
      modifies this, dev, dev.blocks, inodeFreemap.v
      ensures Valid()
      ensures inodeFreemap.Bits() == old(inodeFreemap.Bits()) - {index}
      ensures dsb == old(dsb).(usedInodeCount := old(dsb).usedInodeCount - 1)
      ensures Used() == old(Used()) && Free() == old(Free())
      ensures forall b | BLOCK_FREEMAP_START <= b < NR_BLOCKS :: dev.blocks[b] == old(dev.blocks[b])
    {
      inodeFreemap.Unmark(index);
      WriteThrough(dev.blocks[..], INODE_FREEMAP_START, INODE_FREEMAP_SIZE, old(inodeFreemap.v[..]), index, false);
      WriteInodeFreemap(index);
      assert dsb.usedInodeCount > 0;
      dsb := dsb.(usedInodeCount := dsb.usedInodeCount - 1);
      dev.super := dsb;
    }

    method WriteInodeFreemap(index: nat)
      requires Shape() && inodeFreemap.Valid() && index < NR_INODE_BITS
      modifies dev.blocks
      ensures var nr := index / BITS_PER_BLOCK;
        dev.blocks[..] == old(dev.blocks[..])[INODE_FREEMAP_START + nr :=
                                                inodeFreemap.v[..][nr * BLOCK_SIZE..(nr + 1) * BLOCK_SIZE]]
    {
      var nr := index / (BLOCK_SIZE * BITS_PER_WORD);
      dev.blocks[INODE_FREEMAP_START + nr] := inodeFreemap.v[nr * BLOCK_SIZE..(nr + 1) * BLOCK_SIZE];
    }

    /** testfs_init_super_block: the in-memory state is read back from the device. Nothing is checked:
        the result is well formed exactly when the counters on the device match its freemaps. */
    constructor Init(dev: Device, ghost inodeBytes: seq<byte>, ghost blockBytes: seq<byte>)
      requires dev.blocks.Length == NR_BLOCKS
      requires Holds(dev.blocks[..], INODE_FREEMAP_START, INODE_FREEMAP_SIZE, inodeBytes)
      requires Holds(dev.blocks[..], BLOCK_FREEMAP_START, BLOCK_FREEMAP_SIZE, blockBytes)
      ensures this.dev == dev && fresh(Repr() - {dev, dev.blocks})
      ensures Valid() <==>
                && dev.super.usedInodeCount == |SetBits(inodeBytes, NR_INODE_BITS)|
                && dev.super.usedBlockCount == |SetBits(blockBytes, NR_BLOCK_BITS)|
                && dev.super.usedBlockCount <= dev.super.maxFsBlocks <= NR_BLOCK_BITS
      ensures inodeFreemap.v[..] == inodeBytes && blockFreemap.v[..] == blockBytes && dsb == dev.super
    {
      var ifm := new Bitmap(BLOCK_SIZE * INODE_FREEMAP_SIZE * BITS_PER_WORD);
      ReadBlocks(dev, INODE_FREEMAP_START, INODE_FREEMAP_SIZE, ifm.v);
      var bfm := new Bitmap(BLOCK_SIZE * BLOCK_FREEMAP_SIZE * BITS_PER_WORD);
      ReadBlocks(dev, BLOCK_FREEMAP_START, BLOCK_FREEMAP_SIZE, bfm.v);
      this.dev, this.dsb := dev, dev.super;
      this.inodeFreemap, this.blockFreemap := ifm, bfm;
      new;
      HoldsUnique(dev.blocks[..], INODE_FREEMAP_START, INODE_FREEMAP_SIZE, inodeBytes, inodeFreemap.v[..]);
      HoldsUnique(dev.blocks[..], BLOCK_FREEMAP_START, BLOCK_FREEMAP_SIZE, blockBytes, blockFreemap.v[..]);
    }

    /** testfs_close_super_block */
    method Close()
      requires Valid()
      modifies dev, dev.blocks
      ensures Valid() && dev.super == dsb && dev.blocks[..] == old(dev.blocks[..])
    {
      dev.super := dsb;
      WriteBlocks(dev, INODE_FREEMAP_START, INODE_FREEMAP_SIZE, inodeFreemap.v);
      HoldsSame(old(dev.blocks[..]), dev.blocks[..], INODE_FREEMAP_START, INODE_FREEMAP_SIZE, inodeFreemap.v[..]);
      WriteBlocks(dev, BLOCK_FREEMAP_START, BLOCK_FREEMAP_SIZE, blockFreemap.v);
      HoldsSame(old(dev.blocks[..]), dev.blocks[..], BLOCK_FREEMAP_START, BLOCK_FREEMAP_SIZE, blockFreemap.v[..]);
    }
  }

  lemma HoldsSame(a: seq<Block>, b: seq<Block>, start: nat, n: nat, v: seq<byte>)
    requires |a| == |b| && Holds(a, start, n, v) && Holds(b, start, n, v)
    requires forall i | 0 <= i < |a| && !(start <= i < start + n) :: a[i] == b[i]
    ensures a == b
  {
    forall i | 0 <= i < |a| ensures a[i] == b[i] {
      if start <= i < start + n {
        var r: nat := i - start;
        assert a[start + r] == v[r * BLOCK_SIZE..(r + 1) * BLOCK_SIZE];
      }
    }
  }

  /** read_blocks into a freemap */
  method ReadBlocks(dev: Device, start: nat, nr: nat, v: array<byte>)
    requires start + nr <= dev.blocks.Length && v.Length == nr * BLOCK_SIZE
    requires v as object != dev.blocks
    modifies v
    ensures Holds(dev.blocks[..], start, nr, v[..])
  {
    for r := 0 to nr
      invariant dev.blocks[..] == old(dev.blocks[..])
      invariant forall i | 0 <= i < r * BLOCK_SIZE :: v[i] == dev.blocks[start + i / BLOCK_SIZE][i % BLOCK_SIZE]
    {
      var b := dev.blocks[start + r];
      forall k | 0 <= k < BLOCK_SIZE {
        v[r * BLOCK_SIZE + k] := b[k];
      }
      forall i | 0 <= i < (r + 1) * BLOCK_SIZE
        ensures v[i] == dev.blocks[start + i / BLOCK_SIZE][i % BLOCK_SIZE]
      {
        if i >= r * BLOCK_SIZE {
          var k := i - r * BLOCK_SIZE;
          assert v[r * BLOCK_SIZE + k] == b[k];
          assert i / BLOCK_SIZE == r && i % BLOCK_SIZE == k;
        }
      }
    }
    forall r: nat | r < nr ensures dev.blocks[..][start + r] == v[..][r * BLOCK_SIZE..(r + 1) * BLOCK_SIZE] {
      var slice := v[..][r * BLOCK_SIZE..(r + 1) * BLOCK_SIZE];
      forall k | 0 <= k < BLOCK_SIZE ensures slice[k] == dev.blocks[start + r][k] {
        assert (r * BLOCK_SIZE + k) / BLOCK_SIZE == r && (r * BLOCK_SIZE + k) % BLOCK_SIZE == k;
      }
    }
  }

  /** write_blocks from a freemap */
  method WriteBlocks(dev: Device, start: nat, nr: nat, v: array<byte>)
    requires start + nr <= dev.blocks.Length && v.Length == nr * BLOCK_SIZE
    requires v as object != dev.blocks
    modifies dev.blocks
    ensures Holds(dev.blocks[..], start, nr, v[..])
    ensures forall b | 0 <= b < dev.blocks.Length && !(start <= b < start + nr) :: dev.blocks[b] == old(dev.blocks[b])
  {
    ghost var bytes := v[..];
    hide Holds;
    HoldsNone(dev.blocks[..], start);
    for r := 0 to nr
      invariant v[..] == bytes
      invariant Holds(dev.blocks[..], start, r, bytes[..r * BLOCK_SIZE])
      invariant forall b | 0 <= b < dev.blocks.Length && !(start <= b < start + r) ::
                  dev.blocks[b] == old(dev.blocks[b])
    {
      assert bytes[..(r + 1) * BLOCK_SIZE][..r * BLOCK_SIZE] == bytes[..r * BLOCK_SIZE];
      HoldsNext(dev.blocks[..], start, r, bytes[..(r + 1) * BLOCK_SIZE]);
      dev.blocks[start + r] := v[r * BLOCK_SIZE..(r + 1) * BLOCK_SIZE];
    }
    assert bytes[..nr * BLOCK_SIZE] == bytes;
  }

  lemma HoldsNone(blocks: seq<Block>, start: nat)
    requires start <= |blocks|
    ensures Holds(blocks, start, 0, [])
  {
  }

  lemma HoldsNext(blocks: seq<Block>, start: nat, r: nat, v: seq<byte>)
    requires start + r < |blocks| && |v| == (r + 1) * BLOCK_SIZE
    requires Holds(blocks, start, r, v[..r * BLOCK_SIZE])
    ensures Holds(blocks[start + r := v[r * BLOCK_SIZE..(r + 1) * BLOCK_SIZE]], start, r + 1, v)
  {
    var after := blocks[start + r := v[r * BLOCK_SIZE..(r + 1) * BLOCK_SIZE]];
    forall q: nat | q < r + 1 ensures after[start + q] == v[q * BLOCK_SIZE..(q + 1) * BLOCK_SIZE] {
      if q < r {
        assert blocks[start + q] == v[..r * BLOCK_SIZE][q * BLOCK_SIZE..(q + 1) * BLOCK_SIZE];
      }
    }
  }

  /** Closing and opening again gives back both freemaps and every counter. */
  method CloseAndInit(sb: SuperBlock) returns (again: SuperBlock)
    requires sb.Valid()
    modifies sb.dev, sb.dev.blocks
    ensures again.Valid() && fresh(again) && again.dev == sb.dev
    ensures again.dsb == sb.dsb
    ensures again.inodeFreemap.Bits() == sb.inodeFreemap.Bits()
    ensures again.blockFreemap.Bits() == sb.blockFreemap.Bits()
    ensures sb.dev.blocks[..] == old(sb.dev.blocks[..])
  {
    sb.Close();
    again := new SuperBlock.Init(sb.dev, sb.inodeFreemap.v[..], sb.blockFreemap.v[..]);
  }

  /** mktestfs: testfs_make_super_block with max_fs_blocks, then zeroed freemaps and inode blocks. */
  method Make(dev: Device, maxFsBlocks: nat) returns (sb: SuperBlock)
    requires dev.blocks.Length == NR_BLOCKS && maxFsBlocks <= NR_BLOCK_BITS
    modifies dev, dev.blocks
    ensures sb.Valid() && fresh(sb) && sb.dev == dev
    ensures fresh(sb.Repr() - {dev, dev.blocks})
    ensures sb.Used() == {} && sb.inodeFreemap.Bits() == {} && sb.Free() == maxFsBlocks
    ensures forall b | INODE_BLOCKS_START <= b < DATA_BLOCKS_START :: dev.blocks[b] == ZeroBlock()
  {
    dev.super := DSuper(0, 0, maxFsBlocks);
    for b := INODE_FREEMAP_START to DATA_BLOCKS_START
      invariant dev.super == DSuper(0, 0, maxFsBlocks)
      invariant forall i | INODE_FREEMAP_START <= i < b :: dev.blocks[i] == ZeroBlock()
    {
      dev.blocks[b] := ZeroBlock();
    }
    ghost var z1: seq<byte> := seq(INODE_FREEMAP_SIZE * BLOCK_SIZE, _ => 0);
    ghost var z16: seq<byte> := seq(BLOCK_FREEMAP_SIZE * BLOCK_SIZE, _ => 0);
    NoBits(z1, NR_INODE_BITS);
    NoBits(z16, NR_BLOCK_BITS);
    sb := new SuperBlock.Init(dev, z1, z16);
  }

  lemma NoBits(v: seq<byte>, n: nat)
    requires n <= BITS_PER_WORD * |v| && forall i | 0 <= i < |v| :: v[i] == 0
    ensures SetBits(v, n) == {}
  {
    forall i: nat | i < n ensures !Bit(v, i) {
      ZeroBits(i % BITS_PER_WORD);
    }
  }
}
