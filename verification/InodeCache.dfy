/** The inode cache (fs/inode.c:14-171, 219-231) over the buckets of fs/list.h: copies of inodes in memory,
    counted, written back when they are dirty. */
module InodeCaches {
  import opened Common
  import opened Lists
  import opened SuperBlocks
  import B = BlockMap
  import R = Release

  const INODE_SIZE := 64
  const INODES_PER_BLOCK := BLOCK_SIZE / INODE_SIZE
  const NR_INODES := NR_INODE_BLOCKS * INODES_PER_BLOCK
  const HASH_SIZE := 256
  const NULL := 0

  /** struct dinode as its bytes; memcpy is all that is done to it here. */
  type Raw = s: seq<byte> | |s| == INODE_SIZE witness seq(INODE_SIZE, _ => 0)

  /** What bzero leaves in an inode. */
  function ZeroRaw(): Raw {
    seq(INODE_SIZE, _ => 0)
  }

  /** The inode after i_type is set. */
  function WithType(raw: Raw, itype: int): Raw {
    raw[0 := B.Byte(itype)][1 := B.Byte(itype / 256)][2 := B.Byte(itype / 65536)][3 := B.Byte(itype / 16777216)]
  }

  /** The 32-bit field at byte k of an inode. */
  function Field(raw: Raw, k: nat): int
    requires k + 4 <= INODE_SIZE
  {
    B.Unpack(raw[k], raw[k + 1], raw[k + 2], raw[k + 3])
  }

  /** struct dinode: a type, ten block numbers, two tables, a block count, and a 64-bit size. */
  function DInodeOf(raw: Raw): B.DInode {
    B.DInode(Field(raw, 0), seq(B.NR_DIRECT_BLOCKS, i requires 0 <= i < B.NR_DIRECT_BLOCKS => Field(raw, 4 + 4 * i)),
             Field(raw, 44), Field(raw, 48), Field(raw, 52),
             Field(raw, 56) % 0x1_0000_0000 + 0x1_0000_0000 * Field(raw, 60))
  }

  lemma TypeField(itype: int)
    requires 0 <= itype <= INT_MAX
    ensures Field(WithType(ZeroRaw(), itype), 0) == itype
  {
    hide B.Unpack, B.Byte;
    B.PackUnpack(itype);
  }

  lemma OtherField(itype: int, k: nat)
    requires 4 <= k && k + 4 <= INODE_SIZE
    ensures Field(WithType(ZeroRaw(), itype), k) == 0
  {
    B.ZeroUnpack();
    hide B.Unpack, B.Byte;
    var raw := WithType(ZeroRaw(), itype);
    assert raw[k] == 0 && raw[k + 1] == 0 && raw[k + 2] == 0 && raw[k + 3] == 0;
  }

  /** A zeroed inode whose type is set is an empty one. */
  lemma TypedZero(itype: int)
    requires 0 <= itype <= INT_MAX
    ensures DInodeOf(WithType(ZeroRaw(), itype)) == R.EmptyInode(itype)
  {
    hide Field, WithType;
    var raw := WithType(ZeroRaw(), itype);
    TypeField(itype);
    forall k: nat | 4 <= k && k + 4 <= INODE_SIZE ensures Field(raw, k) == 0 {
      OtherField(itype, k);
    }
    assert DInodeOf(raw).direct == R.EmptyInode(itype).direct;
  }

  /** All that an inode is stands in its bytes, and every byte of them counts. */
  lemma SameBytes(a: Raw, b: Raw)
    ensures DInodeOf(a) == DInodeOf(b) <==> a == b
  {
    if DInodeOf(a) == DInodeOf(b) {
      SameFields(a, b);
      hide Field, DInodeOf;
      forall i | 0 <= i < INODE_SIZE ensures a[i] == b[i] {
        SameField(a, b, i / 4);
      }
    }
  }

  lemma SameFields(a: Raw, b: Raw)
    requires DInodeOf(a) == DInodeOf(b)
    ensures forall k: nat | k < 16 :: Field(a, 4 * k) == Field(b, 4 * k)
  {
    hide Field;
    SameSize(a, b);
    forall k: nat | k < 16 ensures Field(a, 4 * k) == Field(b, 4 * k) {
      if 1 <= k <= 10 {
        assert DInodeOf(a).direct[k - 1] == DInodeOf(b).direct[k - 1];
      } else {
        assert k == 0 || k == 11 || k == 12 || k == 13 || k == 14 || k == 15;
      }
    }
  }

  lemma SameSize(a: Raw, b: Raw)
    requires DInodeOf(a).size == DInodeOf(b).size
    ensures Field(a, 56) == Field(b, 56) && Field(a, 60) == Field(b, 60)
  {
    FieldRange(a, 56);
    FieldRange(b, 56);
    hide Field;
    HighLow(Field(a, 56), Field(a, 60), Field(b, 56), Field(b, 60));
  }

  lemma FieldRange(r: Raw, k: nat)
    requires k + 4 <= INODE_SIZE
    ensures -0x8000_0000 <= Field(r, k) <= INT_MAX
  {
    hide B.Unpack, B.Digit;
    B.UnpackDigits(r[k], r[k + 1], r[k + 2], r[k + 3]);
  }

  /** The low half of a 64-bit number is read as a signed 32-bit one. */
  lemma HighLow(low: int, high: int, low': int, high': int)
    requires -0x8000_0000 <= low <= INT_MAX && -0x8000_0000 <= low' <= INT_MAX
    requires low % 0x1_0000_0000 + 0x1_0000_0000 * high == low' % 0x1_0000_0000 + 0x1_0000_0000 * high'
    ensures low == low' && high == high'
  {
    assert high == high';
  }

  lemma SameField(a: Raw, b: Raw, k: nat)
    requires k < 16 && Field(a, 4 * k) == Field(b, 4 * k)
    ensures forall i | 4 * k <= i < 4 * k + 4 :: a[i] == b[i]
  {
    hide B.Unpack;
    B.UnpackInjective(a[4 * k], a[4 * k + 1], a[4 * k + 2], a[4 * k + 3],
                      b[4 * k], b[4 * k + 1], b[4 * k + 2], b[4 * k + 3]);
  }

  /** On a device whose inode blocks are zeroed every inode is. */
  lemma ZeroSlots(blocks: seq<Block>, nr: nat)
    requires |blocks| == NR_BLOCKS && nr < NR_INODES
    requires forall b | INODE_BLOCKS_START <= b < DATA_BLOCKS_START :: blocks[b] == ZeroBlock()
    ensures Slot(blocks, nr) == ZeroRaw()
  {
  }

  /** What the pprev field of a node points to: the head of a bucket, or the next field of a node. */
  datatype Back = Nowhere | Head(bucket: nat) | Node(address: int)

  /** struct inode */
  datatype Copy = Copy(nr: nat, raw: Raw, dirty: bool, count: int, next: int, pprev: Back)

  /** inode_hashfn: the high bits of a 32-bit product. */
  function Bucket(nr: nat): (b: nat)
    ensures b < HASH_SIZE
  {
    nr * 0x9e37_0001 % 0x1_0000_0000 / 0x100_0000
  }

  /** testfs_inode_to_block_nr, testfs_inode_to_block_offset */
  function BlockNr(nr: nat): (b: nat)
    requires nr < NR_INODES
    ensures b < NR_INODE_BLOCKS
  {
    nr / INODES_PER_BLOCK
  }

  function BlockOffset(nr: nat): (o: nat)
    ensures o + INODE_SIZE <= BLOCK_SIZE
  {
    nr % INODES_PER_BLOCK * INODE_SIZE
  }

  /** The bytes of an inode on the device. */
  function Slot(blocks: seq<Block>, nr: nat): Raw
    requires |blocks| == NR_BLOCKS && nr < NR_INODES
  {
    blocks[INODE_BLOCKS_START + BlockNr(nr)][BlockOffset(nr)..BlockOffset(nr) + INODE_SIZE]
  }

  /** A block with the bytes of one inode replaced. */
  function WithSlot(b: Block, nr: nat, raw: Raw): Block {
    b[..BlockOffset(nr)] + raw + b[BlockOffset(nr) + INODE_SIZE..]
  }

  /** Writing one inode back into its block changes that inode and no other. */
  lemma WriteSlot(blocks: seq<Block>, nr: nat, raw: Raw, other: nat)
    requires |blocks| == NR_BLOCKS && nr < NR_INODES && other < NR_INODES
    ensures var p := INODE_BLOCKS_START + BlockNr(nr);
      Slot(blocks[p := WithSlot(blocks[p], nr, raw)], other) == if other == nr then raw else Slot(blocks, other)
  {
    var p := INODE_BLOCKS_START + BlockNr(nr);
    var b, w := blocks[p], WithSlot(blocks[p], nr, raw);
    if BlockNr(other) == BlockNr(nr) {
      var o := BlockOffset(other);
      forall k | o <= k < o + INODE_SIZE ensures w[k] == if other == nr then raw[k - o] else b[k] {
        if other != nr {
          Apart(other, nr);
        }
      }
    }
  }

  lemma Apart(a: nat, b: nat)
    requires a < NR_INODES && b < NR_INODES && a != b && BlockNr(a) == BlockNr(b)
    ensures BlockOffset(a) + INODE_SIZE <= BlockOffset(b) || BlockOffset(b) + INODE_SIZE <= BlockOffset(a)
  {
  }

  ghost predicate NodeAt(mem: map<int, Copy>, b: nat, chain: seq<int>, i: nat)
    requires i < |chain|
  {
    && chain[i] in mem
    && mem[chain[i]].next == (if i + 1 < |chain| then chain[i + 1] else NULL)
    && mem[chain[i]].pprev == if i == 0 then Head(b) else Node(chain[i - 1])
  }

  /** The nodes of a bucket, linked forward by next and backward by pprev. */
  ghost predicate Linked(mem: map<int, Copy>, head: int, b: nat, chain: seq<int>) {
    && head == (if chain == [] then NULL else chain[0])
    && forall i: nat | i < |chain| :: NodeAt(mem, b, chain, i)
  }

  lemma LinkedFrame(mem: map<int, Copy>, mem': map<int, Copy>, head: int, b: nat, chain: seq<int>)
    requires Linked(mem, head, b, chain)
    requires forall a | a in chain && a in mem ::
               a in mem' && mem'[a].next == mem[a].next && mem'[a].pprev == mem[a].pprev
    ensures Linked(mem', head, b, chain)
  {
    forall i: nat | i < |chain| ensures NodeAt(mem', b, chain, i) {
      var a := chain[i];
      assert NodeAt(mem, b, chain, i) && a in chain;
    }
  }

  /** hlist_add_head */
  lemma AddHead(mem: map<int, Copy>, mem': map<int, Copy>, head: int, b: nat, chain: seq<int>, n: int)
    requires Linked(mem, head, b, chain) && NoDup(chain) && n !in chain && n in mem'
    requires mem'[n].next == head && mem'[n].pprev == Head(b)
    requires forall a | a in chain && a in mem ::
               && a in mem' && mem'[a].next == mem[a].next
               && mem'[a].pprev == if a == head then Node(n) else mem[a].pprev
    ensures Linked(mem', n, b, [n] + chain)
  {
    var c := [n] + chain;
    forall i: nat | i < |c| ensures NodeAt(mem', b, c, i) {
      if i > 0 {
        assert NodeAt(mem, b, chain, i - 1) && chain[i - 1] in chain;
        assert i > 1 ==> chain[i - 1] != chain[0];
      }
    }
  }

  /** hlist_del */
  lemma Delete(mem: map<int, Copy>, mem': map<int, Copy>, head: int, head': int, b: nat, chain: seq<int>, k: nat)
    requires Linked(mem, head, b, chain) && NoDup(chain) && k < |chain| && chain[k] in mem
    requires head' == if k == 0 then mem[chain[k]].next else head
    requires forall a | a in chain && a in mem && a != chain[k] ::
               && a in mem'
               && mem'[a].next == (if k > 0 && a == chain[k - 1] then mem[chain[k]].next else mem[a].next)
               && mem'[a].pprev == if k + 1 < |chain| && a == chain[k + 1] then mem[chain[k]].pprev else mem[a].pprev
    ensures Linked(mem', head', b, Removed(chain, k))
  {
    var c := Removed(chain, k);
    assert NodeAt(mem, b, chain, k);
    forall i: nat | i < |c| ensures NodeAt(mem', b, c, i) {
      var o := if i < k then i else i + 1;
      assert c[i] == chain[o] && NodeAt(mem, b, chain, o) && chain[o] in chain && chain[o] != chain[k];
      assert i + 1 < |c| ==> c[i + 1] == chain[if i + 1 < k then i + 1 else i + 2];
      assert i > 0 ==> c[i - 1] == chain[if i - 1 < k then i - 1 else i];
      assert k > 0 && o != k - 1 ==> chain[o] != chain[k - 1];
      assert k + 1 < |chain| && o != k + 1 ==> chain[o] != chain[k + 1];
    }
  }

  /** Every copy is in the bucket of its number, and only there. */
  ghost predicate Hashed(mem: map<int, Copy>, first: seq<int>, chains: seq<seq<int>>) {
    && |first| == |chains| == HASH_SIZE && NULL !in mem
    && (forall b: nat | b < HASH_SIZE :: Linked(mem, first[b], b, chains[b]) && NoDup(chains[b]))
    && (forall b: nat, a | b < HASH_SIZE && a in chains[b] :: a in mem && Bucket(mem[a].nr) == b)
    && (forall a | a in mem :: a in chains[Bucket(mem[a].nr)])
  }

  function Without(at: map<nat, int>, nr: nat): map<nat, int> {
    map n | n in at && n != nr :: at[n]
  }

  /** at says where the copy of an inode is: there is at most one. */
  ghost predicate Single(mem: map<int, Copy>, at: map<nat, int>) {
    && (forall nr | nr in at :: at[nr] in mem && mem[at[nr]].nr == nr)
    && (forall a | a in mem :: mem[a].nr in at && at[mem[a].nr] == a && mem[a].nr < NR_INODES)
  }

  /** Every copy is in use, and a clean one is what the device holds. */
  ghost predicate Backed(mem: map<int, Copy>, blocks: seq<Block>)
    requires |blocks| == NR_BLOCKS
  {
    forall a | a in mem ::
      mem[a].nr < NR_INODES && mem[a].count > 0 && (!mem[a].dirty ==> mem[a].raw == Slot(blocks, mem[a].nr))
  }

  class InodeCache {
    const dev: Device
    var mem: map<int, Copy>
    var first: seq<int>
    ghost var chains: seq<seq<int>>
    ghost var at: map<nat, int>

    /** A copy is there exactly while it is in use, and a clean one is what the device holds. */
    ghost predicate Valid()
      reads this, dev.blocks
    {
      && dev.blocks.Length == NR_BLOCKS
      && Hashed(mem, first, chains) && Single(mem, at)
      && Backed(mem, dev.blocks[..])
    }

    /** What an inode is: its copy if there is one, or else its slot on the device. */
    ghost function View(nr: nat): Raw
      requires Valid() && nr < NR_INODES
      reads this, dev.blocks
    {
      if nr in at then mem[at[nr]].raw else Slot(dev.blocks[..], nr)
    }

    /** inode_hash_init */
    constructor (dev: Device)
      requires dev.blocks.Length == NR_BLOCKS
      ensures Valid() && this.dev == dev && mem == map[] && at == map[]
    {
      this.dev := dev;
      mem, at := map[], map[];
      first := seq(HASH_SIZE, _ => NULL);
      chains := seq(HASH_SIZE, _ => []);
    }

    /** inode_hash_find */
    method HashFind(nr: nat) returns (a: int)
      requires Valid()
      ensures a == if nr in at then at[nr] else NULL
    {
      ghost var b, i: nat := Bucket(nr), 0;
      ghost var chain := chains[b];
      hide Bucket, Slot;
      assert Linked(mem, first[b], b, chain);
      HashedAt(mem, first, chains, at, nr);
      hide Hashed, Single, NoDup;
      a := first[Bucket(nr)];
      while a != NULL
        invariant i <= |chain| && a == (if i < |chain| then chain[i] else NULL)
        invariant forall j | 0 <= j < i :: chain[j] in mem && mem[chain[j]].nr != nr
        decreases |chain| - i
      {
        ghost var c := chain[i];
        assert NodeAt(mem, b, chain, i) && c in chain;
        if mem[a].nr == nr {
          return;
        }
        a := mem[a].next;
        i := i + 1;
      }
    }

    /** testfs_get_inode; fresh is the address calloc returns. The copy is counted once more, and no inode
        changes. */
    method Get(nr: nat, address: int) returns (a: int)
      requires Valid() && nr < NR_INODES && address != NULL && address !in mem
      modifies this
      ensures Valid() && a in mem && mem[a].nr == nr && at == old(at)[nr := a]
      ensures mem[a].count == (if nr in old(at) then old(mem[at[nr]].count) else 0) + 1
      ensures mem.Keys == old(mem).Keys + {a} && forall o | o in old(mem) && o != a :: Same(mem[o], old(mem)[o])
      ensures forall n: nat | n < NR_INODES :: View(n) == old(View(n))
    {
      hide Bucket, Slot, Hashed, Single;
      HashedAt(mem, first, chains, at, nr);
      AtIn(mem, at);
      a := HashFind(nr);
      if a != NULL {
        ghost var mem0 := mem;
        mem := mem[a := mem[a].(count := mem[a].count + 1)];
        SameLinks(mem0, mem, first, chains, at);
        return;
      }
      a := address;
      var b, offset := BlockNr(nr), BlockOffset(nr);
      var block := dev.blocks[INODE_BLOCKS_START + b];
      var raw := block[offset..offset + INODE_SIZE];
      assert raw == Slot(dev.blocks[..], nr) by {
        SlotIs(dev.blocks[..], nr);
      }
      HashInsert(Copy(nr, raw, false, 1, NULL, Nowhere), a);
    }

    /** hlist_add_head */
    method HlistAddHead(a: int, b: nat)
      requires a in mem && b < |first| && (first[b] != NULL ==> first[b] in mem && first[b] != a)
      modifies this`mem, this`first
      ensures first == old(first)[b := a] && mem.Keys == old(mem).Keys
      ensures mem[a] == old(mem)[a].(next := old(first)[b], pprev := Head(b))
      ensures forall o | o in mem && o != a ::
                mem[o] == if o == old(first)[b] && o != NULL then old(mem)[o].(pprev := Node(a)) else old(mem)[o]
    {
      mem := mem[a := mem[a].(next := first[b])];
      if first[b] != NULL {
        mem := mem[first[b] := mem[first[b]].(pprev := Node(a))];
      }
      first := first[b := a];
      mem := mem[a := mem[a].(pprev := Head(b))];
    }

    /** inode_hash_insert */
    method HashInsert(c: Copy, a: int)
      requires Valid() && c.nr < NR_INODES && c.nr !in at && a != NULL && a !in mem
      requires c.count > 0 && (!c.dirty ==> c.raw == Slot(dev.blocks[..], c.nr))
      modifies this
      ensures Valid() && at == old(at)[c.nr := a] && mem.Keys == old(mem).Keys + {a} && Same(mem[a], c)
      ensures forall o | o in old(mem) :: Same(mem[o], old(mem)[o])
    {
      hide Bucket, Slot, Hashed, Single, Backed, Linked, NoDup;
      ghost var mem0, chains0, first0, b0 := mem, chains, first, Bucket(c.nr);
      FirstIn(mem, first, chains, b0);
      mem := mem[a := c.(next := NULL, pprev := Nowhere)];
      HlistAddHead(a, Bucket(c.nr));
      assert mem.Keys == mem0.Keys + {a} && forall o | o in mem0 :: Same(mem[o], mem0[o]);
      chains := chains[b0 := [a] + chains[b0]];
      at := at[c.nr := a];
      InsertHashed(mem0, mem, first0, chains0, a, mem[a]);
      InsertSingle(mem0, mem, old(at), a);
      BackedAdd(mem0, mem, dev.blocks[..], a);
    }

    /** hlist_del on the k-th node of bucket b */
    method HlistDel(a: int, ghost b: nat, ghost k: nat)
      requires a in mem && |first| == |chains| == HASH_SIZE && b < HASH_SIZE && k < |chains[b]| && NULL !in mem
      requires mem[a].pprev == (if k == 0 then Head(b) else Node(chains[b][k - 1]))
      requires mem[a].next == (if k + 1 < |chains[b]| then chains[b][k + 1] else NULL)
      requires k > 0 ==> chains[b][k - 1] in mem
      requires k + 1 < |chains[b]| ==> chains[b][k + 1] in mem
      requires k > 0 && k + 1 < |chains[b]| ==> chains[b][k - 1] != chains[b][k + 1]
      modifies this`mem, this`first
      ensures mem.Keys == old(mem).Keys && first == if k == 0 then old(first)[b := old(mem)[a].next] else old(first)
      ensures forall o | o in mem && o != a ::
                && Same(mem[o], old(mem)[o])
                && mem[o].next == (if k > 0 && o == chains[b][k - 1] then old(mem)[a].next else old(mem)[o].next)
                && mem[o].pprev ==
                     if k + 1 < |chains[b]| && o == chains[b][k + 1] then old(mem)[a].pprev else old(mem)[o].pprev
    {
      var next, pprev := mem[a].next, mem[a].pprev;
      match pprev {
        case Head(h) => first := first[h := next];
        case Node(p) => mem := mem[p := mem[p].(next := next)];
        case Nowhere =>
      }
      if next != NULL {
        mem := mem[next := mem[next].(pprev := pprev)];
      }
      mem := mem[a := mem[a].(next := NULL, pprev := Nowhere)];
    }

    /** inode_hash_remove and free */
    method HashRemove(a: int)
      requires Valid() && a in mem
      modifies this
      ensures Valid() && mem.Keys == old(mem).Keys - {a} && at == Without(old(at), old(mem[a].nr))
      ensures forall o | o in mem :: Same(mem[o], old(mem)[o])
    {
      hide Bucket, Slot, Hashed, Single, Backed, Without, Removed;
      ghost var mem0, chains0, first0 := mem, chains, first;
      ghost var b, k := Place(mem, first, chains, a);
      InAt(mem, at, a);
      HlistDel(a, b, k);
      mem := mem - {a};
      chains := chains[b := Removed(chains[b], k)];
      at := Without(at, mem0[a].nr);
      DeleteHashed(mem0, mem, first0, first, chains0, a, b, k);
      DeleteSingle(mem0, mem, old(at), a);
      BackedSub(mem0, mem, dev.blocks[..]);
    }

    /** Whoever uses an inode changes its copy, and marks it dirty. */
    method Change(a: int, raw: Raw)
      requires Valid() && a in mem
      modifies this`mem
      ensures Valid() && mem.Keys == old(mem).Keys && mem[a].count == old(mem[a].count)
      ensures mem[a].nr == old(mem[a].nr) && mem[a].raw == raw && mem[a].dirty
      ensures forall n: nat | n < NR_INODES :: View(n) == if n == old(mem[a].nr) then raw else old(View(n))
    {
      hide Bucket, Slot, Hashed, Single;
      AtIn(mem, at);
      ghost var mem0 := mem;
      mem := mem[a := mem[a].(raw := raw, dirty := true)];
      SameLinks(mem0, mem, first, chains, at);
      InAt(mem0, at, a);
    }

    /** testfs_sync_inode: afterwards the device holds the inode; no inode changes. */
    method Sync(a: int)
      requires Valid() && a in mem
      modifies this`mem, dev.blocks
      ensures Valid() && mem.Keys == old(mem).Keys && !mem[a].dirty && mem[a].count == old(mem[a].count)
      ensures mem[a].nr == old(mem[a].nr) && Slot(dev.blocks[..], mem[a].nr) == mem[a].raw == old(mem[a].raw)
      ensures forall n: nat | n < NR_INODES :: View(n) == old(View(n))
      ensures forall o | o in mem && o != a :: mem[o] == old(mem)[o]
    {
      hide Bucket, Slot, Hashed, Single, WithSlot;
      AtIn(mem, at);
      InAt(mem, at, a);
      if !mem[a].dirty {
        return;
      }
      ghost var mem0, blocks0 := mem, dev.blocks[..];
      var p := INODE_BLOCKS_START + BlockNr(mem[a].nr);
      dev.blocks[p] := WithSlot(dev.blocks[p], mem[a].nr, mem[a].raw);
      mem := mem[a := mem[a].(dirty := false)];
      SameLinks(mem0, mem, first, chains, at);
      assert dev.blocks[..] == blocks0[p := WithSlot(blocks0[p], mem[a].nr, mem[a].raw)];
      forall n: nat | n < NR_INODES
        ensures Slot(dev.blocks[..], n) == if n == mem[a].nr then mem[a].raw else Slot(blocks0, n)
      {
        WriteSlot(blocks0, mem[a].nr, mem[a].raw, n);
      }
      AtIn(mem, at);
      AllAt(mem, at);
    }

    /** testfs_put_inode, for a copy that has been written back: when nobody uses it any more it is freed.
        No inode changes. */
    method Put(a: int)
      requires Valid() && a in mem && !mem[a].dirty
      modifies this
      ensures Valid() && forall n: nat | n < NR_INODES :: View(n) == old(View(n))
      ensures if old(mem[a].count) == 1 then mem.Keys == old(mem).Keys - {a} else
                mem.Keys == old(mem).Keys && mem[a].count == old(mem[a].count) - 1
      ensures forall o | o in mem && o != a :: Same(mem[o], old(mem)[o])
    {
      hide Bucket, Slot, Hashed, Single;
      AtIn(mem, at);
      InAt(mem, at, a);
      assert mem[a].raw == Slot(dev.blocks[..], mem[a].nr);
      if mem[a].count - 1 == 0 {
        HashRemove(a);
        AtIn(mem, at);
        assert forall n | n in at :: at[n] == old(at)[n] && n in old(at);
      } else {
        ghost var mem0 := mem;
        mem := mem[a := mem[a].(count := mem[a].count - 1)];
        SameLinks(mem0, mem, first, chains, at);
      }
    }

    /** The inodes whose numbers are not taken are zeroed. */
    ghost predicate FreeZeroed(taken: set<nat>)
      requires Valid()
      reads this, dev.blocks
    {
      forall n: nat | n < NR_INODES && n !in taken :: View(n) == ZeroRaw()
    }

    /** testfs_create_inode, lines 210-212: the inode that is found is zeroed, and becomes an empty one. */
    method Create(nr: nat, itype: int, address: int, ghost taken: set<nat>) returns (a: int)
      requires Valid() && FreeZeroed(taken) && nr < NR_INODES && nr !in taken && 0 <= itype <= INT_MAX
      requires address != NULL && address !in mem
      modifies this
      ensures Valid() && a in mem && mem[a].nr == nr && mem[a].dirty && FreeZeroed(taken + {nr})
      ensures DInodeOf(View(nr)) == R.EmptyInode(itype)
      ensures forall n: nat | n < NR_INODES && n != nr :: View(n) == old(View(n))
    {
      hide Bucket, Slot, Hashed, Single, Backed, WithType, DInodeOf, R.EmptyInode;
      a := Get(nr, address);
      assert View(nr) == mem[a].raw == ZeroRaw();
      TypedZero(itype);
      Change(a, WithType(mem[a].raw, itype));
    }

    /** testfs_remove_inode, lines 226-230: the inode is zeroed, on the device too, and its number may be given
        away again. */
    method Remove(a: int, ghost taken: set<nat>)
      requires Valid() && FreeZeroed(taken) && a in mem
      modifies this, dev.blocks
      ensures Valid() && FreeZeroed(taken - {old(mem[a].nr)})
      ensures Slot(dev.blocks[..], old(mem[a].nr)) == ZeroRaw()
      ensures forall n: nat | n < NR_INODES && n != old(mem[a].nr) :: View(n) == old(View(n))
      ensures if old(mem[a].count) == 1 then mem.Keys == old(mem).Keys - {a}
              else a in mem && mem[a].count == old(mem[a].count) - 1
    {
      hide Bucket, Slot, Hashed, Single, Backed;
      Change(a, ZeroRaw());
      Sync(a);
      Put(a);
    }
  }

  /** mktestfs zeroes the inode blocks: over a device just made no number is taken, and every inode is zeroed. */
  method MakeCache(dev: Device, maxFsBlocks: nat) returns (sb: SuperBlock, cache: InodeCache)
    requires dev.blocks.Length == NR_BLOCKS && maxFsBlocks <= NR_BLOCK_BITS
    modifies dev, dev.blocks
    ensures sb.Valid() && sb.dev == cache.dev == dev && sb.inodeFreemap.Bits() == {}
    ensures cache.Valid() && cache.mem == map[] && cache.FreeZeroed({})
  {
    hide SuperBlock.Valid, Slot, Hashed, Single, Backed, InodeCache.Valid;
    sb := Make(dev, maxFsBlocks);
    cache := new InodeCache(dev);
    forall n: nat | n < NR_INODES ensures cache.View(n) == ZeroRaw() {
      ZeroSlots(dev.blocks[..], n);
    }
  }

  /** Where a copy is in its bucket, and what its links say. */
  lemma Place(mem: map<int, Copy>, first: seq<int>, chains: seq<seq<int>>, a: int) returns (b: nat, k: nat)
    requires Hashed(mem, first, chains) && a in mem
    ensures |first| == |chains| == HASH_SIZE && NULL !in mem
    ensures b == Bucket(mem[a].nr) < HASH_SIZE && k < |chains[b]| && chains[b][k] == a
    ensures mem[a].pprev == (if k == 0 then Head(b) else Node(chains[b][k - 1]))
    ensures mem[a].next == (if k + 1 < |chains[b]| then chains[b][k + 1] else NULL)
    ensures k > 0 ==> chains[b][k - 1] in mem && chains[b][k - 1] != a
    ensures k + 1 < |chains[b]| ==> chains[b][k + 1] in mem && chains[b][k + 1] != a
    ensures k > 0 && k + 1 < |chains[b]| ==> chains[b][k - 1] != chains[b][k + 1]
  {
    b := Bucket(mem[a].nr);
    assert a in chains[b];
    k :| k < |chains[b]| && chains[b][k] == a;
    var chain := chains[b];
    assert Linked(mem, first[b], b, chain) && NoDup(chain) && NodeAt(mem, b, chain, k);
    assert k > 0 ==> NodeAt(mem, b, chain, k - 1);
    assert k + 1 < |chain| ==> NodeAt(mem, b, chain, k + 1);
  }

  lemma BackedSub(mem: map<int, Copy>, mem': map<int, Copy>, blocks: seq<Block>)
    requires |blocks| == NR_BLOCKS && Backed(mem, blocks) && forall o | o in mem' :: o in mem && Same(mem'[o], mem[o])
    ensures Backed(mem', blocks)
  {
    hide Slot;
  }

  lemma BackedAdd(mem: map<int, Copy>, mem': map<int, Copy>, blocks: seq<Block>, a: int)
    requires |blocks| == NR_BLOCKS && Backed(mem, blocks) && a in mem'
    requires forall o | o in mem' && o != a :: o in mem && Same(mem'[o], mem[o])
    requires mem'[a].nr < NR_INODES && mem'[a].count > 0 && (!mem'[a].dirty ==> mem'[a].raw == Slot(blocks, mem'[a].nr))
    ensures Backed(mem', blocks)
  {
    hide Slot;
  }

  lemma DeleteSingle(mem: map<int, Copy>, mem': map<int, Copy>, at: map<nat, int>, a: int)
    requires Single(mem, at) && a in mem && mem'.Keys == mem.Keys - {a}
    requires forall o | o in mem' :: mem'[o].nr == mem[o].nr
    ensures Single(mem', Without(at, mem[a].nr))
  {
    forall nr | nr in at && nr != mem[a].nr ensures at[nr] in mem' && mem'[at[nr]].nr == nr {
      var o := at[nr];
      assert o in mem;
    }
  }

  lemma InsertSingle(mem: map<int, Copy>, mem': map<int, Copy>, at: map<nat, int>, a: int)
    requires Single(mem, at) && a !in mem && a in mem' && mem'.Keys == mem.Keys + {a}
    requires mem'[a].nr < NR_INODES && mem'[a].nr !in at && forall o | o in mem :: mem'[o].nr == mem[o].nr
    ensures Single(mem', at[mem'[a].nr := a])
  {
    forall nr | nr in at ensures at[nr] in mem' && mem'[at[nr]].nr == nr {
      var o := at[nr];
      assert o in mem;
    }
  }

  lemma InAt(mem: map<int, Copy>, at: map<nat, int>, a: int)
    requires Single(mem, at) && a in mem
    ensures mem[a].nr in at && at[mem[a].nr] == a && mem[a].nr < NR_INODES
  {
  }

  lemma AllAt(mem: map<int, Copy>, at: map<nat, int>)
    requires Single(mem, at)
    ensures forall a | a in mem :: mem[a].nr in at && at[mem[a].nr] == a && mem[a].nr < NR_INODES
  {
  }

  /** Only the links of a copy may differ. */
  predicate Same(c: Copy, d: Copy) {
    c.nr == d.nr && c.raw == d.raw && c.dirty == d.dirty && c.count == d.count
  }

  lemma FirstIn(mem: map<int, Copy>, first: seq<int>, chains: seq<seq<int>>, b: nat)
    requires Hashed(mem, first, chains) && b < HASH_SIZE
    ensures |first| == |chains| == HASH_SIZE && (first[b] != NULL ==> first[b] in mem)
  {
    var chain := chains[b];
    assert Linked(mem, first[b], b, chain);
    assert first[b] != NULL ==> first[b] in chain;
  }

  lemma SlotIs(blocks: seq<Block>, nr: nat)
    requires |blocks| == NR_BLOCKS && nr < NR_INODES
    ensures Slot(blocks, nr) == blocks[INODE_BLOCKS_START + BlockNr(nr)][BlockOffset(nr)..BlockOffset(nr) + INODE_SIZE]
  {
  }

  lemma AtIn(mem: map<int, Copy>, at: map<nat, int>)
    requires Single(mem, at)
    ensures forall nr | nr in at :: at[nr] in mem && mem[at[nr]].nr == nr
  {
  }

  /** Changing what is in a copy, but not its number or links, leaves the buckets as they are. */
  lemma SameLinks(mem: map<int, Copy>, mem': map<int, Copy>, first: seq<int>, chains: seq<seq<int>>, at: map<nat, int>)
    requires Hashed(mem, first, chains) && Single(mem, at) && mem'.Keys == mem.Keys
    requires forall a | a in mem ::
               mem'[a].nr == mem[a].nr && mem'[a].next == mem[a].next && mem'[a].pprev == mem[a].pprev
    ensures Hashed(mem', first, chains) && Single(mem', at)
  {
    hide Bucket, NoDup;
    forall b: nat | b < HASH_SIZE ensures Linked(mem', first[b], b, chains[b]) {
      LinkedFrame(mem, mem', first[b], b, chains[b]);
    }
    forall nr | nr in at ensures at[nr] in mem' && mem'[at[nr]].nr == nr {
      var a := at[nr];
      assert a in mem;
    }
  }

  lemma HashedAt(mem: map<int, Copy>, first: seq<int>, chains: seq<seq<int>>, at: map<nat, int>, nr: nat)
    requires Hashed(mem, first, chains) && Single(mem, at)
    ensures nr in at ==> at[nr] in chains[Bucket(nr)] && at[nr] in mem && mem[at[nr]].nr == nr && at[nr] != NULL
    ensures forall a | a in chains[Bucket(nr)] :: a in mem && a != NULL && (mem[a].nr == nr ==> nr in at && at[nr] == a)
  {
    hide Bucket, Linked, NoDup;
    if nr in at {
      var a := at[nr];
      assert a in mem;
    }
  }

  /** inode_hash_insert */
  lemma InsertHashed(mem: map<int, Copy>, mem': map<int, Copy>, first: seq<int>, chains: seq<seq<int>>, n: int, c: Copy)
    requires Hashed(mem, first, chains) && n !in mem && n != NULL
    requires c.next == first[Bucket(c.nr)] && c.pprev == Head(Bucket(c.nr))
    requires c.next != NULL ==> c.next in mem
    requires mem'.Keys == mem.Keys + {n} && mem'[n] == c
    requires forall o | o in mem :: mem'[o] == if o == c.next && o != NULL then mem[o].(pprev := Node(n)) else mem[o]
    ensures var b := Bucket(c.nr); Hashed(mem', first[b := n], chains[b := [n] + chains[b]])
  {
    var b := Bucket(c.nr);
    hide Bucket;
    assert n !in chains[b];
    AddHead(mem, mem', first[b], b, chains[b], n);
    var chains' := chains[b := [n] + chains[b]];
    forall d: nat | d < HASH_SIZE && d != b ensures Linked(mem', first[d], d, chains[d]) {
      assert Linked(mem, first[b], b, chains[b]) && (c.next != NULL ==> c.next in chains[b]);
      LinkedFrame(mem, mem', first[d], d, chains[d]);
    }
    assert NoDup(chains'[b]);
    hide NoDup, Linked;
    forall a | a in mem' ensures a in chains'[Bucket(mem'[a].nr)] {
      assert a == n || a in chains[Bucket(mem[a].nr)];
    }
    assert n in chains'[b];
  }

  /** inode_hash_remove, and the copy is freed. */
  lemma DeleteHashed(mem: map<int, Copy>, mem': map<int, Copy>, first: seq<int>, first': seq<int>,
                     chains: seq<seq<int>>, n: int, b: nat, k: nat)
    requires Hashed(mem, first, chains) && n in mem && b == Bucket(mem[n].nr) && k < |chains[b]| && chains[b][k] == n
    requires mem'.Keys == mem.Keys - {n}
    requires first' == if k == 0 then first[b := mem[n].next] else first
    requires forall a | a in mem' ::
               && mem'[a].nr == mem[a].nr
               && mem'[a].next == (if k > 0 && a == chains[b][k - 1] then mem[n].next else mem[a].next)
               && mem'[a].pprev == if k + 1 < |chains[b]| && a == chains[b][k + 1] then mem[n].pprev else mem[a].pprev
    ensures Hashed(mem', first', chains[b := Removed(chains[b], k)])
  {
    hide Bucket, NoDup, Linked, Removed;
    var chain := chains[b];
    assert NoDup(chain) && Linked(mem, first[b], b, chain) && n in chain;
    Delete(mem, mem', first[b], first'[b], b, chain, k);
    RemoveNoDup(chain, k);
    var chains' := chains[b := Removed(chain, k)];
    assert (k > 0 ==> chain[k - 1] in chain) && (k + 1 < |chain| ==> chain[k + 1] in chain);
    forall d: nat | d < HASH_SIZE && d != b ensures Linked(mem', first'[d], d, chains[d]) {
      LinkedFrame(mem, mem', first[d], d, chains[d]);
    }
    forall a | a in mem' ensures a in chains'[Bucket(mem'[a].nr)] {
      assert a in chains[Bucket(mem[a].nr)];
    }
  }
}
