/** The three-level block map of an inode (fs/inode.h, fs/read_write.c), as a function of the
    device contents and the disk inode. */
module BlockMap {
  import opened Common
  import opened SuperBlocks

  const NR_DIRECT_BLOCKS := 10
  const NR_INDIRECT_BLOCKS := BLOCK_SIZE / 4
  const NR_DOUBLE_BLOCKS := NR_INDIRECT_BLOCKS * NR_INDIRECT_BLOCKS
  const FIRST_DOUBLE := NR_DIRECT_BLOCKS + NR_INDIRECT_BLOCKS
  const MAX_FILE_BLOCKS := FIRST_DOUBLE + NR_DOUBLE_BLOCKS
  const MAX_FILE_SIZE := 34376597504

  // ---------- integers inside a block ----------

  function Byte(v: int): byte {
    (v % 256) as bv8
  }

  function Unpack(a: byte, b: byte, c: byte, d: byte): int {
    var u := (a as int) + 256 * (b as int) + 65536 * (c as int) + 16777216 * (d as int);
    if u <= INT_MAX then u else u - 0x1_0000_0000
  }

  lemma SmallByte(x: int)
    requires 0 <= x < 256
    ensures (x as bv8) as int == x
  {
    if x < 128 {
      if x < 64 {
      } else {
      }
    } else {
      if x < 192 {
      } else {
      }
    }
  }

  lemma ByteValue(v: int)
    ensures Byte(v) as int == v % 256
  {
    SmallByte(v % 256);
  }

  lemma Digits(v: int)
    requires 0 <= v <= INT_MAX
    ensures v == v % 256 + 256 * ((v / 256) % 256) + 65536 * ((v / 65536) % 256) + 16777216 * ((v / 16777216) % 256)
  {
    var q1, q2, q3 := v / 256, v / 65536, v / 16777216;
    assert q2 == q1 / 256;
    assert q3 == q2 / 256;
    assert q3 < 128;
  }

  lemma PackUnpack(v: int)
    requires 0 <= v <= INT_MAX
    ensures Unpack(Byte(v), Byte(v / 256), Byte(v / 65536), Byte(v / 16777216)) == v
  {
    hide Byte;
    ByteValue(v);
    ByteValue(v / 256);
    ByteValue(v / 65536);
    ByteValue(v / 16777216);
    Digits(v);
  }

  lemma ZeroUnpack()
    ensures Unpack(0, 0, 0, 0) == 0
  {
  }

  /** ((int *)block)[i], little endian */
  function Entry(b: Block, i: nat): int
    requires i < NR_INDIRECT_BLOCKS
  {
    Unpack(b[4 * i], b[4 * i + 1], b[4 * i + 2], b[4 * i + 3])
  }

  /** the block after ((int *)block)[i] = v */
  function WithEntry(b: Block, i: nat, v: int): Block
    requires i < NR_INDIRECT_BLOCKS
  {
    b[4 * i := Byte(v)][4 * i + 1 := Byte(v / 256)][4 * i + 2 := Byte(v / 65536)][4 * i + 3 := Byte(v / 16777216)]
  }

  /** Storing one entry of a table changes that entry and no other. */
  lemma StoreEntry(b: Block, i: nat, v: int)
    requires i < NR_INDIRECT_BLOCKS && 0 <= v <= INT_MAX
    ensures forall j: nat | j < NR_INDIRECT_BLOCKS :: Entry(WithEntry(b, i, v), j) == if j == i then v else Entry(b, j)
  {
    hide Unpack, Byte;
    PackUnpack(v);
  }

  lemma ByteInjective(x: byte, y: byte)
    requires x as int == y as int
    ensures x == y
  {
    assert (x as int) as bv8 == x && (y as int) as bv8 == y;
  }

  /** The number with four given digits, as a signed 32-bit integer. */
  function Signed(a: int, b: int, c: int, d: int): int {
    var u := a + 256 * b + 65536 * c + 16777216 * d;
    if u <= INT_MAX then u else u - 0x1_0000_0000
  }

  lemma DigitsUnique(a: int, b: int, c: int, d: int, a': int, b': int, c': int, d': int)
    requires 0 <= a < 256 && 0 <= b < 256 && 0 <= c < 256 && 0 <= d < 256
    requires 0 <= a' < 256 && 0 <= b' < 256 && 0 <= c' < 256 && 0 <= d' < 256
    requires Signed(a, b, c, d) == Signed(a', b', c', d')
    ensures a == a' && b == b' && c == c' && d == d'
  {
    assert d == d';
    assert c == c';
    assert b == b';
  }

  /** The value of a byte as a digit. */
  function Digit(x: byte): (v: int)
    ensures 0 <= v < 256
  {
    x as int
  }

  lemma UnpackDigits(a: byte, b: byte, c: byte, d: byte)
    ensures Unpack(a, b, c, d) == Signed(Digit(a), Digit(b), Digit(c), Digit(d))
  {
  }

  lemma DigitInjective(x: byte, y: byte)
    ensures Digit(x) == Digit(y) ==> x == y
  {
    if Digit(x) == Digit(y) {
      ByteInjective(x, y);
    }
  }

  lemma SameDigits(a: byte, b: byte, c: byte, d: byte, a': byte, b': byte, c': byte, d': byte)
    requires Unpack(a, b, c, d) == Unpack(a', b', c', d')
    ensures Digit(a) == Digit(a') && Digit(b) == Digit(b') && Digit(c) == Digit(c') && Digit(d) == Digit(d')
  {
    hide Unpack, Digit, Signed;
    UnpackDigits(a, b, c, d);
    UnpackDigits(a', b', c', d');
    DigitsUnique(Digit(a), Digit(b), Digit(c), Digit(d), Digit(a'), Digit(b'), Digit(c'), Digit(d'));
  }

  lemma UnpackInjective(a: byte, b: byte, c: byte, d: byte, a': byte, b': byte, c': byte, d': byte)
    requires Unpack(a, b, c, d) == Unpack(a', b', c', d')
    ensures a == a' && b == b' && c == c' && d == d'
  {
    hide Unpack, Digit;
    SameDigits(a, b, c, d, a', b', c', d');
    DigitInjective(a, a');
    DigitInjective(b, b');
    DigitInjective(c, c');
    DigitInjective(d, d');
  }

  /** A block is determined by its entries. */
  lemma SameEntries(b: Block, c: Block)
    requires forall i: nat | i < NR_INDIRECT_BLOCKS :: Entry(b, i) == Entry(c, i)
    ensures b == c
  {
    hide Unpack;
    forall k: nat | k < BLOCK_SIZE ensures b[k] == c[k] {
      var i := k / 4;
      assert Entry(b, i) == Entry(c, i);
      UnpackInjective(b[4 * i], b[4 * i + 1], b[4 * i + 2], b[4 * i + 3], c[4 * i], c[4 * i + 1], c[4 * i + 2],
                      c[4 * i + 3]);
      assert k == 4 * i + k % 4;
    }
  }

  lemma ZeroEntries()
    ensures forall j: nat | j < NR_INDIRECT_BLOCKS :: Entry(ZeroBlock(), j) == 0
  {
  }

  // ---------- the map ----------

  /** struct dinode */
  datatype DInode = DInode(itype: int, direct: seq<int>, indirect: int, dindirect: int, blockCount: int, size: int)

  /** Where a block hangs in an inode: a table, or data reached through zero, one or two tables. */
  datatype Role = Direct(i: nat) | Ind | IndChild(j: nat) | Dind | Sec(i: nat) | Leaf(i: nat, j: nat)

  predicate ValidRole(r: Role) {
    match r
    case Direct(i) => i < NR_DIRECT_BLOCKS
    case Ind => true
    case IndChild(j) => j < NR_INDIRECT_BLOCKS
    case Dind => true
    case Sec(i) => i < NR_INDIRECT_BLOCKS
    case Leaf(i, j) => i < NR_INDIRECT_BLOCKS && j < NR_INDIRECT_BLOCKS
  }

  predicate IsTable(r: Role) {
    r.Ind? || r.Dind? || r.Sec?
  }

  /** The role of logical block n. */
  function DataRole(n: nat): (r: Role)
    requires n < MAX_FILE_BLOCKS
    ensures ValidRole(r) && !IsTable(r)
  {
    if n < NR_DIRECT_BLOCKS then Direct(n)
    else if n < FIRST_DOUBLE then IndChild(n - NR_DIRECT_BLOCKS)
    else Leaf((n - FIRST_DOUBLE) / NR_INDIRECT_BLOCKS, (n - FIRST_DOUBLE) % NR_INDIRECT_BLOCKS)
  }

  /** The logical block a data role stands for. */
  function Logical(r: Role): (n: nat)
    requires ValidRole(r) && !IsTable(r)
  {
    match r
    case Direct(i) => i
    case IndChild(j) => NR_DIRECT_BLOCKS + j
    case Leaf(i, j) => FIRST_DOUBLE + i * NR_INDIRECT_BLOCKS + j
  }

  /** Logical block numbers and data roles correspond one to one. */
  lemma RoleOfBlock(n: nat)
    requires n < MAX_FILE_BLOCKS
    ensures Logical(DataRole(n)) == n
  {
  }

  lemma Digits2(i: nat, j: nat, a: nat, b: nat)
    requires j < NR_INDIRECT_BLOCKS && b < NR_INDIRECT_BLOCKS
    requires i * NR_INDIRECT_BLOCKS + j == a * NR_INDIRECT_BLOCKS + b
    ensures i == a && j == b
  {
    if i < a {
      Rows(i, a);
    } else if a < i {
      Rows(a, i);
    }
  }

  lemma Rows(i: nat, a: nat)
    requires i < a
    ensures i * NR_INDIRECT_BLOCKS + NR_INDIRECT_BLOCKS <= a * NR_INDIRECT_BLOCKS
  {
  }

  lemma Below(q: nat, i: nat, j: nat)
    requires i < NR_INDIRECT_BLOCKS && j < NR_INDIRECT_BLOCKS && q == i * NR_INDIRECT_BLOCKS + j
    ensures q < NR_DOUBLE_BLOCKS
  {
  }

  lemma DivMod(q: nat, i: nat, j: nat)
    requires i < NR_INDIRECT_BLOCKS && j < NR_INDIRECT_BLOCKS && q == i * NR_INDIRECT_BLOCKS + j
    ensures q < NR_DOUBLE_BLOCKS && q / NR_INDIRECT_BLOCKS == i && q % NR_INDIRECT_BLOCKS == j
  {
    Below(q, i, j);
    var a, b := q / NR_INDIRECT_BLOCKS, q % NR_INDIRECT_BLOCKS;
    assert q == a * NR_INDIRECT_BLOCKS + b;
    Digits2(i, j, a, b);
  }

  lemma RowRange(q: nat)
    requires q < NR_INDIRECT_BLOCKS * NR_INDIRECT_BLOCKS
    ensures q / NR_INDIRECT_BLOCKS < NR_INDIRECT_BLOCKS && q % NR_INDIRECT_BLOCKS < NR_INDIRECT_BLOCKS
  {
  }

  lemma LeafRole(q: nat)
    requires q < NR_DOUBLE_BLOCKS
    ensures DataRole(FIRST_DOUBLE + q) == Leaf(q / NR_INDIRECT_BLOCKS, q % NR_INDIRECT_BLOCKS)
  {
    assert FIRST_DOUBLE + q - FIRST_DOUBLE == q;
  }

  lemma BlockOfRole(r: Role)
    requires ValidRole(r) && !IsTable(r)
    ensures Logical(r) < MAX_FILE_BLOCKS && DataRole(Logical(r)) == r
  {
    if r.Leaf? {
      hide DataRole;
      var q := r.i * NR_INDIRECT_BLOCKS + r.j;
      DivMod(q, r.i, r.j);
      LeafRole(q);
    }
  }

  /** Entry i of the table at block p; 0 when there is no table. */
  function Child(dev: seq<Block>, p: int, i: nat): int
    requires i < NR_INDIRECT_BLOCKS
  {
    if 0 < p < |dev| then Entry(dev[p], i) else 0
  }

  /** The physical block number found at a role, 0 when nothing is there. */
  function Ptr(dev: seq<Block>, d: DInode, r: Role): int
    requires |d.direct| == NR_DIRECT_BLOCKS && ValidRole(r)
  {
    match r
    case Direct(i) => d.direct[i]
    case Ind => d.indirect
    case IndChild(j) => Child(dev, d.indirect, j)
    case Dind => d.dindirect
    case Sec(i) => Child(dev, d.dindirect, i)
    case Leaf(i, j) => Child(dev, Child(dev, d.dindirect, i), j)
  }

  /** own is exactly the inverse of the map: each owned block is pointed to from one role, so no
      block is used twice; block_count counts them all, tables included. */
  ghost predicate Owns(dev: seq<Block>, d: DInode, own: map<int, Role>) {
    && |d.direct| == NR_DIRECT_BLOCKS
    && (forall r | ValidRole(r) && Ptr(dev, d, r) != 0 :: Ptr(dev, d, r) in own && own[Ptr(dev, d, r)] == r)
    && (forall p | p in own ::
          DATA_BLOCKS_START <= p < |dev| && ValidRole(own[p]) && Ptr(dev, d, own[p]) == p)
    && d.blockCount == |own|
  }

  /** Every table that exists has a mapped child. */
  ghost predicate Populated(dev: seq<Block>, d: DInode)
    requires |d.direct| == NR_DIRECT_BLOCKS
  {
    && (d.indirect != 0 ==> exists j: nat :: j < NR_INDIRECT_BLOCKS && Ptr(dev, d, IndChild(j)) != 0)
    && (d.dindirect != 0 ==> exists i: nat :: i < NR_INDIRECT_BLOCKS && Ptr(dev, d, Sec(i)) != 0)
    && (forall i: nat | i < NR_INDIRECT_BLOCKS && Ptr(dev, d, Sec(i)) != 0 ::
          exists j: nat :: j < NR_INDIRECT_BLOCKS && Ptr(dev, d, Leaf(i, j)) != 0)
  }

  /** Blocks with different roles have different numbers. */
  lemma PointersDistinct(dev: seq<Block>, d: DInode, own: map<int, Role>, r: Role, s: Role)
    requires Owns(dev, d, own) && ValidRole(r) && ValidRole(s) && r != s
    requires Ptr(dev, d, r) != 0
    ensures Ptr(dev, d, r) != Ptr(dev, d, s)
  {
  }

  // ---------- hanging a fresh block on the map ----------

  predicate InTable(r: Role) {
    r.IndChild? || r.Sec? || r.Leaf?
  }

  /** The table block that holds the pointer of a role. */
  function ParentTable(dev: seq<Block>, d: DInode, r: Role): int
    requires ValidRole(r) && InTable(r)
  {
    match r
    case IndChild(_) => d.indirect
    case Sec(_) => d.dindirect
    case Leaf(i, _) => Child(dev, d.dindirect, i)
  }

  function ParentIndex(r: Role): (i: nat)
    requires ValidRole(r) && InTable(r)
    ensures i < NR_INDIRECT_BLOCKS
  {
    match r
    case IndChild(j) => j
    case Sec(i) => i
    case Leaf(_, j) => j
  }

  /** The inode after block p is hung at role r: the pointer is stored and p is counted. */
  function AttachInode(d: DInode, r: Role, p: int): DInode
    requires |d.direct| == NR_DIRECT_BLOCKS && ValidRole(r)
  {
    var e := d.(blockCount := d.blockCount + 1);
    match r
    case Direct(i) => e.(direct := d.direct[i := p])
    case Ind => e.(indirect := p)
    case Dind => e.(dindirect := p)
    case _ => e
  }

  /** The device after entry i of the table at block t is set to p. */
  function PutEntry(dev: seq<Block>, t: int, i: nat, p: int): (after: seq<Block>)
    requires i < NR_INDIRECT_BLOCKS
    ensures |after| == |dev|
  {
    if 0 < t < |dev| then dev[t := WithEntry(dev[t], i, p)] else dev
  }

  /** The device after block p is hung at role r: the parent table holds p, and p, when it is a
      table itself, holds zeros. */
  function AttachDevice(dev: seq<Block>, d: DInode, r: Role, p: int): (after: seq<Block>)
    requires |d.direct| == NR_DIRECT_BLOCKS && ValidRole(r) && 0 < p < |dev|
    ensures |after| == |dev|
  {
    match r
    case Direct(_) => dev
    case Ind => dev[p := ZeroBlock()]
    case Dind => dev[p := ZeroBlock()]
    case IndChild(j) => PutEntry(dev, d.indirect, j, p)
    case Sec(i) => PutEntry(dev, d.dindirect, i, p)[p := ZeroBlock()]
    case Leaf(i, j) => PutEntry(dev, Child(dev, d.dindirect, i), j, p)
  }

  /** Hanging a block the inode does not own at an empty role changes that role and no other. */
  lemma AttachPtr(dev: seq<Block>, d: DInode, own: map<int, Role>, r: Role, p: int, s: Role)
    requires Owns(dev, d, own) && ValidRole(r) && ValidRole(s)
    requires DATA_BLOCKS_START <= p < |dev| <= INT_MAX && p !in own
    requires Ptr(dev, d, r) == 0 && (InTable(r) ==> ParentTable(dev, d, r) != 0)
    ensures Ptr(AttachDevice(dev, d, r, p), AttachInode(d, r, p), s) == if s == r then p else Ptr(dev, d, s)
  {
    hide Entry, WithEntry;
    ZeroEntries();
    assert Ptr(dev, d, Ind) == d.indirect && Ptr(dev, d, Dind) == d.dindirect;
    assert s.Leaf? ==> Ptr(dev, d, Sec(s.i)) == Child(dev, d.dindirect, s.i);
    assert r.Leaf? ==> Ptr(dev, d, Sec(r.i)) == Child(dev, d.dindirect, r.i);
    match r
    case Direct(i) =>
    case Ind =>
    case Dind =>
    case IndChild(j) => StoreEntry(dev[d.indirect], j, p);
    case Sec(i) => StoreEntry(dev[d.dindirect], i, p);
    case Leaf(i, j) => StoreEntry(dev[Ptr(dev, d, Sec(i))], j, p);
  }

  /** After a block is hung on the map, own with the new block is again its exact inverse. */
  lemma AttachOwns(dev: seq<Block>, d: DInode, own: map<int, Role>, r: Role, p: int)
    requires Owns(dev, d, own) && ValidRole(r)
    requires DATA_BLOCKS_START <= p < |dev| <= INT_MAX && p !in own
    requires Ptr(dev, d, r) == 0 && (InTable(r) ==> ParentTable(dev, d, r) != 0)
    ensures Owns(AttachDevice(dev, d, r, p), AttachInode(d, r, p), own[p := r])
  {
    var dev', d', own' := AttachDevice(dev, d, r, p), AttachInode(d, r, p), own[p := r];
    forall s | ValidRole(s) ensures Ptr(dev', d', s) == if s == r then p else Ptr(dev, d, s) {
      AttachPtr(dev, d, own, r, p, s);
    }
    hide Ptr, AttachDevice;
    assert own'.Keys == own.Keys + {p};
  }

  /** Hanging a block writes no block that the inode owns, except the table that gets the pointer. */
  lemma AttachWrites(dev: seq<Block>, d: DInode, own: map<int, Role>, r: Role, p: int, q: int)
    requires Owns(dev, d, own) && ValidRole(r)
    requires DATA_BLOCKS_START <= p < |dev| && p !in own
    requires 0 <= q < |dev| && q != p
    requires InTable(r) ==> q != ParentTable(dev, d, r)
    ensures AttachDevice(dev, d, r, p)[q] == dev[q]
  {
  }

  /** The map depends on no block outside own. */
  lemma OwnsFrame(dev: seq<Block>, dev': seq<Block>, d: DInode, own: map<int, Role>)
    requires Owns(dev, d, own) && |dev'| == |dev|
    requires forall p | p in own && IsTable(own[p]) :: dev'[p] == dev[p]
    ensures Owns(dev', d, own)
    ensures forall r | ValidRole(r) :: Ptr(dev', d, r) == Ptr(dev, d, r)
  {
    forall r | ValidRole(r) ensures Ptr(dev', d, r) == Ptr(dev, d, r) {
      assert Ptr(dev, d, Ind) == d.indirect && Ptr(dev, d, Dind) == d.dindirect;
      assert r.Leaf? ==> Ptr(dev, d, Sec(r.i)) == Child(dev, d.dindirect, r.i);
    }
  }

  /** Hanging a block, on a device that need only agree with AttachDevice past the freemaps. */
  lemma Hang(dev: seq<Block>, d: DInode, own: map<int, Role>, r: Role, p: int, dev': seq<Block>)
    requires Owns(dev, d, own) && ValidRole(r)
    requires DATA_BLOCKS_START <= p < |dev| <= INT_MAX && p !in own
    requires Ptr(dev, d, r) == 0 && (InTable(r) ==> ParentTable(dev, d, r) != 0)
    requires |dev'| == |dev|
    requires forall b | INODE_BLOCKS_START <= b < |dev| :: dev'[b] == AttachDevice(dev, d, r, p)[b]
    ensures Owns(dev', AttachInode(d, r, p), own[p := r])
    ensures forall s | ValidRole(s) :: Ptr(dev', AttachInode(d, r, p), s) == if s == r then p else Ptr(dev, d, s)
    ensures forall q | q in own && !IsTable(own[q]) :: dev'[q] == dev[q]
  {
    AttachOwns(dev, d, own, r, p);
    var a := AttachDevice(dev, d, r, p);
    OwnsFrame(a, dev', AttachInode(d, r, p), own[p := r]);
    forall s | ValidRole(s)
      ensures Ptr(dev', AttachInode(d, r, p), s) == if s == r then p else Ptr(dev, d, s)
    {
      AttachPtr(dev, d, own, r, p, s);
    }
    forall q | q in own && !IsTable(own[q]) ensures dev'[q] == dev[q] {
      if InTable(r) {
        ParentOwned(dev, d, own, r);
      }
      AttachWrites(dev, d, own, r, p, q);
    }
  }

  /** The table that holds a role's pointer is an owned table. */
  lemma ParentOwned(dev: seq<Block>, d: DInode, own: map<int, Role>, r: Role)
    requires Owns(dev, d, own) && ValidRole(r) && InTable(r) && ParentTable(dev, d, r) != 0
    ensures ParentTable(dev, d, r) in own && IsTable(own[ParentTable(dev, d, r)])
    ensures r.Leaf? ==> own[ParentTable(dev, d, r)] == Sec(r.i)
    ensures r.Sec? ==> own[ParentTable(dev, d, r)] == Dind
    ensures r.IndChild? ==> own[ParentTable(dev, d, r)] == Ind
    ensures DATA_BLOCKS_START <= ParentTable(dev, d, r) < |dev|
  {
    TablePtrs(dev, d);
    match r
    case IndChild(_) => assert Ptr(dev, d, Ind) in own;
    case Sec(_) => assert Ptr(dev, d, Dind) in own;
    case Leaf(i, _) => assert Ptr(dev, d, Sec(i)) in own;
  }

  // ---------- what the code reads ----------

  /** A hole whose second-level table is missing while the double-indirect table exists. */
  predicate Leaky(dev: seq<Block>, d: DInode, n: nat)
    requires n < MAX_FILE_BLOCKS
  {
    n >= FIRST_DOUBLE && d.dindirect != 0 && Child(dev, d.dindirect, (n - FIRST_DOUBLE) / NR_INDIRECT_BLOCKS) == 0
  }

  /** The contents logical block n is meant to have: its data block, or zeros for a hole. */
  function Contents(dev: seq<Block>, d: DInode, n: nat): Block
    requires |d.direct| == NR_DIRECT_BLOCKS && n < MAX_FILE_BLOCKS
  {
    var p := Ptr(dev, d, DataRole(n));
    if 0 < p < |dev| then dev[p] else ZeroBlock()
  }

  /** What testfs_read_block leaves in the buffer: as meant, except that for a leaky hole the
      buffer still holds the double-indirect table. */
  function Fetched(dev: seq<Block>, d: DInode, n: nat): Block
    requires |d.direct| == NR_DIRECT_BLOCKS && n < MAX_FILE_BLOCKS
  {
    if Leaky(dev, d, n) && 0 < d.dindirect < |dev| then dev[d.dindirect] else Contents(dev, d, n)
  }

  /** Every pointer is 0 or the number of a data block of the device. */
  lemma PtrRange(dev: seq<Block>, d: DInode, own: map<int, Role>, r: Role)
    requires Owns(dev, d, own) && ValidRole(r)
    ensures Ptr(dev, d, r) == 0 || DATA_BLOCKS_START <= Ptr(dev, d, r) < |dev|
  {
  }

  /** The walk through the tables, level by level. */
  lemma Lookup(dev: seq<Block>, d: DInode, own: map<int, Role>, n: nat)
    requires Owns(dev, d, own) && n < MAX_FILE_BLOCKS
    ensures |d.direct| == NR_DIRECT_BLOCKS
    ensures var p := Ptr(dev, d, DataRole(n));
      && (p == 0 || DATA_BLOCKS_START <= p < |dev|)
      && (d.indirect == 0 || (d.indirect in own && DATA_BLOCKS_START <= d.indirect < |dev|))
      && (d.dindirect == 0 || (d.dindirect in own && DATA_BLOCKS_START <= d.dindirect < |dev|))
      && (n < NR_DIRECT_BLOCKS ==> p == d.direct[n])
      && (NR_DIRECT_BLOCKS <= n < FIRST_DOUBLE ==>
            p == if d.indirect == 0 then 0 else Entry(dev[d.indirect], n - NR_DIRECT_BLOCKS))
      && (n < FIRST_DOUBLE || d.dindirect == 0 ==> !Leaky(dev, d, n))
      && (n >= FIRST_DOUBLE && d.dindirect == 0 ==> p == 0)
      && (n >= FIRST_DOUBLE && d.dindirect != 0 ==>
            var s := Entry(dev[d.dindirect], (n - FIRST_DOUBLE) / NR_INDIRECT_BLOCKS);
            && s == Ptr(dev, d, Sec((n - FIRST_DOUBLE) / NR_INDIRECT_BLOCKS))
            && (s == 0 || (s in own && DATA_BLOCKS_START <= s < |dev|))
            && p == (if s == 0 then 0 else Entry(dev[s], (n - FIRST_DOUBLE) % NR_INDIRECT_BLOCKS))
            && (Leaky(dev, d, n) <==> s == 0))
      && Fetched(dev, d, n) == (if Leaky(dev, d, n) then dev[d.dindirect] else if p == 0 then ZeroBlock() else dev[p])
  {
    hide Entry;
    PtrRange(dev, d, own, DataRole(n));
    PtrRange(dev, d, own, Ind);
    PtrRange(dev, d, own, Dind);
    if n >= FIRST_DOUBLE {
      PtrRange(dev, d, own, Sec((n - FIRST_DOUBLE) / NR_INDIRECT_BLOCKS));
    }
    hide Owns;
  }

  /** The code reads what it should exactly when the block is not a leaky hole. */
  lemma FetchedIff(dev: seq<Block>, d: DInode, own: map<int, Role>, n: nat)
    requires Owns(dev, d, own) && Populated(dev, d) && n < MAX_FILE_BLOCKS
    ensures Fetched(dev, d, n) == Contents(dev, d, n) <==> !Leaky(dev, d, n)
  {
    if Leaky(dev, d, n) {
      var i: nat :| i < NR_INDIRECT_BLOCKS && Ptr(dev, d, Sec(i)) != 0;
      assert Ptr(dev, d, Dind) == d.dindirect;
      assert Entry(dev[d.dindirect], i) != 0;
      ZeroEntries();
      assert Contents(dev, d, n) == ZeroBlock();
    }
  }

  /** Byte k of the file. */
  function ByteAt(dev: seq<Block>, d: DInode, k: nat): byte
    requires |d.direct| == NR_DIRECT_BLOCKS
  {
    if k / BLOCK_SIZE < MAX_FILE_BLOCKS then Contents(dev, d, k / BLOCK_SIZE)[k % BLOCK_SIZE] else 0
  }

  /** Byte k of the file as testfs_read_block delivers it. */
  function FetchedAt(dev: seq<Block>, d: DInode, k: nat): byte
    requires |d.direct| == NR_DIRECT_BLOCKS && k / BLOCK_SIZE < MAX_FILE_BLOCKS
  {
    Fetched(dev, d, k / BLOCK_SIZE)[k % BLOCK_SIZE]
  }

  /** The n bytes of the file that lie in block nr from offset from on. */
  lemma Window(dev: seq<Block>, d: DInode, nr: nat, from: nat, n: nat, first: nat)
    requires |d.direct| == NR_DIRECT_BLOCKS && nr < MAX_FILE_BLOCKS
    requires from + n <= BLOCK_SIZE && first == nr * BLOCK_SIZE + from
    ensures forall k | first <= k < first + n ::
              k / BLOCK_SIZE == nr && FetchedAt(dev, d, k) == Fetched(dev, d, nr)[from + k - first]
  {
    hide Fetched;
  }

  lemma FileSize()
    ensures MAX_FILE_SIZE == MAX_FILE_BLOCKS * BLOCK_SIZE
  {
  }

  // ---------- snapshots ----------

  /** An inode, the device under it and the allocator, at one moment. */
  datatype Snap = Snap(dev: seq<Block>, d: DInode, own: map<int, Role>, used: set<int>, free: int)

  /** The devices agree past the freemaps. */
  ghost predicate SameData(dev: seq<Block>, dev': seq<Block>) {
    |dev'| == |dev| == NR_BLOCKS && forall b | INODE_BLOCKS_START <= b < NR_BLOCKS :: dev'[b] == dev[b]
  }

  /** The inode blocks and the blocks of other inodes are as they were. */
  ghost predicate Framed(z: Snap, dev: seq<Block>) {
    && |dev| == |z.dev| == NR_BLOCKS
    && forall b | INODE_BLOCKS_START <= b < NR_BLOCKS && (b < DATA_BLOCKS_START || b in z.used - z.own.Keys) ::
         dev[b] == z.dev[b]
  }

  // ---------- mapping one more logical block ----------

  /** The roles from the inode down to logical block n. */
  function Path(n: nat): set<Role>
    requires n < MAX_FILE_BLOCKS
  {
    if n < NR_DIRECT_BLOCKS then {Direct(n)}
    else if n < FIRST_DOUBLE then {Ind, IndChild(n - NR_DIRECT_BLOCKS)}
    else {Dind, Sec((n - FIRST_DOUBLE) / NR_INDIRECT_BLOCKS), DataRole(n)}
  }

  /** How many blocks must be allocated to map logical block n. */
  function Needs(dev: seq<Block>, d: DInode, n: nat): nat
    requires |d.direct| == NR_DIRECT_BLOCKS && n < MAX_FILE_BLOCKS
  {
    if Ptr(dev, d, DataRole(n)) != 0 then 0
    else if n < NR_DIRECT_BLOCKS then 1
    else if n < FIRST_DOUBLE then if d.indirect == 0 then 2 else 1
    else if d.dindirect == 0 then 3
    else if Ptr(dev, d, Sec((n - FIRST_DOUBLE) / NR_INDIRECT_BLOCKS)) == 0 then 2
    else 1
  }

  /** An allocation under the double-indirect table that runs out of space half way: the code
      frees what it took but leaves a pointer to it. */
  predicate Strands(dev: seq<Block>, d: DInode, n: nat, free: int)
    requires |d.direct| == NR_DIRECT_BLOCKS && n < MAX_FILE_BLOCKS
  {
    n >= FIRST_DOUBLE && 0 < free < Needs(dev, d, n)
  }

  /** Some pointer of the inode leads to a block that is not allocated. */
  ghost predicate Dangling(dev: seq<Block>, d: DInode, used: set<int>)
    requires |d.direct| == NR_DIRECT_BLOCKS
  {
    exists r :: ValidRole(r) && Ptr(dev, d, r) != 0 && Ptr(dev, d, r) !in used
  }

  lemma DanglingIsNotOwned(dev: seq<Block>, d: DInode, own: map<int, Role>, used: set<int>)
    requires |d.direct| == NR_DIRECT_BLOCKS && Dangling(dev, d, used)
    ensures !(Owns(dev, d, own) && own.Keys <= used)
  {
  }

  /** The state after logical block n has been mapped: every role off the path keeps its pointer,
      every role on it is filled, nothing that was mapped moves, and no data block is written. */
  ghost predicate Grown(dev: seq<Block>, d: DInode, own: map<int, Role>,
                        dev': seq<Block>, d': DInode, own': map<int, Role>, n: nat)
    requires n < MAX_FILE_BLOCKS
  {
    && Owns(dev, d, own) && Owns(dev', d', own') && |dev'| == |dev|
    && d'.size == d.size && d'.itype == d.itype
    && (forall r | ValidRole(r) && r !in Path(n) :: Ptr(dev', d', r) == Ptr(dev, d, r))
    && (forall r | r in Path(n) :: ValidRole(r) && Ptr(dev', d', r) != 0)
    && (forall p | p in own :: p in own' && own'[p] == own[p])
    && (forall p | p in own && !IsTable(own[p]) :: dev'[p] == dev[p])
    && |own'| == |own| + Needs(dev, d, n)
  }

  /** When the tables above logical block n exist, one more block maps it. */
  lemma GrowLast(dev: seq<Block>, d: DInode, own: map<int, Role>, n: nat, p: int, dev': seq<Block>)
    requires Owns(dev, d, own) && n < MAX_FILE_BLOCKS && Needs(dev, d, n) == 1
    requires DATA_BLOCKS_START <= p < |dev| <= INT_MAX && p !in own
    requires |dev'| == |dev|
    requires forall b | INODE_BLOCKS_START <= b < |dev| :: dev'[b] == AttachDevice(dev, d, DataRole(n), p)[b]
    ensures Grown(dev, d, own, dev', AttachInode(d, DataRole(n), p), own[p := DataRole(n)], n)
    ensures Ptr(dev', AttachInode(d, DataRole(n), p), DataRole(n)) == p
  {
    var r := DataRole(n);
    PathTables(dev, d, n);
    Hang(dev, d, own, r, p, dev');
    assert own[p := r].Keys == own.Keys + {p};
    hide Owns, Ptr, Needs, AttachDevice, Path, DataRole;
  }

  lemma GrowDirect(dev: seq<Block>, d: DInode, own: map<int, Role>, n: nat, p: int, dev': seq<Block>)
    requires Owns(dev, d, own) && n < NR_DIRECT_BLOCKS && Needs(dev, d, n) == 1
    requires DATA_BLOCKS_START <= p < |dev| <= INT_MAX && p !in own
    requires |dev'| == |dev| && forall b | INODE_BLOCKS_START <= b < |dev| :: dev'[b] == dev[b]
    ensures var d' := d.(direct := d.direct[n := p], blockCount := d.blockCount + 1);
      Grown(dev, d, own, dev', d', own[p := DataRole(n)], n) && Ptr(dev', d', DataRole(n)) == p
  {
    hide Grown, Owns, Ptr, Needs;
    GrowLast(dev, d, own, n, p, dev');
  }

  lemma GrowInTable(dev: seq<Block>, d: DInode, own: map<int, Role>, n: nat, t: int, i: nat, p: int, dev': seq<Block>)
    requires Owns(dev, d, own) && NR_DIRECT_BLOCKS <= n < MAX_FILE_BLOCKS && Needs(dev, d, n) == 1
    requires t == ParentTable(dev, d, DataRole(n)) && i == ParentIndex(DataRole(n))
    requires DATA_BLOCKS_START <= p < |dev| <= INT_MAX && p !in own
    requires |dev'| == |dev|
    requires forall b | INODE_BLOCKS_START <= b < |dev| :: dev'[b] == if b == t then WithEntry(dev[b], i, p) else dev[b]
    ensures var d' := d.(blockCount := d.blockCount + 1);
      Grown(dev, d, own, dev', d', own[p := DataRole(n)], n) && Ptr(dev', d', DataRole(n)) == p
  {
    PathTables(dev, d, n);
    ParentOwned(dev, d, own, DataRole(n));
    hide Grown, Owns, Ptr, Needs, Entry, WithEntry;
    GrowLast(dev, d, own, n, p, dev');
  }

  /** A block hung in the existing single-indirect table. */
  lemma GrowInIndirect(dev: seq<Block>, d: DInode, own: map<int, Role>, n: nat, p: int, dev': seq<Block>)
    requires Owns(dev, d, own) && NR_DIRECT_BLOCKS <= n < FIRST_DOUBLE && Needs(dev, d, n) == 1
    requires DATA_BLOCKS_START <= p < |dev| <= INT_MAX && p !in own
    requires |dev'| == |dev|
    requires forall b | INODE_BLOCKS_START <= b < |dev| ::
               dev'[b] == if b == d.indirect then WithEntry(dev[b], n - NR_DIRECT_BLOCKS, p) else dev[b]
    ensures var d' := d.(blockCount := d.blockCount + 1);
      Grown(dev, d, own, dev', d', own[p := DataRole(n)], n) && Ptr(dev', d', DataRole(n)) == p
  {
    hide Grown, Owns, Ptr, Needs, Entry, WithEntry;
    GrowInTable(dev, d, own, n, d.indirect, n - NR_DIRECT_BLOCKS, p, dev');
  }

  /** A block hung in an existing second-level table s. */
  lemma GrowInSecond(dev: seq<Block>, d: DInode, own: map<int, Role>, n: nat, s: int, p: int, dev': seq<Block>)
    requires Owns(dev, d, own) && FIRST_DOUBLE <= n < MAX_FILE_BLOCKS && Needs(dev, d, n) == 1
    requires s == Ptr(dev, d, Sec((n - FIRST_DOUBLE) / NR_INDIRECT_BLOCKS))
    requires DATA_BLOCKS_START <= p < |dev| <= INT_MAX && p !in own
    requires |dev'| == |dev|
    requires forall b | INODE_BLOCKS_START <= b < |dev| ::
               dev'[b] == if b == s then WithEntry(dev[b], (n - FIRST_DOUBLE) % NR_INDIRECT_BLOCKS, p) else dev[b]
    ensures var d' := d.(blockCount := d.blockCount + 1);
      Grown(dev, d, own, dev', d', own[p := DataRole(n)], n) && Ptr(dev', d', DataRole(n)) == p
  {
    TablePtrs(dev, d);
    hide Grown, Owns, Ptr, Needs, Entry, WithEntry;
    GrowInTable(dev, d, own, n, s, (n - FIRST_DOUBLE) % NR_INDIRECT_BLOCKS, p, dev');
  }

  /** One block is needed exactly when only the last role of the path is empty. */
  lemma PathTables(dev: seq<Block>, d: DInode, n: nat)
    requires |d.direct| == NR_DIRECT_BLOCKS && n < MAX_FILE_BLOCKS && Needs(dev, d, n) == 1
    ensures Ptr(dev, d, DataRole(n)) == 0 && DataRole(n) in Path(n)
    ensures InTable(DataRole(n)) ==> ParentTable(dev, d, DataRole(n)) != 0
    ensures forall s | s in Path(n) && s != DataRole(n) :: ValidRole(s) && Ptr(dev, d, s) != 0
  {
    hide Entry;
  }

  /** Hanging a missing table of the path first, and mapping the block afterwards, maps the block. */
  lemma GrowAbove(dev: seq<Block>, d: DInode, own: map<int, Role>, r: Role, q: int,
                  a: seq<Block>, dev': seq<Block>, d': DInode, own': map<int, Role>, n: nat)
    requires Owns(dev, d, own) && n < MAX_FILE_BLOCKS && r in Path(n) && IsTable(r) && ValidRole(r)
    requires DATA_BLOCKS_START <= q < |dev| <= INT_MAX && q !in own
    requires Ptr(dev, d, r) == 0 && (InTable(r) ==> ParentTable(dev, d, r) != 0)
    requires |a| == |dev|
    requires forall b | INODE_BLOCKS_START <= b < |dev| :: a[b] == AttachDevice(dev, d, r, q)[b]
    requires Owns(a, AttachInode(d, r, q), own[q := r]) ==>
               Grown(a, AttachInode(d, r, q), own[q := r], dev', d', own', n)
    requires Needs(dev, d, n) == Needs(a, AttachInode(d, r, q), n) + 1
    ensures Grown(dev, d, own, dev', d', own', n)
  {
    var d1, own1 := AttachInode(d, r, q), own[q := r];
    Hang(dev, d, own, r, q, a);
    assert own1.Keys == own.Keys + {q};
    assert d1.size == d.size && d1.itype == d.itype;
    hide Owns, Ptr, Needs, Path, AttachDevice, AttachInode;
  }

  /** A single-indirect block whose table is missing is mapped by two blocks. */
  lemma GrowIndirect(dev: seq<Block>, d: DInode, own: map<int, Role>, n: nat, t: int, p: int, dev': seq<Block>)
    requires Owns(dev, d, own) && NR_DIRECT_BLOCKS <= n < FIRST_DOUBLE && d.indirect == 0
    requires DATA_BLOCKS_START <= t < |dev| <= INT_MAX && t !in own
    requires DATA_BLOCKS_START <= p < |dev| && p !in own && p != t
    requires |dev'| == |dev|
    requires forall b | INODE_BLOCKS_START <= b < |dev| ::
               dev'[b] == if b == t then WithEntry(ZeroBlock(), n - NR_DIRECT_BLOCKS, p) else dev[b]
    ensures var d' := d.(indirect := t, blockCount := d.blockCount + 2);
      Grown(dev, d, own, dev', d', own[t := Ind][p := DataRole(n)], n) && Ptr(dev', d', DataRole(n)) == p
  {
    var a, d1, own1 := dev[t := ZeroBlock()], AttachInode(d, Ind, t), own[t := Ind];
    Hang(dev, d, own, Ind, t, a);
    hide Owns, WithEntry, Entry, Grown;
    NeedsLast(a, d1, n);
    GrowLast(a, d1, own1, n, p, dev');
    GrowAbove(dev, d, own, Ind, t, a, dev', AttachInode(d1, DataRole(n), p), own1[p := DataRole(n)], n);
  }

  lemma NeedsLast(dev: seq<Block>, d: DInode, n: nat)
    requires |d.direct| == NR_DIRECT_BLOCKS && n < MAX_FILE_BLOCKS
    requires Ptr(dev, d, DataRole(n)) == 0
    requires NR_DIRECT_BLOCKS <= n < FIRST_DOUBLE ==> Ptr(dev, d, Ind) != 0
    requires n >= FIRST_DOUBLE ==>
               Ptr(dev, d, Dind) != 0 && Ptr(dev, d, Sec((n - FIRST_DOUBLE) / NR_INDIRECT_BLOCKS)) != 0
    ensures Needs(dev, d, n) == 1
  {
    hide Entry;
  }

  /** When the second-level table is missing below an existing one, two blocks map the block. */
  lemma GrowSecond(dev: seq<Block>, d: DInode, own: map<int, Role>, n: nat, s: int, p: int, dev': seq<Block>)
    requires Owns(dev, d, own) && FIRST_DOUBLE <= n < MAX_FILE_BLOCKS
    requires d.dindirect != 0 && Ptr(dev, d, Sec((n - FIRST_DOUBLE) / NR_INDIRECT_BLOCKS)) == 0
    requires DATA_BLOCKS_START <= s < |dev| <= INT_MAX && s !in own
    requires DATA_BLOCKS_START <= p < |dev| && p !in own && p != s
    requires |dev'| == |dev|
    requires forall b | INODE_BLOCKS_START <= b < |dev| ::
               dev'[b] == if b == s then WithEntry(ZeroBlock(), (n - FIRST_DOUBLE) % NR_INDIRECT_BLOCKS, p)
                          else if b == d.dindirect then WithEntry(dev[b], (n - FIRST_DOUBLE) / NR_INDIRECT_BLOCKS, s)
                          else dev[b]
    ensures var sec, d' := Sec((n - FIRST_DOUBLE) / NR_INDIRECT_BLOCKS), d.(blockCount := d.blockCount + 2);
      Grown(dev, d, own, dev', d', own[s := sec][p := DataRole(n)], n) && Ptr(dev', d', DataRole(n)) == p
  {
    var sec := Sec((n - FIRST_DOUBLE) / NR_INDIRECT_BLOCKS);
    ParentOwned(dev, d, own, sec);
    var a, d1, own1 := AttachDevice(dev, d, sec, s), AttachInode(d, sec, s), own[s := sec];
    Hang(dev, d, own, sec, s, a);
    TablePtrs(a, d1);
    NeedsTables(dev, d, n);
    hide Owns, WithEntry, Entry, Grown;
    assert Ptr(a, d1, sec) == s && Ptr(a, d1, DataRole(n)) == 0;
    NeedsLast(a, d1, n);
    assert a[s] == ZeroBlock();
    GrowLast(a, d1, own1, n, p, dev');
    GrowAbove(dev, d, own, sec, s, a, dev', AttachInode(d1, DataRole(n), p), own1[p := DataRole(n)], n);
  }

  lemma NeedsTables(dev: seq<Block>, d: DInode, n: nat)
    requires |d.direct| == NR_DIRECT_BLOCKS && FIRST_DOUBLE <= n < MAX_FILE_BLOCKS
    requires Ptr(dev, d, Sec((n - FIRST_DOUBLE) / NR_INDIRECT_BLOCKS)) == 0
    ensures Ptr(dev, d, DataRole(n)) == 0 && Needs(dev, d, n) == if d.dindirect == 0 then 3 else 2
  {
    hide Entry;
  }

  /** When the double-indirect table is missing too, three blocks map the block. */
  lemma GrowDouble(dev: seq<Block>, d: DInode, own: map<int, Role>, n: nat, t: int, s: int, p: int, dev': seq<Block>)
    requires Owns(dev, d, own) && FIRST_DOUBLE <= n < MAX_FILE_BLOCKS && d.dindirect == 0
    requires DATA_BLOCKS_START <= t < |dev| <= INT_MAX && t !in own
    requires DATA_BLOCKS_START <= s < |dev| && s !in own && s != t
    requires DATA_BLOCKS_START <= p < |dev| && p !in own && p != s && p != t
    requires |dev'| == |dev|
    requires forall b | INODE_BLOCKS_START <= b < |dev| ::
               dev'[b] == if b == s then WithEntry(ZeroBlock(), (n - FIRST_DOUBLE) % NR_INDIRECT_BLOCKS, p)
                          else if b == t then WithEntry(ZeroBlock(), (n - FIRST_DOUBLE) / NR_INDIRECT_BLOCKS, s)
                          else dev[b]
    ensures var sec, d' := Sec((n - FIRST_DOUBLE) / NR_INDIRECT_BLOCKS),
      d.(dindirect := t, blockCount := d.blockCount + 3);
      Grown(dev, d, own, dev', d', own[t := Dind][s := sec][p := DataRole(n)], n) && Ptr(dev', d', DataRole(n)) == p
  {
    var sec := Sec((n - FIRST_DOUBLE) / NR_INDIRECT_BLOCKS);
    TablePtrs(dev, d);
    var a, d1, own1 := dev[t := ZeroBlock()], AttachInode(d, Dind, t), own[t := Dind];
    Hang(dev, d, own, Dind, t, a);
    NeedsTables(dev, d, n);
    NeedsTables(a, d1, n);
    hide Owns, WithEntry, Entry, Grown, Ptr, Needs;
    GrowSecond(a, d1, own1, n, s, p, dev');
    GrowAbove(dev, d, own, Dind, t, a, dev', AttachInode(AttachInode(d1, sec, s), DataRole(n), p),
              own1[s := sec][p := DataRole(n)], n);
  }

  /** What a hole below the single-indirect table looks like to the code. */
  lemma IndirectHole(dev: seq<Block>, d: DInode, own: map<int, Role>, n: nat)
    requires Owns(dev, d, own) && NR_DIRECT_BLOCKS <= n < FIRST_DOUBLE && Ptr(dev, d, DataRole(n)) == 0
    ensures Needs(dev, d, n) == if d.indirect == 0 then 2 else 1
    ensures d.indirect != 0 ==> d.indirect in own && DATA_BLOCKS_START <= d.indirect < |dev|
    ensures d.indirect != 0 ==> Entry(dev[d.indirect], n - NR_DIRECT_BLOCKS) == 0
  {
    hide Entry;
    Lookup(dev, d, own, n);
  }

  /** What a hole below the double-indirect table looks like to the code. */
  lemma DoubleHole(dev: seq<Block>, d: DInode, own: map<int, Role>, n: nat)
    requires Owns(dev, d, own) && FIRST_DOUBLE <= n < MAX_FILE_BLOCKS && Ptr(dev, d, DataRole(n)) == 0
    ensures d.dindirect == 0 ==> Needs(dev, d, n) == 3
    ensures d.dindirect != 0 ==> d.dindirect in own && DATA_BLOCKS_START <= d.dindirect < |dev|
    ensures d.dindirect != 0 ==>
              var s := Entry(dev[d.dindirect], (n - FIRST_DOUBLE) / NR_INDIRECT_BLOCKS);
              && s == Ptr(dev, d, Sec((n - FIRST_DOUBLE) / NR_INDIRECT_BLOCKS))
              && Needs(dev, d, n) == (if s == 0 then 2 else 1)
              && (s != 0 ==> s in own && DATA_BLOCKS_START <= s < |dev| && s != d.dindirect)
  {
    hide Entry;
    Lookup(dev, d, own, n);
    TablePtrs(dev, d);
    if d.dindirect != 0 {
      PointersDistinct(dev, d, own, Dind, Sec((n - FIRST_DOUBLE) / NR_INDIRECT_BLOCKS));
    }
  }

  lemma DanglingDouble(dev: seq<Block>, d: DInode, used: set<int>)
    requires |d.direct| == NR_DIRECT_BLOCKS && d.dindirect != 0 && d.dindirect !in used
    ensures Dangling(dev, d, used)
  {
    assert ValidRole(Dind) && Ptr(dev, d, Dind) != 0;
  }

  lemma DanglingSecond(dev: seq<Block>, d: DInode, used: set<int>, i: nat)
    requires |d.direct| == NR_DIRECT_BLOCKS && 0 < d.dindirect < |dev| && i < NR_INDIRECT_BLOCKS
    requires Entry(dev[d.dindirect], i) != 0 && Entry(dev[d.dindirect], i) !in used
    ensures Dangling(dev, d, used)
  {
    assert ValidRole(Sec(i)) && Ptr(dev, d, Sec(i)) != 0;
  }

  /** A block that is mapped already needs nothing. */
  lemma MappedGrown(dev: seq<Block>, d: DInode, own: map<int, Role>, n: nat)
    requires Owns(dev, d, own) && n < MAX_FILE_BLOCKS && Ptr(dev, d, DataRole(n)) != 0
    ensures Grown(dev, d, own, dev, d, own, n) && Needs(dev, d, n) == 0
    ensures Ptr(dev, d, DataRole(n)) in own
  {
    hide Entry;
    TablePtrs(dev, d);
    assert forall r | r in Path(n) :: ValidRole(r) && Ptr(dev, d, r) != 0;
    hide Ptr, Path;
  }

  /** The invariant is about pointers and the block count only. */
  lemma SamePtrs(dev: seq<Block>, d: DInode, own: map<int, Role>, dev': seq<Block>, d': DInode)
    requires Owns(dev, d, own) && |dev'| == |dev|
    requires |d'.direct| == NR_DIRECT_BLOCKS && d'.blockCount == d.blockCount
    requires forall r | ValidRole(r) :: Ptr(dev', d', r) == Ptr(dev, d, r)
    ensures Owns(dev', d', own)
  {
    hide Ptr, ValidRole;
  }

  lemma SamePopulated(dev: seq<Block>, d: DInode, dev': seq<Block>, d': DInode)
    requires |d.direct| == |d'.direct| == NR_DIRECT_BLOCKS && Populated(dev, d)
    requires d'.indirect == d.indirect && d'.dindirect == d.dindirect
    requires forall r | ValidRole(r) :: Ptr(dev', d', r) == Ptr(dev, d, r)
    ensures Populated(dev', d')
  {
    hide Ptr;
    forall i: nat | i < NR_INDIRECT_BLOCKS && Ptr(dev', d', Sec(i)) != 0
      ensures exists j: nat :: j < NR_INDIRECT_BLOCKS && Ptr(dev', d', Leaf(i, j)) != 0
    {
      assert ValidRole(Sec(i)) && Ptr(dev, d, Sec(i)) != 0;
      var j: nat :| j < NR_INDIRECT_BLOCKS && Ptr(dev, d, Leaf(i, j)) != 0;
      assert ValidRole(Leaf(i, j)) && Ptr(dev', d', Leaf(i, j)) != 0;
    }
    if d.indirect != 0 {
      var j: nat :| j < NR_INDIRECT_BLOCKS && Ptr(dev, d, IndChild(j)) != 0;
      assert ValidRole(IndChild(j)) && Ptr(dev', d', IndChild(j)) != 0;
    }
    if d.dindirect != 0 {
      var i: nat :| i < NR_INDIRECT_BLOCKS && Ptr(dev, d, Sec(i)) != 0;
      assert ValidRole(Sec(i)) && Ptr(dev', d', Sec(i)) != 0;
    }
  }

  /** The whole invariant depends on the tables the inode owns and on nothing else. */
  lemma InodeFrame(dev: seq<Block>, dev': seq<Block>, d: DInode, own: map<int, Role>)
    requires Owns(dev, d, own) && Populated(dev, d) && |dev'| == |dev|
    requires forall p | p in own && IsTable(own[p]) :: dev'[p] == dev[p]
    ensures Owns(dev', d, own) && Populated(dev', d)
  {
    OwnsFrame(dev, dev', d, own);
    hide Ptr, Owns, Populated;
    SamePopulated(dev, d, dev', d);
  }

  /** The two table pointers of the inode are owned. */
  lemma Roots(dev: seq<Block>, d: DInode, own: map<int, Role>)
    requires Owns(dev, d, own)
    ensures |d.direct| == NR_DIRECT_BLOCKS
    ensures d.indirect == 0 || (d.indirect in own && DATA_BLOCKS_START <= d.indirect < |dev|)
    ensures d.dindirect == 0 || (d.dindirect in own && DATA_BLOCKS_START <= d.dindirect < |dev|)
  {
    TablePtrs(dev, d);
  }

  lemma TablePtrs(dev: seq<Block>, d: DInode)
    requires |d.direct| == NR_DIRECT_BLOCKS
    ensures Ptr(dev, d, Ind) == d.indirect && Ptr(dev, d, Dind) == d.dindirect
    ensures forall i: nat | i < NR_INDIRECT_BLOCKS :: Ptr(dev, d, Sec(i)) == Child(dev, d.dindirect, i)
  {
  }

  /** Nothing that was mapped moves. */
  lemma GrownKeeps(dev: seq<Block>, d: DInode, own: map<int, Role>,
                   dev': seq<Block>, d': DInode, own': map<int, Role>, n: nat)
    requires n < MAX_FILE_BLOCKS && Grown(dev, d, own, dev', d', own', n)
    ensures |d.direct| == |d'.direct| == NR_DIRECT_BLOCKS
    ensures forall r | ValidRole(r) && Ptr(dev, d, r) != 0 :: Ptr(dev', d', r) == Ptr(dev, d, r)
  {
    hide Ptr, Needs, Path;
  }

  /** Only roles on the path appear. */
  lemma GrownNew(dev: seq<Block>, d: DInode, own: map<int, Role>,
                 dev': seq<Block>, d': DInode, own': map<int, Role>, n: nat, r: Role)
    requires n < MAX_FILE_BLOCKS && Grown(dev, d, own, dev', d', own', n)
    requires ValidRole(r) && Ptr(dev, d, r) == 0 && Ptr(dev', d', r) != 0
    ensures r in Path(n) && DataRole(n) in Path(n) && Ptr(dev', d', DataRole(n)) != 0
    ensures r == Dind ==> Ptr(dev', d', Sec((n - FIRST_DOUBLE) / NR_INDIRECT_BLOCKS)) != 0
  {
    hide Ptr, Needs;
    assert r == Dind ==> Sec((n - FIRST_DOUBLE) / NR_INDIRECT_BLOCKS) in Path(n);
  }

  lemma GrownPopulated(dev: seq<Block>, d: DInode, own: map<int, Role>,
                       dev': seq<Block>, d': DInode, own': map<int, Role>, n: nat)
    requires n < MAX_FILE_BLOCKS && Grown(dev, d, own, dev', d', own', n)
    requires Populated(dev, d)
    ensures Populated(dev', d')
  {
    hide Ptr, Needs, Owns, Grown, Child;
    GrownKeeps(dev, d, own, dev', d', own', n);
    TablePtrs(dev, d);
    TablePtrs(dev', d');
    if d'.indirect != 0 && d.indirect == 0 {
      GrownNew(dev, d, own, dev', d', own', n, Ind);
      assert Ptr(dev', d', IndChild(n - NR_DIRECT_BLOCKS)) != 0;
    }
    if d'.dindirect != 0 && d.dindirect == 0 {
      GrownNew(dev, d, own, dev', d', own', n, Dind);
    }
    forall i: nat | i < NR_INDIRECT_BLOCKS && Ptr(dev', d', Sec(i)) != 0
      ensures exists j: nat :: j < NR_INDIRECT_BLOCKS && Ptr(dev', d', Leaf(i, j)) != 0
    {
      if Ptr(dev, d, Sec(i)) == 0 {
        GrownNew(dev, d, own, dev', d', own', n, Sec(i));
        assert Ptr(dev', d', Leaf(i, (n - FIRST_DOUBLE) % NR_INDIRECT_BLOCKS)) != 0;
      } else {
        var j: nat :| j < NR_INDIRECT_BLOCKS && Ptr(dev, d, Leaf(i, j)) != 0;
        assert Ptr(dev', d', Leaf(i, j)) != 0;
      }
    }
    if d.indirect != 0 {
      var j: nat :| j < NR_INDIRECT_BLOCKS && Ptr(dev, d, IndChild(j)) != 0;
      assert Ptr(dev', d', IndChild(j)) != 0;
    }
    if d.dindirect != 0 {
      var i: nat :| i < NR_INDIRECT_BLOCKS && Ptr(dev, d, Sec(i)) != 0;
      assert Ptr(dev', d', Sec(i)) != 0;
    }
  }
}
