/** Which blocks testfs_free_blocks gives back, and in which order. */
module Release {
  import opened Common
  import opened SuperBlocks
  import opened BlockMap
  import opened FileData

  /** Where the nested loops are: at direct block i, at entry i of the single-indirect table, at
      entry j of second-level table i, or done. */
  datatype Point = AtDirect(i: nat) | AtIndirect(i: nat) | AtDouble(i: nat, j: nat) | Done

  /** The loops have come to role r before this point. */
  predicate Passed(r: Role, t: Point) {
    match r
    case Direct(k) => !t.AtDirect? || k < t.i
    case IndChild(k) => t.AtDouble? || t.Done? || (t.AtIndirect? && k < t.i)
    case Ind => t.AtDouble? || t.Done?
    case Leaf(a, b) => t.Done? || (t.AtDouble? && (a < t.i || (a == t.i && b < t.j)))
    case Sec(a) => t.Done? || (t.AtDouble? && a < t.i)
    case Dind => t.Done?
  }

  /** The loops give back data blocks below block e, the single-indirect table always, the tables of
      groups that start below e, and the double-indirect table when e is past the single-indirect range. */
  predicate Due(r: Role, e: nat)
    requires ValidRole(r)
  {
    match r
    case Ind => true
    case Sec(i) => GroupStart(i) < e
    case Dind => e >= FIRST_DOUBLE
    case _ => Logical(r) < e
  }

  /** The owned blocks that have not been given back at point t. */
  ghost function Remaining(own: map<int, Role>, e: nat, t: Point): map<int, Role>
    requires forall p | p in own :: ValidRole(own[p])
  {
    map p | p in own && !(Passed(own[p], t) && Due(own[p], e)) :: own[p]
  }

  /** Every mapped block lies below block e. */
  ghost predicate Covers(dev: seq<Block>, d: DInode, e: nat)
    requires |d.direct| == NR_DIRECT_BLOCKS
  {
    forall m: nat | m < MAX_FILE_BLOCKS && Ptr(dev, d, DataRole(m)) != 0 :: m < e
  }

  /** testfs_free_blocks gives back every block: the mapped blocks lie below the end of the file, and a
      file that ends past the single-indirect range has a double-indirect table for line 323 to read. */
  ghost predicate Removable(dev: seq<Block>, d: DInode)
    requires |d.direct| == NR_DIRECT_BLOCKS
  {
    var e := DivRoundUp(d.size, BLOCK_SIZE);
    e >= 0 && Covers(dev, d, e) && (e > FIRST_DOUBLE ==> d.dindirect != 0)
  }

  /** Block 0 as testfs_write_super_block leaves it: the fields of struct dsuper_block, then zeros. */
  function SuperImage(s: DSuper): (b: Block)
    ensures Entry(b, 0) == INODE_FREEMAP_START
  {
    var rest := WithEntry(WithEntry(WithEntry(ZeroBlock(), 4, s.usedInodeCount), 5, s.usedBlockCount), 6,
                          s.maxFsBlocks);
    var high := WithEntry(rest, 7, s.maxFsBlocks / 0x1_0000_0000);
    var starts := WithEntry(WithEntry(WithEntry(high, 1, BLOCK_FREEMAP_START), 2, INODE_BLOCKS_START), 3,
                            DATA_BLOCKS_START);
    StoreEntry(starts, 0, INODE_FREEMAP_START);
    WithEntry(starts, 0, INODE_FREEMAP_START)
  }

  /** The state of a release at point t. */
  ghost predicate Freeing(z: Snap, dev: seq<Block>, blockCount: int, used: set<int>, free: int, e: nat, t: Point)
  {
    && Owns(z.dev, z.d, z.own) && Populated(z.dev, z.d) && z.own.Keys <= z.used && |dev| == |z.dev| == NR_BLOCKS
    && var left := Remaining(z.own, e, t);
    && used == z.used - (z.own.Keys - left.Keys)
    && blockCount == |left|
    && free == z.free + |z.own| - |left|
    && (forall b | INODE_BLOCKS_START <= b < NR_BLOCKS && (b !in z.own || b in left) :: dev[b] == z.dev[b])
  }

  lemma OwnsFacts(z: Snap)
    requires Owns(z.dev, z.d, z.own)
    ensures |z.d.direct| == NR_DIRECT_BLOCKS && z.d.blockCount == |z.own|
    ensures forall p | p in z.own :: ValidRole(z.own[p]) && p != 0
  {
  }

  lemma FreeingStart(z: Snap, e: nat)
    requires Owns(z.dev, z.d, z.own) && Populated(z.dev, z.d) && z.own.Keys <= z.used && |z.dev| == NR_BLOCKS
    ensures Freeing(z, z.dev, z.d.blockCount, z.used, z.free, e, AtDirect(0))
  {
    OwnsFacts(z);
    forall p | p in z.own ensures !Passed(z.own[p], AtDirect(0)) {
    }
    hide Owns, Populated, Due, Passed;
    assert Remaining(z.own, e, AtDirect(0)).Keys == z.own.Keys;
    assert Remaining(z.own, e, AtDirect(0)) == z.own;
  }

  /** Going from point t to t' passes role r and no other. */
  predicate OneStep(r: Role, t: Point, t': Point) {
    match t
    case AtDirect(i) => r == Direct(i) && t' == AtDirect(i + 1)
    case AtIndirect(i) =>
      if i < NR_INDIRECT_BLOCKS then r == IndChild(i) && t' == AtIndirect(i + 1)
      else r == Ind && i == NR_INDIRECT_BLOCKS && t' == AtDouble(0, 0)
    case AtDouble(i, j) =>
      if i < NR_INDIRECT_BLOCKS && j < NR_INDIRECT_BLOCKS then r == Leaf(i, j) && t' == AtDouble(i, j + 1)
      else if i < NR_INDIRECT_BLOCKS then r == Sec(i) && j == NR_INDIRECT_BLOCKS && t' == AtDouble(i + 1, 0)
      else r == Dind && i == NR_INDIRECT_BLOCKS && j == 0 && t' == Done
    case Done => false
  }

  lemma StepPasses(r: Role, t: Point, t': Point, s: Role)
    requires OneStep(r, t, t') && ValidRole(r) && ValidRole(s)
    ensures Passed(s, t') <==> Passed(s, t) || s == r
    ensures !Passed(r, t)
  {
  }

  /** A step gives back the block at its role, if there is one and it is due; that block is still
      allocated until then. */
  lemma AtStep(z: Snap, e: nat, r: Role, t: Point, t': Point)
    requires Owns(z.dev, z.d, z.own) && ValidRole(r) && OneStep(r, t, t')
    ensures forall p | p in z.own :: ValidRole(z.own[p])
    ensures |z.d.direct| == NR_DIRECT_BLOCKS
    ensures var p := Ptr(z.dev, z.d, r);
      var a, b := Remaining(z.own, e, t), Remaining(z.own, e, t');
      if p != 0 && Due(r, e) then
        p in a && p in z.own && DATA_BLOCKS_START <= p < |z.dev| && b.Keys == a.Keys - {p} && |b| == |a| - 1
      else b == a
  {
    hide Ptr, Passed, Due, OneStep;
    OwnsFacts(z);
    var p := Ptr(z.dev, z.d, r);
    StepPasses(r, t, t', r);
    forall q | q in z.own
      ensures Passed(z.own[q], t') <==> Passed(z.own[q], t) || q == p
      ensures z.own[q] == r <==> q == p
    {
      StepPasses(r, t, t', z.own[q]);
    }
    hide Owns, ValidRole, Remaining;
    RemainingStep(z.own, e, r, p, t, t');
  }

  lemma RemainingStep(own: map<int, Role>, e: nat, r: Role, p: int, t: Point, t': Point)
    requires ValidRole(r) && !Passed(r, t) && forall q | q in own :: ValidRole(own[q]) && (own[q] == r <==> q == p)
    requires forall q | q in own :: Passed(own[q], t') <==> Passed(own[q], t) || q == p
    ensures var a, b := Remaining(own, e, t), Remaining(own, e, t');
      if p in own && Due(r, e) then p in a && b.Keys == a.Keys - {p} && |b| == |a| - 1 else b == a
  {
    hide Passed, Due;
    var a, b := Remaining(own, e, t), Remaining(own, e, t');
    assert p in own ==> own[p] == r;
    forall q | q in own ensures q in b <==> q in a && !(q == p && Due(r, e)) {
    }
    if p in own && Due(r, e) {
      assert b.Keys == a.Keys - {p};
    } else {
      assert b.Keys == a.Keys;
    }
  }

  /** Between two points there is nothing left to give back. */
  lemma Skip(z: Snap, e: nat, t: Point, t': Point)
    requires Owns(z.dev, z.d, z.own)
    requires forall r | ValidRole(r) && Passed(r, t) :: Passed(r, t')
    requires forall r | ValidRole(r) && Passed(r, t') && !Passed(r, t) && Due(r, e) :: Ptr(z.dev, z.d, r) == 0
    ensures forall p | p in z.own :: ValidRole(z.own[p])
    ensures Remaining(z.own, e, t') == Remaining(z.own, e, t)
  {
    hide Ptr, Passed, Due;
    OwnsFacts(z);
    forall q | q in z.own
      ensures Passed(z.own[q], t') && Due(z.own[q], e) <==> Passed(z.own[q], t) && Due(z.own[q], e)
    {
      assert ValidRole(z.own[q]) && Ptr(z.dev, z.d, z.own[q]) == q;
    }
    assert Remaining(z.own, e, t').Keys == Remaining(z.own, e, t).Keys;
  }

  /** At the end the inode owns nothing exactly when every mapped block was below e. */
  lemma AllReleased(z: Snap, e: nat)
    requires Owns(z.dev, z.d, z.own) && Populated(z.dev, z.d)
    ensures forall p | p in z.own :: ValidRole(z.own[p])
    ensures |z.d.direct| == NR_DIRECT_BLOCKS
    ensures |Remaining(z.own, e, Done)| == 0 <==> Covers(z.dev, z.d, e)
  {
    OwnsFacts(z);
    TablePtrs(z.dev, z.d);
    hide Ptr;
    var left := Remaining(z.own, e, Done);
    if Covers(z.dev, z.d, e) {
      forall p | p in z.own ensures p !in left {
        assert ValidRole(z.own[p]) && Ptr(z.dev, z.d, z.own[p]) == p;
        DueWhenCovered(z, e, z.own[p]);
      }
      assert left.Keys == {};
    } else {
      var m: nat :| m < MAX_FILE_BLOCKS && Ptr(z.dev, z.d, DataRole(m)) != 0 && m >= e;
      RoleOfBlock(m);
      var p := Ptr(z.dev, z.d, DataRole(m));
      assert p in z.own && z.own[p] == DataRole(m);
      assert p in left;
    }
  }

  lemma DueWhenCovered(z: Snap, e: nat, r: Role)
    requires |z.d.direct| == NR_DIRECT_BLOCKS && Populated(z.dev, z.d) && Covers(z.dev, z.d, e)
    requires ValidRole(r) && Ptr(z.dev, z.d, r) != 0
    ensures Due(r, e)
  {
    TablePtrs(z.dev, z.d);
    hide Ptr, DataRole, Child, Populated;
    if r.Sec? {
      MappedBelow(z, e, r.i);
    } else if r.Dind? {
      var i := SomeGroup(z);
      MappedBelow(z, e, i);
    } else if !r.Ind? {
      BlockOfRole(r);
    }
  }

  lemma SomeGroup(z: Snap) returns (i: nat)
    requires |z.d.direct| == NR_DIRECT_BLOCKS && Populated(z.dev, z.d) && z.d.dindirect != 0
    ensures i < NR_INDIRECT_BLOCKS && Ptr(z.dev, z.d, Sec(i)) != 0
  {
    i :| i < NR_INDIRECT_BLOCKS && Ptr(z.dev, z.d, Sec(i)) != 0;
  }

  /** A second-level table has a mapped block below it. */
  lemma MappedBelow(z: Snap, e: nat, i: nat)
    requires |z.d.direct| == NR_DIRECT_BLOCKS && Populated(z.dev, z.d) && Covers(z.dev, z.d, e)
    requires i < NR_INDIRECT_BLOCKS && Ptr(z.dev, z.d, Sec(i)) != 0
    ensures GroupStart(i) < e
  {
    hide Ptr;
    var j: nat :| j < NR_INDIRECT_BLOCKS && Ptr(z.dev, z.d, Leaf(i, j)) != 0;
    BlockOfRole(Leaf(i, j));
  }

  // ---------- used by the loops ----------

  lemma FreeStep(z: Snap, dev: seq<Block>, blockCount: int, used: set<int>, free: int,
                 dev': seq<Block>, blockCount': int, used': set<int>, free': int,
                 e: nat, r: Role, t: Point, t': Point)
    requires Freeing(z, dev, blockCount, used, free, e, t)
    requires ValidRole(r) && OneStep(r, t, t') && Due(r, e) && |z.d.direct| == NR_DIRECT_BLOCKS
    requires var p := Ptr(z.dev, z.d, r);
      if p == 0 then blockCount' == blockCount && used' == used && free' == free
      else blockCount' == blockCount - 1 && used' == used - {p} && free' == free + 1
    requires |dev'| == |dev|
    requires forall b | INODE_BLOCKS_START <= b < |dev| && (Ptr(z.dev, z.d, r) == 0 || b != Ptr(z.dev, z.d, r)) ::
               dev'[b] == dev[b]
    ensures Freeing(z, dev', blockCount', used', free', e, t')
  {
    AtStep(z, e, r, t, t');
    hide Ptr, Passed, Due, Populated, Owns, OneStep, Remaining, ValidRole;
  }

  /** A block that is still to be given back is allocated and intact. */
  lemma StillThere(z: Snap, dev: seq<Block>, blockCount: int, used: set<int>, free: int, e: nat, r: Role, t: Point)
    requires Freeing(z, dev, blockCount, used, free, e, t) && ValidRole(r) && |z.d.direct| == NR_DIRECT_BLOCKS
    requires !Passed(r, t)
    ensures var p := Ptr(z.dev, z.d, r);
      p != 0 ==> p in used && DATA_BLOCKS_START <= p < NR_BLOCKS && dev[p] == z.dev[p]
  {
    hide Ptr, Passed, Due, Populated;
    var p := Ptr(z.dev, z.d, r);
    if p != 0 {
      assert p in z.own && z.own[p] == r;
    }
  }

  lemma FreeSkip(z: Snap, dev: seq<Block>, blockCount: int, used: set<int>, free: int, e: nat, t: Point, t': Point)
    requires Freeing(z, dev, blockCount, used, free, e, t) && |z.d.direct| == NR_DIRECT_BLOCKS
    requires forall r | ValidRole(r) && Passed(r, t) :: Passed(r, t')
    requires forall r | ValidRole(r) && Passed(r, t') && !Passed(r, t) && Due(r, e) :: Ptr(z.dev, z.d, r) == 0
    ensures Freeing(z, dev, blockCount, used, free, e, t')
  {
    Skip(z, e, t, t');
    hide Ptr, Passed, Due, Populated, Owns, Remaining, ValidRole;
  }

  /** Past block e no direct block is due. */
  lemma SkipDirect(z: Snap, dev: seq<Block>, blockCount: int, used: set<int>, free: int, e: nat, i: nat)
    requires Freeing(z, dev, blockCount, used, free, e, AtDirect(i)) && |z.d.direct| == NR_DIRECT_BLOCKS
    requires i >= e || i >= NR_DIRECT_BLOCKS
    ensures Freeing(z, dev, blockCount, used, free, e, AtIndirect(0))
  {
    hide Ptr, Freeing;
    FreeSkip(z, dev, blockCount, used, free, e, AtDirect(i), AtIndirect(0));
  }

  lemma IndirectEntries(z: Snap)
    requires Owns(z.dev, z.d, z.own) && z.d.indirect != 0
    ensures |z.d.direct| == NR_DIRECT_BLOCKS && 0 < z.d.indirect < |z.dev|
    ensures Ptr(z.dev, z.d, Ind) == z.d.indirect
    ensures forall i: nat | i < NR_INDIRECT_BLOCKS :: Entry(z.dev[z.d.indirect], i) == Ptr(z.dev, z.d, IndChild(i))
  {
    hide Entry;
    Roots(z.dev, z.d, z.own);
  }

  /** Without a single-indirect table there is nothing below it. */
  lemma SkipIndirect(z: Snap, dev: seq<Block>, blockCount: int, used: set<int>, free: int, e: nat)
    requires Freeing(z, dev, blockCount, used, free, e, AtIndirect(0)) && |z.d.direct| == NR_DIRECT_BLOCKS
    requires z.d.indirect == 0
    ensures Freeing(z, dev, blockCount, used, free, e, AtDouble(0, 0))
  {
    hide Freeing;
    FreeSkip(z, dev, blockCount, used, free, e, AtIndirect(0), AtDouble(0, 0));
  }

  lemma FreeingFacts(z: Snap, dev: seq<Block>, blockCount: int, used: set<int>, free: int, e: nat, t: Point)
    requires Freeing(z, dev, blockCount, used, free, e, t)
    ensures |z.d.direct| == NR_DIRECT_BLOCKS && |dev| == |z.dev| == NR_BLOCKS
    ensures Owns(z.dev, z.d, z.own) && Populated(z.dev, z.d)
    ensures used <= z.used && used - z.own.Keys == z.used - z.own.Keys
    ensures forall b | INODE_BLOCKS_START <= b < NR_BLOCKS && b !in z.own :: dev[b] == z.dev[b]
  {
    OwnsFacts(z);
  }

  // ---------- the double-indirect loops ----------

  lemma NoGroup(z: Snap, i: nat, j: nat)
    requires |z.d.direct| == NR_DIRECT_BLOCKS && i < NR_INDIRECT_BLOCKS && j < NR_INDIRECT_BLOCKS
    requires Ptr(z.dev, z.d, Sec(i)) == 0
    ensures Ptr(z.dev, z.d, Leaf(i, j)) == 0
  {
  }

  /** A group without a table is passed over. */
  lemma SkipGroup(z: Snap, dev: seq<Block>, blockCount: int, used: set<int>, free: int, e: nat, i: nat)
    requires Freeing(z, dev, blockCount, used, free, e, AtDouble(i, 0)) && |z.d.direct| == NR_DIRECT_BLOCKS
    requires i < NR_INDIRECT_BLOCKS && Ptr(z.dev, z.d, Sec(i)) == 0
    ensures Freeing(z, dev, blockCount, used, free, e, AtDouble(i + 1, 0))
  {
    forall r | ValidRole(r) && Passed(r, AtDouble(i + 1, 0)) && !Passed(r, AtDouble(i, 0))
      ensures Ptr(z.dev, z.d, r) == 0
    {
      if r.Leaf? {
        NoGroup(z, i, r.j);
      }
    }
    hide Ptr, Freeing;
    FreeSkip(z, dev, blockCount, used, free, e, AtDouble(i, 0), AtDouble(i + 1, 0));
  }

  /** Past block e there is nothing due in a group. */
  lemma SkipEnd(z: Snap, dev: seq<Block>, blockCount: int, used: set<int>, free: int, e: nat, i: nat, j: nat)
    requires Freeing(z, dev, blockCount, used, free, e, AtDouble(i, j)) && |z.d.direct| == NR_DIRECT_BLOCKS
    requires i < NR_INDIRECT_BLOCKS && j <= NR_INDIRECT_BLOCKS && (j == NR_INDIRECT_BLOCKS || GroupStart(i) + j >= e)
    ensures Freeing(z, dev, blockCount, used, free, e, AtDouble(i, NR_INDIRECT_BLOCKS))
  {
    hide Ptr, Freeing;
    FreeSkip(z, dev, blockCount, used, free, e, AtDouble(i, j), AtDouble(i, NR_INDIRECT_BLOCKS));
  }

  lemma GroupOrder(i: nat, a: nat)
    requires i <= a
    ensures GroupStart(i) <= GroupStart(a)
  {
    if i < a {
      Rows(i, a);
    }
  }

  /** Past block e no further group is due. */
  lemma SkipGroups(z: Snap, dev: seq<Block>, blockCount: int, used: set<int>, free: int, e: nat, i: nat)
    requires Freeing(z, dev, blockCount, used, free, e, AtDouble(i, 0)) && |z.d.direct| == NR_DIRECT_BLOCKS
    requires i <= NR_INDIRECT_BLOCKS && (i == NR_INDIRECT_BLOCKS || GroupStart(i) >= e)
    ensures Freeing(z, dev, blockCount, used, free, e, AtDouble(NR_INDIRECT_BLOCKS, 0))
  {
    forall r | ValidRole(r) && Passed(r, AtDouble(NR_INDIRECT_BLOCKS, 0)) && !Passed(r, AtDouble(i, 0))
      ensures !Due(r, e)
    {
      assert r.Leaf? || r.Sec?;
      GroupOrder(i, r.i);
    }
    hide Ptr, Freeing, Due, GroupStart;
    FreeSkip(z, dev, blockCount, used, free, e, AtDouble(i, 0), AtDouble(NR_INDIRECT_BLOCKS, 0));
  }

  /** Below the double-indirect range nothing of it is due. */
  lemma SkipDouble(z: Snap, dev: seq<Block>, blockCount: int, used: set<int>, free: int, e: nat)
    requires Freeing(z, dev, blockCount, used, free, e, AtDouble(0, 0)) && |z.d.direct| == NR_DIRECT_BLOCKS
    requires e < FIRST_DOUBLE
    ensures Freeing(z, dev, blockCount, used, free, e, Done)
  {
    hide Ptr, Freeing;
    FreeSkip(z, dev, blockCount, used, free, e, AtDouble(0, 0), Done);
  }

  // ---------- the end ----------

  lemma FreeingDone(z: Snap, dev: seq<Block>, blockCount: int, used: set<int>, free: int, e: nat)
    requires Freeing(z, dev, blockCount, used, free, e, Done)
    ensures |z.d.direct| == NR_DIRECT_BLOCKS
    ensures forall p | p in z.own :: ValidRole(z.own[p])
    ensures blockCount == 0 <==> Covers(z.dev, z.d, e)
    ensures used - z.own.Keys == z.used - z.own.Keys
    ensures Covers(z.dev, z.d, e) ==> used == z.used - z.own.Keys && free == z.free + |z.own|
    ensures Framed(z, dev)
  {
    AllReleased(z, e);
    hide Covers, Owns, Populated;
    var left := Remaining(z.own, e, Done);
    assert left.Keys <= z.own.Keys;
    if |left| == 0 {
      assert left.Keys == {};
    }
  }

  /** When every mapped block lies below block e, the pointers that the loops leave alone are 0. */
  lemma CoveredRest(z: Snap, e: nat)
    requires Owns(z.dev, z.d, z.own) && Populated(z.dev, z.d) && |z.d.direct| == NR_DIRECT_BLOCKS
    requires Covers(z.dev, z.d, e)
    ensures forall k | e <= k < NR_DIRECT_BLOCKS :: z.d.direct[k] == 0
    ensures e < FIRST_DOUBLE ==> z.d.dindirect == 0
  {
    hide Owns, Populated;
    forall k: nat | e <= k < NR_DIRECT_BLOCKS ensures z.d.direct[k] == 0 {
      assert DataRole(k) == Direct(k) && Ptr(z.dev, z.d, Direct(k)) == z.d.direct[k];
    }
    if e < FIRST_DOUBLE && z.d.dindirect != 0 {
      var i := SomeGroup(z);
      MappedBelow(z, e, i);
      assert false;
    }
  }

  function EmptyInode(itype: int): DInode {
    DInode(itype, seq(NR_DIRECT_BLOCKS, _ => 0), 0, 0, 0, 0)
  }

  lemma EmptyOwns(dev: seq<Block>, itype: int)
    ensures Owns(dev, EmptyInode(itype), map[]) && Populated(dev, EmptyInode(itype))
  {
  }
}
