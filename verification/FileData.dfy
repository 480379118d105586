/** What a write that runs over several blocks does to the block map and to the bytes of the file. */
module FileData {
  import opened Common
  import opened SuperBlocks
  import opened BlockMap

  /** Some block number lies in both [a, b) and [lo, hi). */
  predicate Meets(a: nat, b: nat, lo: nat, hi: nat) {
    a < b && lo < hi && a < hi && lo < b
  }

  /** First logical block below second-level table i. */
  function GroupStart(i: nat): nat {
    FIRST_DOUBLE + i * NR_INDIRECT_BLOCKS
  }

  /** Block n lies below second-level table i. */
  predicate InGroup(n: nat, i: nat) {
    GroupStart(i) <= n < GroupStart(i + 1)
  }

  /** Some block of [a, b) lies below second-level table i. */
  predicate MeetsGroup(a: nat, b: nat, i: nat) {
    Meets(a, b, GroupStart(i), GroupStart(i + 1))
  }

  function GroupOf(n: nat): (i: nat)
    requires FIRST_DOUBLE <= n < MAX_FILE_BLOCKS
    ensures i < NR_INDIRECT_BLOCKS && GroupStart(i) <= n < GroupStart(i + 1)
  {
    (n - FIRST_DOUBLE) / NR_INDIRECT_BLOCKS
  }

  /** Blocks n0 to e - 1 have been mapped, starting from z: exactly they and the tables above them
      have been added. */
  ghost predicate Progress(z: Snap, dev: seq<Block>, d: DInode, own: map<int, Role>, n0: nat, e: nat)
  {
    && n0 <= e <= MAX_FILE_BLOCKS && |dev| == |z.dev| == NR_BLOCKS
    && Owns(z.dev, z.d, z.own) && Owns(dev, d, own) && Populated(dev, d)
    && (forall m: nat | m < MAX_FILE_BLOCKS && !(n0 <= m < e) ::
          Ptr(dev, d, DataRole(m)) == Ptr(z.dev, z.d, DataRole(m)))
    && (forall m: nat | n0 <= m < e :: Ptr(dev, d, DataRole(m)) != 0)
    && (d.indirect != 0 <==> z.d.indirect != 0 || Meets(n0, e, NR_DIRECT_BLOCKS, FIRST_DOUBLE))
    && (d.dindirect != 0 <==> z.d.dindirect != 0 || Meets(n0, e, FIRST_DOUBLE, MAX_FILE_BLOCKS))
    && (forall i: nat | i < NR_INDIRECT_BLOCKS ::
          Ptr(dev, d, Sec(i)) != 0 <==> Ptr(z.dev, z.d, Sec(i)) != 0 || MeetsGroup(n0, e, i))
  }

  /** How many blocks are allocated for block m by a write that starts at block n0 <= m. */
  function StepNeeds(dev: seq<Block>, d: DInode, n0: nat, m: nat): nat
    requires |d.direct| == NR_DIRECT_BLOCKS && m < MAX_FILE_BLOCKS
  {
    if Ptr(dev, d, DataRole(m)) != 0 then 0
    else if m < NR_DIRECT_BLOCKS then 1
    else if m < FIRST_DOUBLE then
      1 + (if d.indirect == 0 && !Meets(n0, m, NR_DIRECT_BLOCKS, FIRST_DOUBLE) then 1 else 0)
    else
      1 + (if d.dindirect == 0 && !Meets(n0, m, FIRST_DOUBLE, MAX_FILE_BLOCKS) then 1 else 0)
        + (if Ptr(dev, d, Sec(GroupOf(m))) == 0 && !MeetsGroup(n0, m, GroupOf(m))
           then 1 else 0)
  }

  /** Block m is a leaky hole at the time a write that starts at block n0 <= m reaches it. */
  predicate LeakyAt(dev: seq<Block>, d: DInode, n0: nat, m: nat)
    requires |d.direct| == NR_DIRECT_BLOCKS && m < MAX_FILE_BLOCKS
  {
    && m >= FIRST_DOUBLE
    && (d.dindirect != 0 || Meets(n0, m, FIRST_DOUBLE, MAX_FILE_BLOCKS))
    && Ptr(dev, d, Sec(GroupOf(m))) == 0
    && !MeetsGroup(n0, m, GroupOf(m))
  }

  lemma ProgressStart(z: Snap, n0: nat)
    requires Owns(z.dev, z.d, z.own) && Populated(z.dev, z.d) && n0 <= MAX_FILE_BLOCKS && |z.dev| == NR_BLOCKS
    ensures Progress(z, z.dev, z.d, z.own, n0, n0)
  {
    hide Ptr, Owns, Populated;
  }

  /** The closed forms agree with the state the write has reached. */
  lemma ProgressNeeds(z: Snap, dev: seq<Block>, d: DInode, own: map<int, Role>, n0: nat, e: nat)
    requires Progress(z, dev, d, own, n0, e) && e < MAX_FILE_BLOCKS
    requires |d.direct| == |z.d.direct| == NR_DIRECT_BLOCKS
    ensures Needs(dev, d, e) == StepNeeds(z.dev, z.d, n0, e)
    ensures Leaky(dev, d, e) <==> LeakyAt(z.dev, z.d, n0, e)
  {
    TablePtrs(dev, d);
    TablePtrs(z.dev, z.d);
    hide Ptr, Owns, Populated, Child;
    if e >= FIRST_DOUBLE {
      var i := GroupOf(e);
      if d.dindirect == 0 {
        NoTable(dev, d, i);
      }
    }
  }

  lemma NoTable(dev: seq<Block>, d: DInode, i: nat)
    requires |d.direct| == NR_DIRECT_BLOCKS && i < NR_INDIRECT_BLOCKS && d.dindirect == 0
    ensures Ptr(dev, d, Sec(i)) == 0
  {
  }

  /** What mapping block e adds, role by role. */
  lemma GrownData(dev: seq<Block>, d: DInode, own: map<int, Role>,
                  dev': seq<Block>, d': DInode, own': map<int, Role>, e: nat)
    requires e < MAX_FILE_BLOCKS && Grown(dev, d, own, dev', d', own', e)
    ensures |d.direct| == |d'.direct| == NR_DIRECT_BLOCKS
    ensures forall m: nat | m < MAX_FILE_BLOCKS && m != e :: Ptr(dev', d', DataRole(m)) == Ptr(dev, d, DataRole(m))
    ensures Ptr(dev', d', DataRole(e)) != 0
  {
    hide Ptr, Needs;
    forall m: nat | m < MAX_FILE_BLOCKS && m != e
      ensures Ptr(dev', d', DataRole(m)) == Ptr(dev, d, DataRole(m))
    {
      RoleOfBlock(m);
      RoleOfBlock(e);
    }
    assert DataRole(e) in Path(e);
  }

  lemma GrownTables(dev: seq<Block>, d: DInode, own: map<int, Role>,
                    dev': seq<Block>, d': DInode, own': map<int, Role>, e: nat)
    requires e < MAX_FILE_BLOCKS && Grown(dev, d, own, dev', d', own', e)
    ensures |d.direct| == |d'.direct| == NR_DIRECT_BLOCKS
    ensures d'.indirect != 0 <==> d.indirect != 0 || NR_DIRECT_BLOCKS <= e < FIRST_DOUBLE
    ensures d'.dindirect != 0 <==> d.dindirect != 0 || e >= FIRST_DOUBLE
    ensures forall i: nat | i < NR_INDIRECT_BLOCKS ::
              Ptr(dev', d', Sec(i)) != 0 <==> Ptr(dev, d, Sec(i)) != 0 || InGroup(e, i)
  {
    hide Ptr, Needs, Child, Owns, Path, Grown, Populated;
    GrownRole(dev, d, own, dev', d', own', e, Ind);
    GrownRole(dev, d, own, dev', d', own', e, Dind);
    TableRoots(dev, d);
    TableRoots(dev', d');
    PathTable(e, Ind);
    forall i: nat | i < NR_INDIRECT_BLOCKS
      ensures Ptr(dev', d', Sec(i)) != 0 <==> Ptr(dev, d, Sec(i)) != 0 || InGroup(e, i)
    {
      GrownSecond(dev, d, own, dev', d', own', e, i);
    }
  }

  lemma GrownSecond(dev: seq<Block>, d: DInode, own: map<int, Role>,
                    dev': seq<Block>, d': DInode, own': map<int, Role>, e: nat, i: nat)
    requires e < MAX_FILE_BLOCKS && Grown(dev, d, own, dev', d', own', e) && i < NR_INDIRECT_BLOCKS
    ensures |d.direct| == |d'.direct| == NR_DIRECT_BLOCKS
    ensures Ptr(dev', d', Sec(i)) != 0 <==> Ptr(dev, d, Sec(i)) != 0 || InGroup(e, i)
  {
    hide Ptr, Needs, Child, Owns, Path, Grown, Populated;
    GrownRole(dev, d, own, dev', d', own', e, Sec(i));
    PathTable(e, Sec(i));
  }

  lemma TableRoots(dev: seq<Block>, d: DInode)
    requires |d.direct| == NR_DIRECT_BLOCKS
    ensures Ptr(dev, d, Ind) == d.indirect && Ptr(dev, d, Dind) == d.dindirect
  {
  }

  lemma GrownRole(dev: seq<Block>, d: DInode, own: map<int, Role>,
                  dev': seq<Block>, d': DInode, own': map<int, Role>, e: nat, r: Role)
    requires e < MAX_FILE_BLOCKS && Grown(dev, d, own, dev', d', own', e) && ValidRole(r)
    ensures |d.direct| == |d'.direct| == NR_DIRECT_BLOCKS
    ensures Ptr(dev', d', r) != 0 <==> Ptr(dev, d, r) != 0 || r in Path(e)
  {
    GrownKeeps(dev, d, own, dev', d', own', e);
    hide Ptr, Needs, Path;
  }

  /** Which tables lie on the path to block e. */
  lemma PathTable(e: nat, r: Role)
    requires e < MAX_FILE_BLOCKS
    ensures Ind in Path(e) <==> NR_DIRECT_BLOCKS <= e < FIRST_DOUBLE
    ensures Dind in Path(e) <==> e >= FIRST_DOUBLE
    ensures r.Sec? && r.i < NR_INDIRECT_BLOCKS ==> (r in Path(e) <==> InGroup(e, r.i))
  {
    DataNoTable(e);
    hide DataRole, GroupStart;
    if e >= FIRST_DOUBLE && r.Sec? {
      RowOf(e - FIRST_DOUBLE, r.i);
      InGroupIff(e, r.i);
    } else if r.Sec? {
      NotInGroup(e, r.i);
    }
  }

  lemma DataNoTable(e: nat)
    requires e < MAX_FILE_BLOCKS
    ensures DataRole(e) != Ind && DataRole(e) != Dind && !DataRole(e).Sec?
  {
  }

  lemma InGroupIff(e: nat, i: nat)
    requires e >= FIRST_DOUBLE
    ensures InGroup(e, i) <==> i * NR_INDIRECT_BLOCKS <= e - FIRST_DOUBLE < (i + 1) * NR_INDIRECT_BLOCKS
  {
  }

  lemma NotInGroup(e: nat, i: nat)
    requires e < FIRST_DOUBLE
    ensures !InGroup(e, i)
  {
  }

  lemma RowOf(q: nat, i: nat)
    ensures q / NR_INDIRECT_BLOCKS == i <==> i * NR_INDIRECT_BLOCKS <= q < (i + 1) * NR_INDIRECT_BLOCKS
  {
    var a, b := q / NR_INDIRECT_BLOCKS, q % NR_INDIRECT_BLOCKS;
    assert q == a * NR_INDIRECT_BLOCKS + b;
    if a < i {
      Rows(a, i);
    } else if i < a {
      Rows(i, a);
    }
  }

  lemma ProgressStep(z: Snap, dev: seq<Block>, d: DInode, own: map<int, Role>,
                     dev': seq<Block>, d': DInode, own': map<int, Role>, n0: nat, e: nat)
    requires Progress(z, dev, d, own, n0, e) && e < MAX_FILE_BLOCKS
    requires Grown(dev, d, own, dev', d', own', e)
    ensures Progress(z, dev', d', own', n0, e + 1)
  {
    hide Ptr, Owns, Populated, Child, Needs, Path, DataRole;
    GrownPopulated(dev, d, own, dev', d', own', e);
    GrownData(dev, d, own, dev', d', own', e);
    GrownTables(dev, d, own, dev', d', own', e);
  }

  // ---------- the bytes ----------

  /** Storing a data block changes the contents of its logical block and nothing else. */
  lemma StoreContents(dev: seq<Block>, d: DInode, own: map<int, Role>, n: nat, b: Block)
    requires Owns(dev, d, own) && Populated(dev, d) && n < MAX_FILE_BLOCKS && Ptr(dev, d, DataRole(n)) in own
    ensures var after := dev[Ptr(dev, d, DataRole(n)) := b];
      && Owns(after, d, own) && Populated(after, d)
      && (forall r | ValidRole(r) :: Ptr(after, d, r) == Ptr(dev, d, r))
      && (forall m: nat | m < MAX_FILE_BLOCKS :: Contents(after, d, m) == if m == n then b else Contents(dev, d, m))
  {
    var p := Ptr(dev, d, DataRole(n));
    var after := dev[p := b];
    DataOwned(dev, d, own, n);
    OwnsFrame(dev, after, d, own);
    InodeFrame(dev, after, d, own);
    forall m: nat | m < MAX_FILE_BLOCKS
      ensures Contents(after, d, m) == if m == n then b else Contents(dev, d, m)
    {
      OtherData(dev, d, own, n, m);
    }
  }

  lemma DataOwned(dev: seq<Block>, d: DInode, own: map<int, Role>, n: nat)
    requires Owns(dev, d, own) && n < MAX_FILE_BLOCKS && Ptr(dev, d, DataRole(n)) in own
    ensures DATA_BLOCKS_START <= Ptr(dev, d, DataRole(n)) < |dev| && own[Ptr(dev, d, DataRole(n))] == DataRole(n)
  {
    hide Ptr;
  }

  lemma OtherData(dev: seq<Block>, d: DInode, own: map<int, Role>, n: nat, m: nat)
    requires Owns(dev, d, own) && n < MAX_FILE_BLOCKS && Ptr(dev, d, DataRole(n)) in own && m < MAX_FILE_BLOCKS
    ensures m != n ==> Ptr(dev, d, DataRole(m)) != Ptr(dev, d, DataRole(n))
    ensures Ptr(dev, d, DataRole(m)) == 0 || DATA_BLOCKS_START <= Ptr(dev, d, DataRole(m)) < |dev|
  {
    RoleOfBlock(n);
    RoleOfBlock(m);
    hide Ptr;
  }

  /** Mapping block n changes the contents of no other block. */
  lemma GrownContents(dev: seq<Block>, d: DInode, own: map<int, Role>,
                      dev': seq<Block>, d': DInode, own': map<int, Role>, n: nat, m: nat)
    requires n < MAX_FILE_BLOCKS && Grown(dev, d, own, dev', d', own', n) && m < MAX_FILE_BLOCKS && m != n
    ensures |d.direct| == |d'.direct| == NR_DIRECT_BLOCKS && Contents(dev', d', m) == Contents(dev, d, m)
  {
    GrownData(dev, d, own, dev', d', own', n);
    hide Ptr, Needs, Path;
    var p := Ptr(dev, d, DataRole(m));
    assert p != 0 ==> p in own && own[p] == DataRole(m);
  }

  /** Byte k of the file after blocks n0 to e - 1 have been written, up to byte wend: the new data in
      the window, what the code fetched in the rest of the first block and, for a last block that was
      a leaky hole, in the rest of that one; the old bytes everywhere else. */
  function Expected(z: Snap, start: nat, buf: seq<byte>, wend: nat, leak: Block, n0: nat, e: nat, k: nat): byte
    requires |z.d.direct| == NR_DIRECT_BLOCKS && n0 <= e <= MAX_FILE_BLOCKS && start <= wend <= start + |buf|
  {
    if start <= k < wend then buf[k - start]
    else if n0 < e && k / BLOCK_SIZE == n0 then FetchedAt(z.dev, z.d, k)
    else if n0 + 1 < e && k / BLOCK_SIZE == e - 1 && LeakyAt(z.dev, z.d, n0, e - 1) then leak[k % BLOCK_SIZE]
    else ByteAt(z.dev, z.d, k)
  }

  ghost predicate Wrote(z: Snap, dev: seq<Block>, d: DInode, own: map<int, Role>,
                        start: nat, buf: seq<byte>, wend: nat, leak: Block, n0: nat, e: nat)
  {
    && Progress(z, dev, d, own, n0, e) && start <= wend <= start + |buf|
    && (forall k: nat :: ByteAt(dev, d, k) == Expected(z, start, buf, wend, leak, n0, e, k))
  }

  /** Progress is about pointers only. */
  lemma ProgressFrame(z: Snap, dev: seq<Block>, dev': seq<Block>, d: DInode, own: map<int, Role>, n0: nat, e: nat)
    requires Progress(z, dev, d, own, n0, e) && |dev'| == |dev|
    requires |d.direct| == |z.d.direct| == NR_DIRECT_BLOCKS
    requires Owns(dev', d, own) && Populated(dev', d)
    requires forall r | ValidRole(r) :: Ptr(dev', d, r) == Ptr(dev, d, r)
    ensures Progress(z, dev', d, own, n0, e)
  {
    hide Ptr, Owns, Populated;
    forall m: nat | m < MAX_FILE_BLOCKS ensures Ptr(dev', d, DataRole(m)) == Ptr(dev, d, DataRole(m)) {
    }
    forall i: nat | i < NR_INDIRECT_BLOCKS ensures Ptr(dev', d, Sec(i)) == Ptr(dev, d, Sec(i)) {
      assert ValidRole(Sec(i));
    }
  }

  /** One block of a write: mapped, filled with what was fetched, the new data copied over it. */
  ghost predicate Filled(z: Snap, dev: seq<Block>, d: DInode, b: Block, start: nat, buf: seq<byte>, wend: nat,
                         wend1: nat, n0: nat, e: nat)
    requires |d.direct| == NR_DIRECT_BLOCKS && e < MAX_FILE_BLOCKS
  {
    && (e == n0 ==> dev == z.dev && d == z.d && wend == start && start / BLOCK_SIZE == n0)
    && (e > n0 ==> wend == e * BLOCK_SIZE && start / BLOCK_SIZE == n0)
    && start <= wend <= wend1 <= start + |buf| && wend1 <= (e + 1) * BLOCK_SIZE
    && (forall j | 0 <= j < BLOCK_SIZE ::
          b[j] == if wend <= e * BLOCK_SIZE + j < wend1 then buf[e * BLOCK_SIZE + j - start] else Fetched(dev, d, e)[j])
  }

  /** Bytes outside block e keep the value they were expected to have. */
  lemma ExpectedOther(z: Snap, start: nat, buf: seq<byte>, wend: nat, wend1: nat, leak: Block, leak1: Block, n0: nat,
                      e: nat, k: nat)
    requires |z.d.direct| == NR_DIRECT_BLOCKS && n0 <= e < MAX_FILE_BLOCKS
    requires start <= wend <= wend1 <= start + |buf| && wend1 <= (e + 1) * BLOCK_SIZE
    requires e == n0 ==> wend == start && start / BLOCK_SIZE == n0
    requires e > n0 ==> wend == e * BLOCK_SIZE && start / BLOCK_SIZE == n0
    requires k / BLOCK_SIZE != e
    ensures Expected(z, start, buf, wend1, leak1, n0, e + 1, k) == Expected(z, start, buf, wend, leak, n0, e, k)
  {
    hide ByteAt, FetchedAt, LeakyAt;
    var m := k / BLOCK_SIZE;
    assert m * BLOCK_SIZE <= k < (m + 1) * BLOCK_SIZE;
    if m < e {
      assert k < e * BLOCK_SIZE;
    } else {
      assert k >= (e + 1) * BLOCK_SIZE;
    }
    if n0 < e && m == e - 1 && k >= wend {
      assert false;
    }
  }

  lemma WroteThisByte(z: Snap, dev: seq<Block>, d: DInode, own: map<int, Role>, b: Block,
                      start: nat, buf: seq<byte>, wend: nat, wend1: nat, leak: Block, n0: nat, e: nat, k: nat)
    requires Wrote(z, dev, d, own, start, buf, wend, leak, n0, e) && e < MAX_FILE_BLOCKS
    requires |d.direct| == NR_DIRECT_BLOCKS
    requires Filled(z, dev, d, b, start, buf, wend, wend1, n0, e) && k / BLOCK_SIZE == e
    requires |z.d.direct| == NR_DIRECT_BLOCKS
    ensures b[k % BLOCK_SIZE] == Expected(z, start, buf, wend1, Fetched(dev, d, e), n0, e + 1, k)
  {
    assert ByteAt(dev, d, k) == Expected(z, start, buf, wend, leak, n0, e, k);
    ProgressNeeds(z, dev, d, own, n0, e);
    var j := k % BLOCK_SIZE;
    assert k == e * BLOCK_SIZE + j;
    assert !Leaky(dev, d, e) ==> Fetched(dev, d, e) == Contents(dev, d, e);
    assert ByteAt(dev, d, k) == Contents(dev, d, e)[j];
    assert e == n0 ==> FetchedAt(z.dev, z.d, k) == Fetched(dev, d, e)[j];
    hide ByteAt, FetchedAt, Fetched, Contents, Leaky, LeakyAt, Progress;
  }

  /** The double-indirect table as it stood before table g was entered in it. */
  function TableBefore(dev: seq<Block>, d: DInode, g: nat): Block
    requires 0 < d.dindirect < |dev| && g < NR_INDIRECT_BLOCKS
  {
    WithEntry(dev[d.dindirect], g, 0)
  }

  lemma OffPath(dev: seq<Block>, d: DInode, own: map<int, Role>,
                dev1: seq<Block>, d1: DInode, own1: map<int, Role>, e: nat, i: nat)
    requires FIRST_DOUBLE <= e < MAX_FILE_BLOCKS && Grown(dev, d, own, dev1, d1, own1, e)
    requires i < NR_INDIRECT_BLOCKS && i != GroupOf(e)
    ensures |d.direct| == |d1.direct| == NR_DIRECT_BLOCKS && Ptr(dev1, d1, Sec(i)) == Ptr(dev, d, Sec(i))
  {
    hide Ptr, Needs, DataRole;
    assert Sec(i) !in Path(e);
  }

  /** What is fetched for a leaky hole is the double-indirect table before the missing table was entered. */
  lemma LeakedTable(dev: seq<Block>, d: DInode, own: map<int, Role>,
                    dev1: seq<Block>, d1: DInode, own1: map<int, Role>, e: nat)
    requires e < MAX_FILE_BLOCKS && Grown(dev, d, own, dev1, d1, own1, e)
    requires |d.direct| == NR_DIRECT_BLOCKS && Leaky(dev, d, e)
    ensures e >= FIRST_DOUBLE && 0 < d1.dindirect < |dev1|
    ensures Fetched(dev, d, e) == TableBefore(dev1, d1, GroupOf(e))
  {
    var g, t := GroupOf(e), d.dindirect;
    Roots(dev, d, own);
    Roots(dev1, d1, own1);
    TablePtrs(dev, d);
    TablePtrs(dev1, d1);
    assert ValidRole(Dind);
    GrownKeeps(dev, d, own, dev1, d1, own1, e);
    hide Owns, Grown, Path, Entry, WithEntry, Needs, Populated, DataRole, Ptr;
    StoreEntry(dev1[t], g, 0);
    forall i: nat | i < NR_INDIRECT_BLOCKS ensures Entry(dev[t], i) == Entry(WithEntry(dev1[t], g, 0), i) {
      if i != g {
        OffPath(dev, d, own, dev1, d1, own1, e, i);
      }
    }
    SameEntries(dev[t], WithEntry(dev1[t], g, 0));
  }

  lemma ProgressFacts(z: Snap, dev: seq<Block>, d: DInode, own: map<int, Role>, n0: nat, e: nat)
    requires Progress(z, dev, d, own, n0, e)
    ensures |z.d.direct| == |d.direct| == NR_DIRECT_BLOCKS && n0 <= e <= MAX_FILE_BLOCKS
    ensures |dev| == |z.dev| == NR_BLOCKS && Owns(dev, d, own) && Populated(dev, d)
  {
  }

  lemma StepContents(z: Snap, dev: seq<Block>, d: DInode, own: map<int, Role>,
                     dev1: seq<Block>, d1: DInode, own1: map<int, Role>, b: Block, n0: nat, e: nat)
    requires Progress(z, dev, d, own, n0, e) && e < MAX_FILE_BLOCKS
    requires Grown(dev, d, own, dev1, d1, own1, e)
    ensures Ptr(dev1, d1, DataRole(e)) in own1 && |d.direct| == |d1.direct| == NR_DIRECT_BLOCKS
    ensures var dev2 := dev1[Ptr(dev1, d1, DataRole(e)) := b];
      && Progress(z, dev2, d1, own1, n0, e + 1)
      && (forall m: nat | m < MAX_FILE_BLOCKS ::
            Contents(dev2, d1, m) == if m == e then b else Contents(dev, d, m))
  {
    GrownData(dev, d, own, dev1, d1, own1, e);
    PtrRange(dev1, d1, own1, DataRole(e));
    assert Ptr(dev1, d1, DataRole(e)) in own1;
    ProgressStep(z, dev, d, own, dev1, d1, own1, n0, e);
    StoreContents(dev1, d1, own1, e, b);
    var dev2 := dev1[Ptr(dev1, d1, DataRole(e)) := b];
    ProgressFrame(z, dev1, dev2, d1, own1, n0, e + 1);
    hide Ptr, Owns, Populated, Grown, DataRole, Progress, Contents;
    forall m: nat | m < MAX_FILE_BLOCKS
      ensures Contents(dev2, d1, m) == if m == e then b else Contents(dev, d, m)
    {
      if m != e {
        GrownContents(dev, d, own, dev1, d1, own1, e, m);
      }
    }
  }

  lemma WroteStep(z: Snap, dev: seq<Block>, d: DInode, own: map<int, Role>,
                  dev1: seq<Block>, d1: DInode, own1: map<int, Role>, b: Block,
                  start: nat, buf: seq<byte>, wend: nat, wend1: nat, leak: Block, n0: nat, e: nat)
    requires Wrote(z, dev, d, own, start, buf, wend, leak, n0, e) && e < MAX_FILE_BLOCKS
    requires |d.direct| == NR_DIRECT_BLOCKS
    requires Grown(dev, d, own, dev1, d1, own1, e)
    requires Filled(z, dev, d, b, start, buf, wend, wend1, n0, e)
    ensures Ptr(dev1, d1, DataRole(e)) in own1
    ensures var dev2 := dev1[Ptr(dev1, d1, DataRole(e)) := b];
      Wrote(z, dev2, d1, own1, start, buf, wend1, Fetched(dev, d, e), n0, e + 1)
  {
    ProgressFacts(z, dev, d, own, n0, e);
    hide Ptr, Owns, Populated, Grown, Fetched, Expected, DataRole, Progress, Contents;
    StepContents(z, dev, d, own, dev1, d1, own1, b, n0, e);
    var dev2 := dev1[Ptr(dev1, d1, DataRole(e)) := b];
    forall k: nat
      ensures ByteAt(dev2, d1, k) == Expected(z, start, buf, wend1, Fetched(dev, d, e), n0, e + 1, k)
    {
      if k / BLOCK_SIZE == e {
        WroteThisByte(z, dev, d, own, b, start, buf, wend, wend1, leak, n0, e, k);
      } else {
        assert ByteAt(dev2, d1, k) == ByteAt(dev, d, k);
        ExpectedOther(z, start, buf, wend, wend1, leak, Fetched(dev, d, e), n0, e, k);
      }
    }
  }

  /** If block m was a leaky hole when the write reached it, leak is the double-indirect table as it
      was then. */
  predicate Leaked(z: Snap, dev: seq<Block>, d: DInode, leak: Block, n0: nat, m: nat)
    requires |z.d.direct| == NR_DIRECT_BLOCKS && m < MAX_FILE_BLOCKS
  {
    LeakyAt(z.dev, z.d, n0, m) ==> 0 < d.dindirect < |dev| && leak == TableBefore(dev, d, GroupOf(m))
  }

  lemma LeakStored(z: Snap, dev: seq<Block>, d: DInode, own: map<int, Role>,
                   dev1: seq<Block>, d1: DInode, own1: map<int, Role>, b: Block, n0: nat, e: nat)
    requires Progress(z, dev, d, own, n0, e) && e < MAX_FILE_BLOCKS && |d.direct| == |z.d.direct| == NR_DIRECT_BLOCKS
    requires Grown(dev, d, own, dev1, d1, own1, e)
    ensures |d1.direct| == NR_DIRECT_BLOCKS && Ptr(dev1, d1, DataRole(e)) in own1
    ensures 0 < Ptr(dev1, d1, DataRole(e)) < |dev1|
    ensures Leaked(z, dev1[Ptr(dev1, d1, DataRole(e)) := b], d1, Fetched(dev, d, e), n0, e)
  {
    GrownData(dev, d, own, dev1, d1, own1, e);
    DataOwned(dev1, d1, own1, e);
    ProgressNeeds(z, dev, d, own, n0, e);
    if LeakyAt(z.dev, z.d, n0, e) {
      LeakedTable(dev, d, own, dev1, d1, own1, e);
      TableRoots(dev1, d1);
      PointersDistinct(dev1, d1, own1, DataRole(e), Dind);
      hide Ptr, Owns, Populated, Grown, Fetched, DataRole, Progress, LeakyAt, Leaky, WithEntry;
    }
  }

  // ---------- the whole write ----------

  /** Last logical block touched by a write of n bytes at start. */
  function LastBlock(start: nat, n: nat): nat {
    if start % BLOCK_SIZE + n <= BLOCK_SIZE then start / BLOCK_SIZE else (start + n - 1) / BLOCK_SIZE
  }

  /** How far a write of blocks n0 to n1 gets, from block m on, with free blocks left: the first
      block that cannot be mapped (n1 + 1 if there is none), and the free blocks left there. */
  function Reach(dev: seq<Block>, d: DInode, free: int, n0: nat, m: nat, n1: nat): (r: (nat, int))
    requires |d.direct| == NR_DIRECT_BLOCKS
    ensures r.0 >= m && (m <= n1 ==> r.0 <= n1 + 1)
    decreases n1 + 1 - m
  {
    if m > n1 || m >= MAX_FILE_BLOCKS || free < StepNeeds(dev, d, n0, m) then (m, free)
    else Reach(dev, d, free - StepNeeds(dev, d, n0, m), n0, m + 1, n1)
  }

  /** The write stops at block m in the middle of mapping it below the double-indirect table. */
  predicate StrandsAt(dev: seq<Block>, d: DInode, free: int, n0: nat, m: nat)
    requires |d.direct| == NR_DIRECT_BLOCKS
  {
    FIRST_DOUBLE <= m < MAX_FILE_BLOCKS && 0 < free < StepNeeds(dev, d, n0, m)
  }

  /** Blocks the inode does not own do not matter. */
  lemma WroteFrame(z: Snap, dev: seq<Block>, dev': seq<Block>, d: DInode, own: map<int, Role>,
                   start: nat, buf: seq<byte>, wend: nat, leak: Block, n0: nat, e: nat)
    requires Wrote(z, dev, d, own, start, buf, wend, leak, n0, e) && |dev'| == |dev|
    requires forall b | b in own && 0 <= b < |dev| :: dev'[b] == dev[b]
    ensures Wrote(z, dev', d, own, start, buf, wend, leak, n0, e)
  {
    ProgressFacts(z, dev, d, own, n0, e);
    OwnsFrame(dev, dev', d, own);
    InodeFrame(dev, dev', d, own);
    hide Owns, Populated, Expected;
    ProgressFrame(z, dev, dev', d, own, n0, e);
    hide Progress;
    forall k: nat ensures ByteAt(dev', d, k) == ByteAt(dev, d, k) {
      if k / BLOCK_SIZE < MAX_FILE_BLOCKS {
        PtrRange(dev, d, own, DataRole(k / BLOCK_SIZE));
        OwnsPtr(dev, d, own, DataRole(k / BLOCK_SIZE));
      }
    }
  }

  lemma OwnsPtr(dev: seq<Block>, d: DInode, own: map<int, Role>, r: Role)
    requires Owns(dev, d, own) && ValidRole(r)
    ensures Ptr(dev, d, r) == 0 || Ptr(dev, d, r) in own
  {
  }

  /** memcpy(block + at, buf + from, n) */
  function CopyIn(block: Block, at: nat, buf: seq<byte>, from: nat, n: nat): Block
    requires at + n <= BLOCK_SIZE && from + n <= |buf|
  {
    block[..at] + buf[from..from + n] + block[at + n..]
  }

  lemma CopiedIn(z: Snap, dev: seq<Block>, d: DInode, at: nat, start: nat, buf: seq<byte>, from: nat, n: nat, n0: nat,
                 e: nat)
    requires |d.direct| == NR_DIRECT_BLOCKS && n0 <= e < MAX_FILE_BLOCKS
    requires at + n <= BLOCK_SIZE && from + n <= |buf|
    requires start + from == e * BLOCK_SIZE + at && start / BLOCK_SIZE == n0
    requires e == n0 ==> from == 0 && dev == z.dev && d == z.d
    requires e > n0 ==> at == 0
    ensures Filled(z, dev, d, CopyIn(Fetched(dev, d, e), at, buf, from, n), start, buf, start + from, start + from + n,
                   n0, e)
  {
    hide Fetched;
  }

  // ---------- i_size ----------

  lemma ResizePtr(dev: seq<Block>, d: DInode, size: int)
    requires |d.direct| == NR_DIRECT_BLOCKS
    ensures forall r | ValidRole(r) :: Ptr(dev, d.(size := size), r) == Ptr(dev, d, r)
    ensures forall k: nat :: ByteAt(dev, d.(size := size), k) == ByteAt(dev, d, k)
  {
    hide Entry;
    var d' := d.(size := size);
    forall k: nat ensures ByteAt(dev, d', k) == ByteAt(dev, d, k) {
      if k / BLOCK_SIZE < MAX_FILE_BLOCKS {
        assert Ptr(dev, d', DataRole(k / BLOCK_SIZE)) == Ptr(dev, d, DataRole(k / BLOCK_SIZE));
        hide Ptr, DataRole;
      }
    }
  }

  /** The map and the bytes do not depend on i_size. */
  lemma Resize(dev: seq<Block>, d: DInode, own: map<int, Role>, size: int)
    requires Owns(dev, d, own) && Populated(dev, d)
    ensures Owns(dev, d.(size := size), own) && Populated(dev, d.(size := size))
  {
    ResizePtr(dev, d, size);
    SamePtrs(dev, d, own, dev, d.(size := size));
    hide Ptr, Owns, Populated;
    SamePopulated(dev, d, dev, d.(size := size));
  }

  lemma ResizeIff(dev: seq<Block>, d: DInode, own: map<int, Role>, size: int)
    requires |d.direct| == NR_DIRECT_BLOCKS
    ensures Owns(dev, d, own) && Populated(dev, d) <==>
            Owns(dev, d.(size := size), own) && Populated(dev, d.(size := size))
  {
    hide Owns, Populated;
    var d' := d.(size := size);
    assert d == d'.(size := d.size);
    if Owns(dev, d, own) && Populated(dev, d) {
      Resize(dev, d, own, size);
    }
    if Owns(dev, d', own) && Populated(dev, d') {
      Resize(dev, d', own, d.size);
    }
  }

  lemma WroteResize(z: Snap, dev: seq<Block>, d: DInode, own: map<int, Role>,
                    start: nat, buf: seq<byte>, wend: nat, leak: Block, n0: nat, e: nat, size: int)
    requires Wrote(z, dev, d, own, start, buf, wend, leak, n0, e)
    ensures Wrote(z, dev, d.(size := size), own, start, buf, wend, leak, n0, e)
    ensures Owns(dev, d.(size := size), own) && Populated(dev, d.(size := size))
  {
    hide Ptr, Owns, Populated, ByteAt, Expected;
    ProgressFacts(z, dev, d, own, n0, e);
    Resize(dev, d, own, size);
    ResizePtr(dev, d, size);
    forall m: nat | m < MAX_FILE_BLOCKS ensures Ptr(dev, d.(size := size), DataRole(m)) == Ptr(dev, d, DataRole(m)) {
    }
    forall i: nat | i < NR_INDIRECT_BLOCKS ensures Ptr(dev, d.(size := size), Sec(i)) == Ptr(dev, d, Sec(i)) {
      assert ValidRole(Sec(i));
    }
  }

  /** After nothing has been written, everything is as it was. */
  lemma WroteStart(z: Snap, start: nat, buf: seq<byte>, leak: Block, n0: nat)
    requires Owns(z.dev, z.d, z.own) && Populated(z.dev, z.d) && n0 < MAX_FILE_BLOCKS && |z.dev| == NR_BLOCKS
    ensures Wrote(z, z.dev, z.d, z.own, start, buf, start, leak, n0, n0)
  {
    ProgressStart(z, n0);
    hide Progress, ByteAt, Owns, Populated;
  }
}
