/** Files without holes, as directories are: every block up to the end is mapped. */
module DenseFiles {
  import opened Common
  import opened BlockMap
  import opened FileData
  import opened Release
  import opened FileSpec
  import opened FileSystems

  ghost predicate Dense(dev: seq<Block>, d: DInode)
    requires |d.direct| == NR_DIRECT_BLOCKS
  {
    forall m: nat | m < MAX_FILE_BLOCKS && m * BLOCK_SIZE < d.size :: Ptr(dev, d, DataRole(m)) != 0
  }

  lemma DenseSame(dev: seq<Block>, dev': seq<Block>, d: DInode)
    requires |d.direct| == NR_DIRECT_BLOCKS && SameMap(dev, dev', d) && Dense(dev, d)
    ensures Dense(dev', d)
  {
    hide Ptr, DataRole;
  }

  /** A mapped block is no leaky hole, nor does it become one. */
  lemma MappedBlock(dev: seq<Block>, d: DInode, n: nat)
    requires |d.direct| == NR_DIRECT_BLOCKS && n < MAX_FILE_BLOCKS && Ptr(dev, d, DataRole(n)) != 0
    ensures !Leaky(dev, d, n) && forall n0: nat | n0 <= n :: !LeakyAt(dev, d, n0, n)
  {
    hide Entry;
  }

  lemma DenseBlock(dev: seq<Block>, d: DInode, k: nat)
    requires |d.direct| == NR_DIRECT_BLOCKS && Dense(dev, d) && k < d.size <= MAX_FILE_SIZE
    ensures k / BLOCK_SIZE < MAX_FILE_BLOCKS && Ptr(dev, d, DataRole(k / BLOCK_SIZE)) != 0
  {
    FileSize();
    hide Ptr, DataRole;
    assert k / BLOCK_SIZE * BLOCK_SIZE <= k;
  }

  /** Reading is right inside a dense file. */
  lemma DenseReads(dev: seq<Block>, d: DInode, start: nat, n: nat)
    requires |d.direct| == NR_DIRECT_BLOCKS && Dense(dev, d) && start + n <= d.size <= MAX_FILE_SIZE
    ensures LeaksZeros(dev, d, start, n)
  {
    hide Ptr, DataRole, Dense, Leaky, FetchedAt;
    forall k: nat | start <= k < start + n
      ensures k / BLOCK_SIZE < MAX_FILE_BLOCKS && !Leaky(dev, d, k / BLOCK_SIZE)
    {
      DenseBlock(dev, d, k);
      MappedBlock(dev, d, k / BLOCK_SIZE);
    }
  }

  /** A write of mapped blocks takes none and gets to its end. */
  lemma {:induction false} MappedReach(dev: seq<Block>, d: DInode, free: int, n0: nat, m: nat, n1: nat)
    requires |d.direct| == NR_DIRECT_BLOCKS && free >= 0 && m <= n1 + 1 && n1 < MAX_FILE_BLOCKS
    requires forall k: nat | m <= k <= n1 :: Ptr(dev, d, DataRole(k)) != 0
    ensures Reach(dev, d, free, n0, m, n1) == (n1 + 1, free)
    decreases n1 + 1 - m
  {
    hide Ptr, DataRole;
    if m <= n1 {
      assert Ptr(dev, d, DataRole(m)) != 0;
      MappedReach(dev, d, free, n0, m + 1, n1);
    }
  }

  /** So a write inside a dense file succeeds. */
  lemma OverwriteReach(z: Snap, start: nat, n: nat)
    requires |z.d.direct| == NR_DIRECT_BLOCKS && Dense(z.dev, z.d) && z.free >= 0
    requires 0 < n && start + n <= z.d.size <= MAX_FILE_SIZE
    ensures var n0, n1 := start / BLOCK_SIZE, LastBlock(start, n);
      Reach(z.dev, z.d, z.free, n0, n0, n1) == (n1 + 1, z.free)
  {
    var n0, n1 := start / BLOCK_SIZE, LastBlock(start, n);
    BlocksTouched(start, n);
    hide Ptr, DataRole, LastBlock, Reach;
    DenseBlock(z.dev, z.d, start + n - 1);
    forall k: nat | n0 <= k <= n1 ensures Ptr(z.dev, z.d, DataRole(k)) != 0 {
      assert k * BLOCK_SIZE <= n1 * BLOCK_SIZE <= start + n - 1;
    }
    MappedReach(z.dev, z.d, z.free, n0, n0, n1);
  }

  /** A write that starts inside a dense file or at its end shows nothing by mistake, whatever leaks past the
      end of the file. */
  lemma DenseShows(z: Snap, start: nat, n: nat, leak: Block)
    requires |z.d.direct| == NR_DIRECT_BLOCKS && Dense(z.dev, z.d) && 0 <= z.d.size <= MAX_FILE_SIZE
    requires 0 < n && start <= z.d.size && LastBlock(start, n) < MAX_FILE_BLOCKS
    ensures start / BLOCK_SIZE <= LastBlock(start, n)
    ensures NothingShows(z.dev, z.d, start, n, Max(z.d.size, start + n), leak)
  {
    var n0, n1 := start / BLOCK_SIZE, LastBlock(start, n);
    BlocksTouched(start, n);
    hide Ptr, DataRole, Dense, Leaky, LeakyAt, FetchedAt, ByteAt, LastBlock;
    forall k: nat | k < z.d.size && k / BLOCK_SIZE == n0 ensures !Leaky(z.dev, z.d, n0) {
      DenseBlock(z.dev, z.d, k);
      MappedBlock(z.dev, z.d, n0);
    }
    forall k: nat | k < z.d.size && k / BLOCK_SIZE == n1 ensures !LeakyAt(z.dev, z.d, n0, n1) {
      DenseBlock(z.dev, z.d, k);
      MappedBlock(z.dev, z.d, n1);
    }
    forall j: nat | start + n - n1 * BLOCK_SIZE <= j < BLOCK_SIZE && n1 * BLOCK_SIZE + j < Max(z.d.size, start + n)
      ensures LeakyAt(z.dev, z.d, n0, n1) ==> leak[j] == 0
    {
      assert (n1 * BLOCK_SIZE + j) / BLOCK_SIZE == n1;
    }
  }

  /** Writing inside a dense file or at its end keeps it dense. */
  lemma DenseKept(z: Snap, dev: seq<Block>, d: DInode, own: map<int, Role>, start: nat, n: nat)
    requires |z.d.direct| == |d.direct| == NR_DIRECT_BLOCKS && Dense(z.dev, z.d) && 0 <= z.d.size && start <= z.d.size
    requires 0 < n && LastBlock(start, n) < MAX_FILE_BLOCKS && d.size == Max(z.d.size, start + n)
    requires Progress(z, dev, d, own, start / BLOCK_SIZE, LastBlock(start, n) + 1)
    ensures Dense(dev, d)
  {
    BlocksTouched(start, n);
    hide Ptr, DataRole, Owns, Populated, LastBlock;
    forall m: nat | m < MAX_FILE_BLOCKS && m * BLOCK_SIZE < d.size ensures Ptr(dev, d, DataRole(m)) != 0 {
      if m * BLOCK_SIZE >= z.d.size {
        assert start / BLOCK_SIZE <= m;
      }
    }
  }

  /** Mapping more blocks keeps a file dense. */
  lemma DenseProgress(z: Snap, dev: seq<Block>, d: DInode, own: map<int, Role>, n0: nat, m: nat)
    requires |z.d.direct| == |d.direct| == NR_DIRECT_BLOCKS && Dense(z.dev, z.d) && d.size == z.d.size
    requires Progress(z, dev, d, own, n0, m)
    ensures Dense(dev, d)
  {
    hide Ptr, DataRole, Owns, Populated;
  }

  // ---------- appending ----------

  /** Where an append of n bytes stops, and the free blocks left then. */
  function Stop(z: Snap, n: nat): (nat, int)
    requires |z.d.direct| == NR_DIRECT_BLOCKS && z.d.size >= 0
  {
    Reach(z.dev, z.d, z.free, z.d.size / BLOCK_SIZE, z.d.size / BLOCK_SIZE, LastBlock(z.d.size, n))
  }

  /** There is room for all of it. */
  predicate Fits(z: Snap, n: nat)
    requires |z.d.direct| == NR_DIRECT_BLOCKS && z.d.size >= 0
  {
    Stop(z, n).0 > LastBlock(z.d.size, n)
  }

  /** It stops at its last block, after its first. */
  predicate Breaks(z: Snap, n: nat)
    requires |z.d.direct| == NR_DIRECT_BLOCKS && z.d.size >= 0
  {
    z.d.size / BLOCK_SIZE < Stop(z, n).0 == LastBlock(z.d.size, n)
  }

  /** It stops half way through mapping a block below the double-indirect table. */
  predicate Dangles(z: Snap, n: nat)
    requires |z.d.direct| == NR_DIRECT_BLOCKS && z.d.size >= 0
  {
    !Fits(z, n) && StrandsAt(z.dev, z.d, Stop(z, n).1, z.d.size / BLOCK_SIZE, Stop(z, n).0)
  }

  function AppendError(z: Snap, n: nat): int
    requires |z.d.direct| == NR_DIRECT_BLOCKS && z.d.size >= 0
  {
    if Fits(z, n) then 0 else if Stop(z, n).0 >= MAX_FILE_BLOCKS then -EFBIG else -ENOSPC
  }

  lemma {:induction false} ReachSame(dev: seq<Block>, dev': seq<Block>, d: DInode, free: int, n0: nat, m: nat, n1: nat)
    requires |d.direct| == NR_DIRECT_BLOCKS && SameMap(dev, dev', d)
    ensures Reach(dev', d, free, n0, m, n1) == Reach(dev, d, free, n0, m, n1)
    decreases n1 + 1 - m
  {
    hide Ptr;
    if m <= n1 && m < MAX_FILE_BLOCKS {
      StepSame(dev, dev', d, n0, m);
      hide SameMap, StepNeeds;
      if free >= StepNeeds(dev, d, n0, m) {
        ReachSame(dev, dev', d, free - StepNeeds(dev, d, n0, m), n0, m + 1, n1);
      }
    }
  }

  lemma StepSame(dev: seq<Block>, dev': seq<Block>, d: DInode, n0: nat, m: nat)
    requires |d.direct| == NR_DIRECT_BLOCKS && SameMap(dev, dev', d) && m < MAX_FILE_BLOCKS
    ensures StepNeeds(dev', d, n0, m) == StepNeeds(dev, d, n0, m)
  {
    assert m >= FIRST_DOUBLE ==> ValidRole(Sec(GroupOf(m)));
    hide Ptr, DataRole;
  }

  /** How an append ends depends on the map and the number of free blocks. */
  lemma StopSame(z: Snap, w: Snap, n: nat)
    requires |z.d.direct| == NR_DIRECT_BLOCKS && z.d.size >= 0
    requires w.d == z.d && w.free == z.free && SameMap(z.dev, w.dev, z.d)
    ensures Stop(w, n) == Stop(z, n) && (Fits(w, n) <==> Fits(z, n)) && (Breaks(w, n) <==> Breaks(z, n))
    ensures (Dangles(w, n) <==> Dangles(z, n)) && AppendError(w, n) == AppendError(z, n)
  {
    hide Reach, StepNeeds, LastBlock;
    ReachSame(z.dev, w.dev, z.d, z.free, z.d.size / BLOCK_SIZE, z.d.size / BLOCK_SIZE, LastBlock(z.d.size, n));
    var m := Stop(z, n).0;
    if m < MAX_FILE_BLOCKS {
      StepSame(z.dev, w.dev, z.d, z.d.size / BLOCK_SIZE, m);
    }
  }

  /** A short append breaks exactly when it runs into another block and there is no room for that one. */
  lemma BreaksIff(z: Snap, n: nat)
    requires |z.d.direct| == NR_DIRECT_BLOCKS && Dense(z.dev, z.d) && 0 <= z.d.size <= MAX_FILE_SIZE && z.free >= 0
    requires 0 < n <= BLOCK_SIZE
    ensures var n0 := z.d.size / BLOCK_SIZE;
      Breaks(z, n) <==>
        && z.d.size % BLOCK_SIZE + n > BLOCK_SIZE
        && (n0 + 1 == MAX_FILE_BLOCKS || z.free < StepNeeds(z.dev, z.d, n0, n0 + 1))
  {
    FileSize();
    var n0 := z.d.size / BLOCK_SIZE;
    if z.d.size % BLOCK_SIZE + n > BLOCK_SIZE {
      assert LastBlock(z.d.size, n) == n0 + 1;
      assert n0 * BLOCK_SIZE < z.d.size;
      assert n0 < MAX_FILE_BLOCKS && Ptr(z.dev, z.d, DataRole(n0)) != 0;
      hide Ptr, DataRole, Dense;
      assert StepNeeds(z.dev, z.d, n0, n0) == 0;
      assert Reach(z.dev, z.d, z.free, n0, n0, n0 + 1) == Reach(z.dev, z.d, z.free, n0, n0 + 1, n0 + 1);
    }
  }

  /** The first append to an empty file takes one block. */
  lemma FirstAppend(z: Snap, itype: int, n: nat)
    requires z.d == EmptyInode(itype) && 0 < n <= BLOCK_SIZE && z.free >= 0
    ensures |z.d.direct| == NR_DIRECT_BLOCKS && (Fits(z, n) <==> z.free >= 1) && !Breaks(z, n) && !Dangles(z, n)
    ensures Stop(z, n).1 == (if z.free >= 1 then z.free - 1 else 0)
    ensures !Fits(z, n) ==> AppendError(z, n) == -ENOSPC && Unstarted(z, 0, n)
  {
    assert Ptr(z.dev, z.d, DataRole(0)) == 0;
    hide Ptr, DataRole;
    assert LastBlock(0, n) == 0 && StepNeeds(z.dev, z.d, 0, 0) == 1;
    assert Reach(z.dev, z.d, z.free - 1, 0, 1, 0) == (1, z.free - 1);
  }

  /** An append inside the last block of a dense file takes none. */
  lemma NextAppend(z: Snap, n: nat)
    requires |z.d.direct| == NR_DIRECT_BLOCKS && Dense(z.dev, z.d) && 0 <= z.d.size <= MAX_FILE_SIZE && z.free >= 0
    requires z.d.size % BLOCK_SIZE > 0 && z.d.size % BLOCK_SIZE + n <= BLOCK_SIZE
    ensures Fits(z, n) && Stop(z, n).1 == z.free
  {
    FileSize();
    var n0 := z.d.size / BLOCK_SIZE;
    hide Ptr, DataRole;
    assert LastBlock(z.d.size, n) == n0;
    assert n0 * BLOCK_SIZE < z.d.size;
    MappedReach(z.dev, z.d, z.free, n0, n0, n0);
  }

  /** What an append that is written as far as block m does to a dense file. */
  lemma Appended(z: Snap, dev: seq<Block>, d: DInode, own: map<int, Role>, buf: seq<byte>, leak: Block, m: nat)
    requires |z.d.direct| == |d.direct| == NR_DIRECT_BLOCKS && Dense(z.dev, z.d) && 0 <= z.d.size <= MAX_FILE_SIZE
    requires z.d.size / BLOCK_SIZE < m && m * BLOCK_SIZE <= z.d.size + |buf|
    requires Wrote(z, dev, d, own, z.d.size, buf, m * BLOCK_SIZE, leak, z.d.size / BLOCK_SIZE, m)
    ensures forall k: nat | k < m * BLOCK_SIZE ::
              ByteAt(dev, d, k) == if k < z.d.size then ByteAt(z.dev, z.d, k) else buf[k - z.d.size]
    ensures m < MAX_FILE_BLOCKS && Ptr(z.dev, z.d, DataRole(m)) == 0 ==>
              forall k: nat | m * BLOCK_SIZE <= k < (m + 1) * BLOCK_SIZE :: ByteAt(dev, d, k) == 0
  {
    hide Ptr, DataRole, Dense, Leaky, LeakyAt, Fetched, Progress, Contents, Owns, Populated;
    forall k: nat | k < m * BLOCK_SIZE
      ensures ByteAt(dev, d, k) == if k < z.d.size then ByteAt(z.dev, z.d, k) else buf[k - z.d.size]
    {
      if k < z.d.size {
        DenseBlock(z.dev, z.d, k);
        MappedBlock(z.dev, z.d, k / BLOCK_SIZE);
        LeakyEmpty(z.dev, z.d, k / BLOCK_SIZE, k / BLOCK_SIZE);
      }
    }
    if m < MAX_FILE_BLOCKS && Ptr(z.dev, z.d, DataRole(m)) == 0 {
      HoleContents(z.dev, z.d, m);
    }
  }

  lemma HoleContents(dev: seq<Block>, d: DInode, n: nat)
    requires |d.direct| == NR_DIRECT_BLOCKS && n < MAX_FILE_BLOCKS && Ptr(dev, d, DataRole(n)) == 0
    ensures Contents(dev, d, n) == ZeroBlock()
  {
  }

  /** An append to a dense file succeeds exactly when there is room for it, and then the file is longer by the
      bytes written, whatever leaks past its end. One that fails leaves its contents as they were exactly when
      it does not break; a dense file stays dense then. One that breaks makes the file as long as a file can be:
      the part of the bytes that did get written follows the old contents, and then there is a hole. */
  lemma AppendIff(z: Snap, w: Snap, wellFormed: bool, buf: seq<byte>, ret: int, leak: Block)
    requires |z.d.direct| == NR_DIRECT_BLOCKS && Dense(z.dev, z.d) && 0 <= z.d.size <= MAX_FILE_SIZE && buf != []
    requires z.free >= 0
    requires WriteEnds(z, w, wellFormed, z.d.size, buf, ret, leak)
    requires ret < 0 && wellFormed && Unstarted(z, z.d.size, |buf|) ==>
               && w.d == z.d && SameFile(z.dev, w.dev, z.d)
    ensures ret == if Fits(z, |buf|) then |buf| else AppendError(z, |buf|)
    ensures w.free == Stop(z, |buf|).1
    ensures wellFormed <==> !Dangles(z, |buf|)
    ensures wellFormed ==> |w.d.direct| == NR_DIRECT_BLOCKS && 0 <= w.d.size <= MAX_FILE_SIZE
    ensures Fits(z, |buf|) ==> wellFormed && FileOf(w.dev, w.d) == FileOf(z.dev, z.d) + buf && Dense(w.dev, w.d)
    ensures Fits(z, |buf|) && Removable(z.dev, z.d) ==> Removable(w.dev, w.d)
    ensures wellFormed && !Fits(z, |buf|) ==>
              (FileOf(w.dev, w.d) == FileOf(z.dev, z.d) <==> !Breaks(z, |buf|))
              && (!Breaks(z, |buf|) ==> w.d.size == z.d.size && Dense(w.dev, w.d))
    ensures wellFormed && Breaks(z, |buf|) ==> Broken(z, w, buf)
  {
    hide Reach, Progress, LastBlock, Dense, ByteAt, Expected, StrandsAt, NothingShows, Leaked, Removable, Harmless,
         ZeroTail, SameMap, Broken, Spliced;
    FileSize();
    var start, n1 := z.d.size, LastBlock(z.d.size, |buf|);
    BlocksTouched(start, |buf|);
    if Fits(z, |buf|) {
      DenseShows(z, start, |buf|, leak);
      DenseKept(z, w.dev, w.d, w.own, start, |buf|);
      SplicedAtEnd(FileOf(z.dev, z.d), buf);
    } else if wellFormed && Breaks(z, |buf|) {
      ReachStops(z.dev, z.d, z.free, start / BLOCK_SIZE, start / BLOCK_SIZE, n1);
      BrokenBy(z, w, buf, leak, n1);
    } else if wellFormed && !Unstarted(z, start, |buf|) {
      Stopped(z, w, buf, leak, n1, Stop(z, |buf|).0);
    } else if wellFormed {
      DenseSame(z.dev, w.dev, z.d);
    }
  }

  /** A write inside a dense file, of bytes it has, succeeds, takes no block, and changes those bytes. */
  lemma OverwriteEnds(z: Snap, w: Snap, wellFormed: bool, start: nat, buf: seq<byte>, ret: int, leak: Block)
    requires |z.d.direct| == NR_DIRECT_BLOCKS && Dense(z.dev, z.d) && 0 <= z.d.size <= MAX_FILE_SIZE && z.free >= 0
    requires buf != [] && start + |buf| <= z.d.size && WriteEnds(z, w, wellFormed, start, buf, ret, leak)
    ensures ret == |buf| && wellFormed && |w.d.direct| == NR_DIRECT_BLOCKS && w.d.size == z.d.size && w.free == z.free
    ensures FileOf(w.dev, w.d) == Spliced(FileOf(z.dev, z.d), start, buf) && Dense(w.dev, w.d)
    ensures Removable(z.dev, z.d) ==> Removable(w.dev, w.d)
  {
    hide Reach, Progress, LastBlock, Dense, ByteAt, Expected, StrandsAt, NothingShows, Leaked, Removable, Harmless,
         ZeroTail, Spliced;
    OverwriteReach(z, start, |buf|);
    DenseShows(z, start, |buf|, leak);
    DenseKept(z, w.dev, w.d, w.own, start, |buf|);
  }

  lemma SplicedAtEnd(f: File, buf: seq<byte>)
    requires buf != []
    ensures Spliced(f, |f|, buf) == f + buf
  {
  }

  lemma Stopped(z: Snap, w: Snap, buf: seq<byte>, leak: Block, n1: nat, m: nat)
    requires |z.d.direct| == NR_DIRECT_BLOCKS && Dense(z.dev, z.d) && 0 <= z.d.size <= MAX_FILE_SIZE
    requires m < n1 && n1 * BLOCK_SIZE < z.d.size + |buf| && StoppedAt(z, w, z.d.size, buf, leak, n1, m)
    ensures FileOf(w.dev, w.d) == FileOf(z.dev, z.d) && Dense(w.dev, w.d)
  {
    hide Progress, Dense, ByteAt, Expected, Removable;
    assert m * BLOCK_SIZE <= n1 * BLOCK_SIZE;
    Appended(z, w.dev, w.d, w.own, buf, leak, m);
    DenseProgress(z, w.dev, w.d, w.own, z.d.size / BLOCK_SIZE, m);
    assert z.d.size < m * BLOCK_SIZE;
    assert FileOf(w.dev, w.d) == FileOf(z.dev, z.d);
  }

  /** The file after an append that breaks. */
  ghost predicate Broken(z: Snap, w: Snap, buf: seq<byte>)
    requires |z.d.direct| == |w.d.direct| == NR_DIRECT_BLOCKS && z.d.size >= 0 && w.d.size >= 0
  {
    var f, end := FileOf(w.dev, w.d), LastBlock(z.d.size, |buf|) * BLOCK_SIZE;
    && |f| == MAX_FILE_SIZE && z.d.size < end < z.d.size + |buf|
    && end <= MAX_FILE_SIZE && f[..end] == FileOf(z.dev, z.d) + buf[..end - z.d.size]
    && (end < MAX_FILE_SIZE ==> f[end..end + BLOCK_SIZE] == ZeroBlock())
  }

  lemma {:induction false} ReachStops(dev: seq<Block>, d: DInode, free: int, n0: nat, m: nat, n1: nat)
    requires |d.direct| == NR_DIRECT_BLOCKS && free >= 0 && m <= MAX_FILE_BLOCKS
    ensures var (s, left) := Reach(dev, d, free, n0, m, n1);
      s <= MAX_FILE_BLOCKS && left >= 0 && (s <= n1 && s < MAX_FILE_BLOCKS ==> left < StepNeeds(dev, d, n0, s))
    decreases n1 + 1 - m
  {
    hide StepNeeds;
    if m <= n1 && m < MAX_FILE_BLOCKS && free >= StepNeeds(dev, d, n0, m) {
      ReachStops(dev, d, free - StepNeeds(dev, d, n0, m), n0, m + 1, n1);
    }
  }

  lemma BrokenBy(z: Snap, w: Snap, buf: seq<byte>, leak: Block, n1: nat)
    requires |z.d.direct| == NR_DIRECT_BLOCKS && Dense(z.dev, z.d) && 0 <= z.d.size <= MAX_FILE_SIZE
    requires n1 == LastBlock(z.d.size, |buf|) && StoppedAt(z, w, z.d.size, buf, leak, n1, n1) && n1 <= MAX_FILE_BLOCKS
    requires n1 < MAX_FILE_BLOCKS ==> Ptr(z.dev, z.d, DataRole(n1)) == 0
    ensures |w.d.direct| == NR_DIRECT_BLOCKS && w.d.size >= 0 && Broken(z, w, buf)
  {
    hide Progress, Dense, ByteAt, Expected, Removable, Ptr, DataRole;
    FileSize();
    BlocksTouched(z.d.size, |buf|);
    Appended(z, w.dev, w.d, w.own, buf, leak, n1);
    hide Wrote, LastBlock;
    var f, end := FileOf(w.dev, w.d), n1 * BLOCK_SIZE;
    assert f[..end] == FileOf(z.dev, z.d) + buf[..end - z.d.size];
  }
}
