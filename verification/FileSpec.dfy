/** A file as its owner sees it: a sequence of bytes. */
module FileSpec {
  import opened Common
  import opened BlockMap
  import opened FileData
  import opened Release

  type File = seq<byte>

  /** The bytes of a file up to its size. */
  function FileOf(dev: seq<Block>, d: DInode): (f: File)
    requires |d.direct| == NR_DIRECT_BLOCKS && d.size >= 0
    ensures |f| == d.size
  {
    seq(d.size, (k: int) requires 0 <= k < d.size => ByteAt(dev, d, k))
  }

  /** The file after buf is written at start: longer if need be, zeros in between. */
  function Spliced(f: File, start: nat, buf: seq<byte>): File {
    if buf == [] then f
    else
      seq(Max(|f|, start + |buf|), (k: int) requires 0 <= k =>
        if start <= k < start + |buf| then buf[k - start] else if k < |f| then f[k] else 0)
  }

  /** Bytes past the end are zero, so that they read as zero once the file grows. */
  ghost predicate ZeroTail(dev: seq<Block>, d: DInode)
    requires |d.direct| == NR_DIRECT_BLOCKS
  {
    forall k: nat | k >= d.size :: ByteAt(dev, d, k) == 0
  }

  /** Every mapped block holds a byte of the file, and the last byte is in a mapped block. */
  ghost predicate Tight(dev: seq<Block>, d: DInode)
    requires |d.direct| == NR_DIRECT_BLOCKS && 0 <= d.size <= MAX_FILE_SIZE
  {
    && Covers(dev, d, DivRoundUp(d.size, BLOCK_SIZE))
    && (d.size > 0 ==> Ptr(dev, d, DataRole((d.size - 1) / BLOCK_SIZE)) != 0)
  }

  /** What a successful write of n bytes at start may store by mistake is zeros: around the window of
      its first block when that is a leaky hole, and after the window of its last block when that is one
      by the time it is reached and leak is fetched for it. */
  ghost predicate Harmless(dev: seq<Block>, d: DInode, start: nat, n: nat, leak: Block)
    requires |d.direct| == NR_DIRECT_BLOCKS && start / BLOCK_SIZE <= LastBlock(start, n) < MAX_FILE_BLOCKS
  {
    var n0, n1 := start / BLOCK_SIZE, LastBlock(start, n);
    && (Leaky(dev, d, n0) ==>
          forall k: nat | k / BLOCK_SIZE == n0 && !(start <= k < start + n) :: FetchedAt(dev, d, k) == 0)
    && (n0 < n1 && LeakyAt(dev, d, n0, n1) ==>
          forall j: nat | start + n - n1 * BLOCK_SIZE <= j < BLOCK_SIZE :: leak[j] == 0)
  }

  /** What a successful write of n bytes at start shows by mistake is zeros: the bytes below size that leaky
      holes get outside the window, and the bytes between the old end and the window. */
  ghost predicate NothingShows(dev: seq<Block>, d: DInode, start: nat, n: nat, size: int, leak: Block)
    requires |d.direct| == NR_DIRECT_BLOCKS && start / BLOCK_SIZE <= LastBlock(start, n) < MAX_FILE_BLOCKS
  {
    var n0, n1 := start / BLOCK_SIZE, LastBlock(start, n);
    && (Leaky(dev, d, n0) ==>
          forall k: nat | k < size && k / BLOCK_SIZE == n0 && !(start <= k < start + n) :: FetchedAt(dev, d, k) == 0)
    && (n0 < n1 && LeakyAt(dev, d, n0, n1) ==>
          forall j: nat | start + n - n1 * BLOCK_SIZE <= j < BLOCK_SIZE && n1 * BLOCK_SIZE + j < size :: leak[j] == 0)
    && (forall k: nat | d.size <= k < size && !(start <= k < start + n) :: ByteAt(dev, d, k) == 0)
  }

  /** The value byte k should have after a write. */
  function Wanted(z: Snap, start: nat, buf: seq<byte>, k: nat): byte
    requires |z.d.direct| == NR_DIRECT_BLOCKS
  {
    if start <= k < start + |buf| then buf[k - start] else ByteAt(z.dev, z.d, k)
  }

  lemma BlocksTouched(start: nat, n: nat)
    ensures start / BLOCK_SIZE <= LastBlock(start, n)
    ensures start + n <= (LastBlock(start, n) + 1) * BLOCK_SIZE
    ensures start / BLOCK_SIZE < LastBlock(start, n) ==> start + n > LastBlock(start, n) * BLOCK_SIZE
    ensures n > 0 ==> LastBlock(start, n) == (start + n - 1) / BLOCK_SIZE
  {
  }

  /** Below a missing second-level table there are only holes. */
  lemma HoleBelow(dev: seq<Block>, d: DInode, n: nat)
    requires |d.direct| == NR_DIRECT_BLOCKS && FIRST_DOUBLE <= n < MAX_FILE_BLOCKS && Ptr(dev, d, Sec(GroupOf(n))) == 0
    ensures Contents(dev, d, n) == ZeroBlock()
  {
    hide Entry;
  }

  lemma LeakyEmpty(dev: seq<Block>, d: DInode, n0: nat, n: nat)
    requires |d.direct| == NR_DIRECT_BLOCKS && n0 <= n < MAX_FILE_BLOCKS
    ensures LeakyAt(dev, d, n0, n) ==> Contents(dev, d, n) == ZeroBlock()
    ensures Leaky(dev, d, n) ==> Contents(dev, d, n) == ZeroBlock()
    ensures !Leaky(dev, d, n) ==> Fetched(dev, d, n) == Contents(dev, d, n)
  {
    TablePtrs(dev, d);
    hide Ptr, Contents;
    if n >= FIRST_DOUBLE && Ptr(dev, d, Sec(GroupOf(n))) == 0 {
      HoleBelow(dev, d, n);
    }
  }

  /** What becomes of byte k, and what should. */
  lemma ByteAfter(z: Snap, start: nat, buf: seq<byte>, leak: Block, k: nat)
    requires |z.d.direct| == NR_DIRECT_BLOCKS && LastBlock(start, |buf|) < MAX_FILE_BLOCKS
    ensures var n0, n1, m := start / BLOCK_SIZE, LastBlock(start, |buf|), k / BLOCK_SIZE;
      var after := Expected(z, start, buf, start + |buf|, leak, n0, n1 + 1, k);
      && n0 <= n1
      && (after == Wanted(z, start, buf, k) <==>
            if start <= k < start + |buf| then true
            else if m == n0 then !Leaky(z.dev, z.d, n0) || FetchedAt(z.dev, z.d, k) == 0
            else n0 < n1 && m == n1 && LeakyAt(z.dev, z.d, n0, n1) ==> leak[k % BLOCK_SIZE] == 0)
  {
    BlocksTouched(start, |buf|);
    if k / BLOCK_SIZE < MAX_FILE_BLOCKS {
      var n0 := start / BLOCK_SIZE;
      LeakyEmpty(z.dev, z.d, if n0 <= k / BLOCK_SIZE then n0 else k / BLOCK_SIZE, k / BLOCK_SIZE);
    }
    hide LeakyAt, Leaky, Fetched, Contents, LastBlock;
  }

  /** Every byte gets the value it should have exactly when the write is harmless. */
  lemma HarmlessIff(z: Snap, start: nat, buf: seq<byte>, leak: Block)
    requires |z.d.direct| == NR_DIRECT_BLOCKS && start / BLOCK_SIZE <= LastBlock(start, |buf|) < MAX_FILE_BLOCKS
    ensures Harmless(z.dev, z.d, start, |buf|, leak) <==>
            forall k: nat ::
              Expected(z, start, buf, start + |buf|, leak, start / BLOCK_SIZE, LastBlock(start, |buf|) + 1, k)
              == Wanted(z, start, buf, k)
  {
    hide Expected, Wanted, LeakyAt, Leaky, FetchedAt, LastBlock;
    var n0, n1 := start / BLOCK_SIZE, LastBlock(start, |buf|);
    BlocksTouched(start, |buf|);
    forall k: nat { ByteAfter(z, start, buf, leak, k); }
    if forall k: nat :: Expected(z, start, buf, start + |buf|, leak, n0, n1 + 1, k) == Wanted(z, start, buf, k) {
      forall k: nat | Leaky(z.dev, z.d, n0) && k / BLOCK_SIZE == n0 && !(start <= k < start + |buf|)
        ensures FetchedAt(z.dev, z.d, k) == 0
      {
        ByteAfter(z, start, buf, leak, k);
      }
      forall j: nat | n0 < n1 && LeakyAt(z.dev, z.d, n0, n1) && start + |buf| - n1 * BLOCK_SIZE <= j < BLOCK_SIZE
        ensures leak[j] == 0
      {
        ByteAfter(z, start, buf, leak, n1 * BLOCK_SIZE + j);
      }
    }
  }

  /** The new file is the old one with buf spliced in, and zeros after it, exactly when every byte has
      the value it should have. */
  lemma SplicedIff(z: Snap, dev: seq<Block>, d: DInode, start: nat, buf: seq<byte>)
    requires |z.d.direct| == |d.direct| == NR_DIRECT_BLOCKS && ZeroTail(z.dev, z.d)
    requires z.d.size >= 0 && d.size == if |buf| > 0 then Max(z.d.size, start + |buf|) else z.d.size
    ensures FileOf(dev, d) == Spliced(FileOf(z.dev, z.d), start, buf) && ZeroTail(dev, d) <==>
            forall k: nat :: ByteAt(dev, d, k) == Wanted(z, start, buf, k)
  {
    hide ByteAt;
    var f, g := FileOf(dev, d), Spliced(FileOf(z.dev, z.d), start, buf);
    assert |f| == |g|;
    forall k: nat | k < d.size ensures f[k] == ByteAt(dev, d, k) && g[k] == Wanted(z, start, buf, k) {
    }
    if f == g && ZeroTail(dev, d) {
      forall k: nat ensures ByteAt(dev, d, k) == Wanted(z, start, buf, k) {
        assert k < d.size ==> f[k] == g[k];
      }
    }
    if forall k: nat :: ByteAt(dev, d, k) == Wanted(z, start, buf, k) {
      assert forall k: nat | k < d.size :: f[k] == g[k];
    }
  }

  /** testfs_write_data does to the bytes what a write to a sparse file should do exactly when it is
      harmless; a write of no bytes too. */
  lemma WriteRefines(z: Snap, dev: seq<Block>, d: DInode, own: map<int, Role>, start: nat, buf: seq<byte>, leak: Block)
    requires |z.d.direct| == |d.direct| == NR_DIRECT_BLOCKS
    requires start / BLOCK_SIZE <= LastBlock(start, |buf|) < MAX_FILE_BLOCKS
    requires Wrote(z, dev, d, own, start, buf, start + |buf|, leak, start / BLOCK_SIZE, LastBlock(start, |buf|) + 1)
    requires ZeroTail(z.dev, z.d)
    requires z.d.size >= 0 && d.size == if |buf| > 0 then Max(z.d.size, start + |buf|) else z.d.size
    ensures FileOf(dev, d) == Spliced(FileOf(z.dev, z.d), start, buf) && ZeroTail(dev, d) <==>
            Harmless(z.dev, z.d, start, |buf|, leak)
  {
    hide Harmless, ByteAt, Progress, Expected, Wanted, FileOf, Spliced, ZeroTail;
    HarmlessIff(z, start, buf, leak);
    SplicedIff(z, dev, d, start, buf);
  }

  /** The value byte k of the new file should have: zero where the old file had none. */
  function Shown(z: Snap, start: nat, buf: seq<byte>, k: nat): byte
    requires |z.d.direct| == NR_DIRECT_BLOCKS
  {
    if start <= k < start + |buf| then buf[k - start] else if k < z.d.size then ByteAt(z.dev, z.d, k) else 0
  }

  /** The new file is the old one with buf spliced in exactly when its bytes have the values they should have,
      whatever is stored past the end of either. */
  lemma ShownIff(z: Snap, dev: seq<Block>, d: DInode, start: nat, buf: seq<byte>)
    requires |z.d.direct| == |d.direct| == NR_DIRECT_BLOCKS
    requires z.d.size >= 0 && d.size == if |buf| > 0 then Max(z.d.size, start + |buf|) else z.d.size
    ensures FileOf(dev, d) == Spliced(FileOf(z.dev, z.d), start, buf) <==>
            forall k: nat | k < d.size :: ByteAt(dev, d, k) == Shown(z, start, buf, k)
  {
    hide ByteAt;
    var f, g := FileOf(dev, d), Spliced(FileOf(z.dev, z.d), start, buf);
    assert |f| == |g|;
    forall k: nat | k < d.size ensures f[k] == ByteAt(dev, d, k) && g[k] == Shown(z, start, buf, k) {
    }
    if f == g {
      forall k: nat | k < d.size ensures ByteAt(dev, d, k) == Shown(z, start, buf, k) {
        assert f[k] == g[k];
      }
    }
    if forall k: nat | k < d.size :: ByteAt(dev, d, k) == Shown(z, start, buf, k) {
      assert forall k: nat | k < d.size :: f[k] == g[k];
    }
  }

  /** What is shown of byte k, and what should be. */
  lemma ByteShown(z: Snap, start: nat, buf: seq<byte>, leak: Block, k: nat)
    requires |z.d.direct| == NR_DIRECT_BLOCKS && LastBlock(start, |buf|) < MAX_FILE_BLOCKS
    ensures var n0, n1, m := start / BLOCK_SIZE, LastBlock(start, |buf|), k / BLOCK_SIZE;
      var after := Expected(z, start, buf, start + |buf|, leak, n0, n1 + 1, k);
      && n0 <= n1
      && (after == Shown(z, start, buf, k) <==>
            if start <= k < start + |buf| then true
            else
              && (m == n0 && Leaky(z.dev, z.d, n0) ==> FetchedAt(z.dev, z.d, k) == 0)
              && (n0 < n1 && m == n1 && LeakyAt(z.dev, z.d, n0, n1) ==> leak[k % BLOCK_SIZE] == 0)
              && (k >= z.d.size ==> ByteAt(z.dev, z.d, k) == 0))
  {
    BlocksTouched(start, |buf|);
    if k / BLOCK_SIZE < MAX_FILE_BLOCKS {
      var n0 := start / BLOCK_SIZE;
      LeakyEmpty(z.dev, z.d, if n0 <= k / BLOCK_SIZE then n0 else k / BLOCK_SIZE, k / BLOCK_SIZE);
    }
    hide LeakyAt, Leaky, Fetched, Contents, LastBlock;
  }

  /** testfs_write_data does to the visible bytes of a file, whatever is stored past its end, what a write to a
      sequence of bytes does exactly when what it shows by mistake is zeros. */
  lemma WriteShows(z: Snap, dev: seq<Block>, d: DInode, own: map<int, Role>, start: nat, buf: seq<byte>, leak: Block)
    requires |z.d.direct| == |d.direct| == NR_DIRECT_BLOCKS
    requires start / BLOCK_SIZE <= LastBlock(start, |buf|) < MAX_FILE_BLOCKS
    requires Wrote(z, dev, d, own, start, buf, start + |buf|, leak, start / BLOCK_SIZE, LastBlock(start, |buf|) + 1)
    requires z.d.size >= 0 && d.size == if |buf| > 0 then Max(z.d.size, start + |buf|) else z.d.size
    ensures FileOf(dev, d) == Spliced(FileOf(z.dev, z.d), start, buf) <==>
            NothingShows(z.dev, z.d, start, |buf|, d.size, leak)
  {
    hide ByteAt, Progress, Expected, Shown, FileOf, Spliced, LeakyAt, Leaky, FetchedAt, LastBlock;
    var n0, n1 := start / BLOCK_SIZE, LastBlock(start, |buf|);
    BlocksTouched(start, |buf|);
    ShownIff(z, dev, d, start, buf);
    forall k: nat { ByteShown(z, start, buf, leak, k); }
    if forall k: nat | k < d.size :: ByteAt(dev, d, k) == Shown(z, start, buf, k) {
      forall k: nat | k < d.size && !(start <= k < start + |buf|)
        ensures k / BLOCK_SIZE == n0 && Leaky(z.dev, z.d, n0) ==> FetchedAt(z.dev, z.d, k) == 0
        ensures n0 < n1 && k / BLOCK_SIZE == n1 && LeakyAt(z.dev, z.d, n0, n1) ==> leak[k % BLOCK_SIZE] == 0
        ensures k >= z.d.size ==> ByteAt(z.dev, z.d, k) == 0
      {
        assert ByteAt(dev, d, k) == Shown(z, start, buf, k);
      }
      forall j: nat | start + |buf| - n1 * BLOCK_SIZE <= j < BLOCK_SIZE && n1 * BLOCK_SIZE + j < d.size
        ensures n0 < n1 && LeakyAt(z.dev, z.d, n0, n1) ==> leak[j] == 0
      {
        var k := n1 * BLOCK_SIZE + j;
        assert k / BLOCK_SIZE == n1 && k % BLOCK_SIZE == j;
      }
    }
    if NothingShows(z.dev, z.d, start, |buf|, d.size, leak) {
      forall k: nat | k < d.size ensures ByteAt(dev, d, k) == Shown(z, start, buf, k) {
      }
    }
  }

  lemma ZeroEntryIff(b: Block, i: nat)
    requires i < NR_INDIRECT_BLOCKS
    ensures Entry(b, i) == 0 <==> forall j: nat | j < BLOCK_SIZE && j / 4 == i :: b[j] == 0
  {
    hide Unpack;
    assert Unpack(0, 0, 0, 0) == 0 by {
      ZeroUnpack();
    }
    if Entry(b, i) == 0 {
      UnpackInjective(b[4 * i], b[4 * i + 1], b[4 * i + 2], b[4 * i + 3], 0, 0, 0, 0);
      forall j: nat | j < BLOCK_SIZE && j / 4 == i ensures b[j] == 0 {
        assert j == 4 * i + j % 4;
      }
    }
    if forall j: nat | j < BLOCK_SIZE && j / 4 == i :: b[j] == 0 {
      assert b[4 * i] == 0 && b[4 * i + 1] == 0 && b[4 * i + 2] == 0 && b[4 * i + 3] == 0;
    }
  }

  lemma ZeroTailIff(b: Block, w: nat)
    requires w <= BLOCK_SIZE
    ensures (forall j: nat | w <= j < BLOCK_SIZE :: b[j] == 0) <==>
            && (forall j: nat | w <= j < BLOCK_SIZE && j / 4 == w / 4 :: b[j] == 0)
            && (forall i: nat | w / 4 < i < NR_INDIRECT_BLOCKS :: Entry(b, i) == 0)
  {
    hide Entry;
    if forall j: nat | w <= j < BLOCK_SIZE :: b[j] == 0 {
      forall i: nat | w / 4 < i < NR_INDIRECT_BLOCKS ensures Entry(b, i) == 0 {
        ZeroEntryIff(b, i);
      }
    }
    if forall i: nat | w / 4 < i < NR_INDIRECT_BLOCKS :: Entry(b, i) == 0 {
      forall j: nat | w <= j < BLOCK_SIZE && j / 4 != w / 4 ensures b[j] == 0 {
        ZeroEntryIff(b, j / 4);
      }
    }
  }

  lemma LeakEntry(z: Snap, dev: seq<Block>, d: DInode, own: map<int, Role>, leak: Block, n0: nat, n1: nat, i: nat)
    requires |z.d.direct| == |d.direct| == NR_DIRECT_BLOCKS && n0 < n1 < MAX_FILE_BLOCKS && i < NR_INDIRECT_BLOCKS
    requires Progress(z, dev, d, own, n0, n1 + 1) && Leaked(z, dev, d, leak, n0, n1) && LeakyAt(z.dev, z.d, n0, n1)
    ensures Entry(leak, i) == 0 <==> Ptr(z.dev, z.d, Sec(i)) == 0 && !MeetsGroup(n0, n1, i)
  {
    var g := GroupOf(n1);
    TablePtrs(dev, d);
    hide Entry, Owns, Populated, WithEntry, DataRole, Ptr, MeetsGroup;
    StoreEntry(dev[d.dindirect], g, 0);
    if i != g {
      OtherGroup(n0, n1, i);
      assert Entry(leak, i) == Ptr(dev, d, Sec(i));
    }
  }

  /** One more block meets one more group at most, its own. */
  lemma OtherGroup(n0: nat, n1: nat, i: nat)
    requires n0 <= n1 && FIRST_DOUBLE <= n1 < MAX_FILE_BLOCKS && i != GroupOf(n1)
    ensures MeetsGroup(n0, n1 + 1, i) <==> MeetsGroup(n0, n1, i)
  {
    var g := GroupOf(n1);
    GroupOrder(if i < g then i + 1 else g + 1, if i < g then g else i);
    assert GroupStart(i) < GroupStart(i + 1);
  }

  /** Whether leak is harmless can be told before the write, up to the entry that the window ends in:
      past it there must be no second-level table, and none that the write itself adds. */
  lemma LeakTail(z: Snap, dev: seq<Block>, d: DInode, own: map<int, Role>, leak: Block, n0: nat, n1: nat, w: nat)
    requires |z.d.direct| == |d.direct| == NR_DIRECT_BLOCKS && n0 < n1 < MAX_FILE_BLOCKS && w <= BLOCK_SIZE
    requires Progress(z, dev, d, own, n0, n1 + 1) && Leaked(z, dev, d, leak, n0, n1) && LeakyAt(z.dev, z.d, n0, n1)
    ensures (forall j: nat | w <= j < BLOCK_SIZE :: leak[j] == 0) <==>
            && (forall j: nat | w <= j < BLOCK_SIZE && j / 4 == w / 4 :: leak[j] == 0)
            && (forall i: nat | w / 4 < i < NR_INDIRECT_BLOCKS ::
                  Ptr(z.dev, z.d, Sec(i)) == 0 && !MeetsGroup(n0, n1, i))
  {
    hide Entry, Ptr, MeetsGroup, Progress, LeakyAt, Leaked;
    forall i: nat | i < NR_INDIRECT_BLOCKS
      ensures Entry(leak, i) == 0 <==> Ptr(z.dev, z.d, Sec(i)) == 0 && !MeetsGroup(n0, n1, i)
    {
      LeakEntry(z, dev, d, own, leak, n0, n1, i);
    }
    ZeroTailIff(leak, w);
  }

  /** A successful write of at least one byte, harmless or not, keeps the map tight. */
  lemma WriteTight(z: Snap, dev: seq<Block>, d: DInode, own: map<int, Role>, start: nat, buf: seq<byte>, leak: Block)
    requires |z.d.direct| == |d.direct| == NR_DIRECT_BLOCKS && |buf| > 0
    requires Progress(z, dev, d, own, start / BLOCK_SIZE, LastBlock(start, |buf|) + 1)
    requires 0 <= z.d.size <= MAX_FILE_SIZE && d.size == Max(z.d.size, start + |buf|) <= MAX_FILE_SIZE
    requires Tight(z.dev, z.d)
    ensures Tight(dev, d)
  {
    hide Ptr, Owns, Populated, DataRole;
    BlocksTouched(start, |buf|);
    forall m: nat | m < MAX_FILE_BLOCKS && Ptr(dev, d, DataRole(m)) != 0 ensures m < DivRoundUp(d.size, BLOCK_SIZE) {
    }
  }

  /** A tight file can be removed. */
  lemma TightRemovable(dev: seq<Block>, d: DInode, own: map<int, Role>)
    requires Owns(dev, d, own) && |d.direct| == NR_DIRECT_BLOCKS && 0 <= d.size <= MAX_FILE_SIZE && Tight(dev, d)
    ensures Removable(dev, d)
  {
    FileSize();
    if DivRoundUp(d.size, BLOCK_SIZE) > FIRST_DOUBLE {
      Lookup(dev, d, own, (d.size - 1) / BLOCK_SIZE);
      hide Owns, Covers, Ptr, DataRole;
    }
  }

  // ---------- when a file can still be removed ----------

  /** A successful write of at least one byte keeps a file removable. */
  lemma WriteRemovable(z: Snap, dev: seq<Block>, d: DInode, own: map<int, Role>, start: nat, buf: seq<byte>)
    requires |z.d.direct| == |d.direct| == NR_DIRECT_BLOCKS && |buf| > 0
    requires Progress(z, dev, d, own, start / BLOCK_SIZE, LastBlock(start, |buf|) + 1)
    requires 0 <= z.d.size <= MAX_FILE_SIZE && d.size == Max(z.d.size, start + |buf|) <= MAX_FILE_SIZE
    requires Removable(z.dev, z.d)
    ensures Removable(dev, d)
  {
    hide Ptr, Owns, Populated, DataRole;
    BlocksTouched(start, |buf|);
    forall m: nat | m < MAX_FILE_BLOCKS && Ptr(dev, d, DataRole(m)) != 0 ensures m < DivRoundUp(d.size, BLOCK_SIZE) {
    }
  }

  /** Writing nothing still maps a block; the file stays removable exactly when it already reached the block. */
  lemma EmptyWriteRemovable(z: Snap, dev: seq<Block>, d: DInode, own: map<int, Role>, n0: nat)
    requires |z.d.direct| == |d.direct| == NR_DIRECT_BLOCKS && n0 < MAX_FILE_BLOCKS
    requires Progress(z, dev, d, own, n0, n0 + 1)
    requires 0 <= z.d.size == d.size && Removable(z.dev, z.d)
    ensures Removable(dev, d) <==> n0 < DivRoundUp(d.size, BLOCK_SIZE)
  {
    ShortWriteRemovable(z, dev, d, own, n0, n0 + 1);
  }

  /** A write that stops at block m before its last block leaves i_size alone; the file stays removable
      exactly when it already reached block m. */
  lemma ShortWriteRemovable(z: Snap, dev: seq<Block>, d: DInode, own: map<int, Role>, n0: nat, m: nat)
    requires |z.d.direct| == |d.direct| == NR_DIRECT_BLOCKS && n0 < m <= MAX_FILE_BLOCKS
    requires Progress(z, dev, d, own, n0, m)
    requires 0 <= z.d.size == d.size && Removable(z.dev, z.d)
    ensures Removable(dev, d) <==> m <= DivRoundUp(d.size, BLOCK_SIZE)
  {
    hide Ptr, Owns, Populated, DataRole;
    var e := DivRoundUp(d.size, BLOCK_SIZE);
    assert Ptr(dev, d, DataRole(m - 1)) != 0;
    if m <= e {
      forall b: nat | b < MAX_FILE_BLOCKS && Ptr(dev, d, DataRole(b)) != 0 ensures b < e {
      }
    }
  }

  /** A write that stops at its last block m sets i_size to the maximum; whatever the file was, it can be
      removed afterwards exactly when it had a double-indirect table or the write has made one. */
  lemma MaxSizeRemovable(z: Snap, dev: seq<Block>, d: DInode, own: map<int, Role>, n0: nat, m: nat)
    requires |z.d.direct| == |d.direct| == NR_DIRECT_BLOCKS && n0 < m <= MAX_FILE_BLOCKS
    requires Progress(z, dev, d, own, n0, m)
    requires d.size == MAX_FILE_SIZE
    ensures Removable(dev, d) <==> z.d.dindirect != 0 || m > FIRST_DOUBLE
  {
    hide Ptr, Owns, Populated, DataRole;
    FileSize();
    assert DivRoundUp(d.size, BLOCK_SIZE) == MAX_FILE_BLOCKS;
    assert Covers(dev, d, MAX_FILE_BLOCKS);
  }

  /** A file that could be removed before a write of blocks n0 to n1 that stops at block m still can be. */
  predicate RemovableAfter(d: DInode, n0: nat, n1: nat, m: nat) {
    if m == n0 then true
    else if m == n1 then d.dindirect != 0 || m > FIRST_DOUBLE
    else m <= DivRoundUp(d.size, BLOCK_SIZE)
  }

  /** What a write that succeeds does to the bytes of a file, and to the chance of removing it. */
  ghost predicate WriteOutcome(z: Snap, dev: seq<Block>, d: DInode, start: nat, buf: seq<byte>, leak: Block)
    requires |z.d.direct| == |d.direct| == NR_DIRECT_BLOCKS
  {
    var n0, n1 := start / BLOCK_SIZE, LastBlock(start, |buf|);
    && n0 <= n1 < MAX_FILE_BLOCKS && Leaked(z, dev, d, leak, n0, n1)
    && 0 <= z.d.size && d.size == (if |buf| > 0 then Max(z.d.size, start + |buf|) else z.d.size)
    && (FileOf(dev, d) == Spliced(FileOf(z.dev, z.d), start, buf) <==>
          NothingShows(z.dev, z.d, start, |buf|, d.size, leak))
    && (ZeroTail(z.dev, z.d) ==>
          (FileOf(dev, d) == Spliced(FileOf(z.dev, z.d), start, buf) && ZeroTail(dev, d) <==>
           Harmless(z.dev, z.d, start, |buf|, leak)))
    && (Removable(z.dev, z.d) ==>
          (Removable(dev, d) <==> |buf| > 0 || n0 < DivRoundUp(d.size, BLOCK_SIZE)))
  }

  lemma AfterWrite(z: Snap, w: Snap, start: nat, buf: seq<byte>, leak: Block)
    requires |z.d.direct| == |w.d.direct| == NR_DIRECT_BLOCKS
    requires 0 <= z.d.size <= MAX_FILE_SIZE && w.d.size <= MAX_FILE_SIZE
    requires w.d.size == if |buf| > 0 then Max(z.d.size, start + |buf|) else z.d.size
    requires LastBlock(start, |buf|) < MAX_FILE_BLOCKS
    requires Wrote(z, w.dev, w.d, w.own, start, buf, start + |buf|, leak, start / BLOCK_SIZE,
                   LastBlock(start, |buf|) + 1)
    requires Leaked(z, w.dev, w.d, leak, start / BLOCK_SIZE, LastBlock(start, |buf|))
    ensures WriteOutcome(z, w.dev, w.d, start, buf, leak)
  {
    BlocksTouched(start, |buf|);
    hide Progress, FileOf, Spliced, Harmless, NothingShows, ZeroTail, Removable, Leaked;
    WriteShows(z, w.dev, w.d, w.own, start, buf, leak);
    if ZeroTail(z.dev, z.d) {
      WriteRefines(z, w.dev, w.d, w.own, start, buf, leak);
    }
    if Removable(z.dev, z.d) {
      if |buf| > 0 {
        WriteRemovable(z, w.dev, w.d, w.own, start, buf);
      } else {
        EmptyWriteRemovable(z, w.dev, w.d, w.own, start / BLOCK_SIZE);
      }
    }
  }

  /** What a write of blocks up to n1 that stops at block m after its first has done: the blocks before m are
      written, and i_size is as before, or the maximum when m is the last block. */
  ghost predicate StoppedAt(z: Snap, w: Snap, start: nat, buf: seq<byte>, leak: Block, n1: nat, m: nat)
    requires |z.d.direct| == NR_DIRECT_BLOCKS
  {
    && |w.d.direct| == NR_DIRECT_BLOCKS && start / BLOCK_SIZE < m
    && Wrote(z, w.dev, w.d, w.own, start, buf, m * BLOCK_SIZE, leak, start / BLOCK_SIZE, m)
    && w.d.size == (if m == n1 then MAX_FILE_SIZE else z.d.size)
    && (Removable(z.dev, z.d) ==> (Removable(w.dev, w.d) <==> RemovableAfter(z.d, start / BLOCK_SIZE, n1, m)))
  }

  lemma AfterShort(z: Snap, w: Snap, start: nat, buf: seq<byte>, leak: Block, n1: nat, m: nat)
    requires |z.d.direct| == |w.d.direct| == NR_DIRECT_BLOCKS && start / BLOCK_SIZE < m <= n1
    requires Wrote(z, w.dev, w.d, w.own, start, buf, m * BLOCK_SIZE, leak, start / BLOCK_SIZE, m)
    requires 0 <= z.d.size && w.d.size == if m == n1 then MAX_FILE_SIZE else z.d.size
    ensures StoppedAt(z, w, start, buf, leak, n1, m)
  {
    ProgressFacts(z, w.dev, w.d, w.own, start / BLOCK_SIZE, m);
    hide Progress, Removable;
    if m == n1 {
      MaxSizeRemovable(z, w.dev, w.d, w.own, start / BLOCK_SIZE, m);
    } else if Removable(z.dev, z.d) {
      ShortWriteRemovable(z, w.dev, w.d, w.own, start / BLOCK_SIZE, m);
    }
  }

  /** A write of n bytes at start cannot map its first block. */
  ghost predicate Unstarted(z: Snap, start: nat, n: nat)
    requires |z.d.direct| == NR_DIRECT_BLOCKS
  {
    var n0 := start / BLOCK_SIZE;
    Reach(z.dev, z.d, z.free, n0, n0, LastBlock(start, n)).0 == n0
  }

  /** How a write of buf at start ends, from z in w: where it stops, what it returns, what it has done to the
      file, and whether the inode is well formed. */
  ghost predicate WriteEnds(z: Snap, w: Snap, wellFormed: bool, start: nat, buf: seq<byte>, ret: int, leak: Block)
    requires |z.d.direct| == NR_DIRECT_BLOCKS
  {
    var n0, n1 := start / BLOCK_SIZE, LastBlock(start, |buf|);
    var (m, left) := Reach(z.dev, z.d, z.free, n0, n0, n1);
    && w.free == left && (ret == if m > n1 then |buf| else if m >= MAX_FILE_BLOCKS then -EFBIG else -ENOSPC)
    && (wellFormed <==> m > n1 || !StrandsAt(z.dev, z.d, left, n0, m))
    && (wellFormed ==> |w.d.direct| == NR_DIRECT_BLOCKS)
    && (m > n1 ==>
          && Wrote(z, w.dev, w.d, w.own, start, buf, start + |buf|, leak, n0, n1 + 1)
          && WriteOutcome(z, w.dev, w.d, start, buf, leak))
    && (m <= n1 ==> w.d.size == if n0 < m == n1 then MAX_FILE_SIZE else z.d.size)
    && (n0 < m <= n1 && wellFormed ==> StoppedAt(z, w, start, buf, leak, n1, m))
  }

  /** What Inode.WriteData promises is enough for that. */
  lemma WriteEnded(z: Snap, w: Snap, wellFormed: bool, start: nat, buf: seq<byte>, ret: int, leak: Block)
    requires |z.d.direct| == NR_DIRECT_BLOCKS && 0 <= z.d.size <= MAX_FILE_SIZE
    requires wellFormed ==> |w.d.direct| == NR_DIRECT_BLOCKS && 0 <= w.d.size <= MAX_FILE_SIZE
    requires var n0, n1 := start / BLOCK_SIZE, LastBlock(start, |buf|);
      var (m, left) := Reach(z.dev, z.d, z.free, n0, n0, n1);
      && w.free == left
      && (m > n1 ==>
            && ret == |buf| && wellFormed
            && Wrote(z, w.dev, w.d, w.own, start, buf, start + |buf|, leak, n0, n1 + 1)
            && n1 < MAX_FILE_BLOCKS && Leaked(z, w.dev, w.d, leak, n0, n1)
            && w.d.size == if |buf| > 0 then Max(z.d.size, start + |buf|) else z.d.size)
      && (m <= n1 ==>
            && ret == (if m >= MAX_FILE_BLOCKS then -EFBIG else -ENOSPC)
            && w.d.size == (if n0 < n1 == m then MAX_FILE_SIZE else z.d.size)
            && (wellFormed <==> !StrandsAt(z.dev, z.d, left, n0, m))
            && (m > n0 && wellFormed ==>
                  Wrote(z, w.dev, w.d, w.own, start, buf, m * BLOCK_SIZE, leak, n0, m)))
    ensures WriteEnds(z, w, wellFormed, start, buf, ret, leak)
  {
    hide Wrote, Leaked, Reach, WriteOutcome, StoppedAt, StrandsAt;
    var n0, n1 := start / BLOCK_SIZE, LastBlock(start, |buf|);
    var m := Reach(z.dev, z.d, z.free, n0, n0, n1).0;
    if m > n1 {
      AfterWrite(z, w, start, buf, leak);
    } else if n0 < m && wellFormed {
      AfterShort(z, w, start, buf, leak, n1, m);
    }
  }

  // ---------- leaky holes ----------

  lemma GroupOneHole(dev: seq<Block>, d: DInode)
    requires |d.direct| == NR_DIRECT_BLOCKS && d.dindirect != 0 && Ptr(dev, d, Sec(1)) == 0
    ensures GroupStart(1) < MAX_FILE_BLOCKS && Leaky(dev, d, GroupStart(1))
    ensures Ptr(dev, d, DataRole(GroupStart(1))) == 0
  {
    assert DataRole(GroupStart(1)) == Leaf(1, 0);
    hide Entry;
  }

  lemma NonzeroByte(b: Block) returns (j: nat)
    requires Entry(b, 0) != 0
    ensures j < 4 && b[j] != 0
  {
    ZeroEntryIff(b, 0);
    hide Entry;
    j :| j < BLOCK_SIZE && j / 4 == 0 && b[j] != 0;
  }

  lemma BesideWindow(z: Snap, dev: seq<Block>, d: DInode, own: map<int, Role>, start: nat, b: byte, leak: Block, k: nat)
    requires |z.d.direct| == |d.direct| == NR_DIRECT_BLOCKS && k / BLOCK_SIZE == start / BLOCK_SIZE < MAX_FILE_BLOCKS
    requires k != start
    requires Wrote(z, dev, d, own, start, [b], start + 1, leak, start / BLOCK_SIZE, start / BLOCK_SIZE + 1)
    ensures ByteAt(dev, d, k) == FetchedAt(z.dev, z.d, k)
  {
    hide Progress, ByteAt, FetchedAt, LeakyAt;
  }

  lemma LeakyFetched(dev: seq<Block>, d: DInode, n: nat, j: nat)
    requires |d.direct| == NR_DIRECT_BLOCKS && n < MAX_FILE_BLOCKS && Leaky(dev, d, n) && 0 < d.dindirect < |dev|
    requires j < BLOCK_SIZE
    ensures FetchedAt(dev, d, n * BLOCK_SIZE + j) == dev[d.dindirect][j]
  {
    hide Leaky, Contents;
    var k := n * BLOCK_SIZE + j;
    assert k / BLOCK_SIZE == n && k % BLOCK_SIZE == j;
  }

  /** A leaky hole written in part: with a table for group 0 and none for group 1, one byte written into
      the first block of group 1 makes one of the first four bytes of that block, which no one ever wrote,
      read as a byte of the double-indirect table. */
  lemma LeakedByte(z: Snap, dev: seq<Block>, d: DInode, own: map<int, Role>, b: byte, leak: Block) returns (k: nat)
    requires |z.d.direct| == |d.direct| == NR_DIRECT_BLOCKS && 0 < z.d.dindirect < |z.dev|
    requires Ptr(z.dev, z.d, Sec(0)) != 0 && Ptr(z.dev, z.d, Sec(1)) == 0
    requires var n0 := GroupStart(1); var start := n0 * BLOCK_SIZE + 100;
      Wrote(z, dev, d, own, start, [b], start + 1, leak, n0, n0 + 1)
    ensures GroupStart(1) * BLOCK_SIZE <= k < GroupStart(1) * BLOCK_SIZE + 4 && ByteAt(dev, d, k) != 0
  {
    hide Wrote, Entry, Ptr, Leaky, FetchedAt, ByteAt;
    var n0 := GroupStart(1);
    var table := z.dev[z.d.dindirect];
    TablePtrs(z.dev, z.d);
    GroupOneHole(z.dev, z.d);
    assert Entry(table, 0) == Ptr(z.dev, z.d, Sec(0));
    var j := NonzeroByte(table);
    k := n0 * BLOCK_SIZE + j;
    LeakyFetched(z.dev, z.d, n0, j);
    BesideWindow(z, dev, d, own, n0 * BLOCK_SIZE + 100, b, leak, k);
  }
}
