/** The directories of a file system (fs/dir.c): each is a file without holes whose bytes are a log of records. */
module Catalogs {
  import opened Common
  import Bitmaps
  import opened SuperBlocks
  import opened BlockMap
  import opened FileData
  import opened Release
  import opened ReadWrite
  import opened FileSpec
  import opened FileSystems
  import opened DenseFiles
  import opened Directories

  const I_FILE := 1
  const I_DIR := 2

  datatype Dirent = None | Some(nr: int, name: Name)

  /** The inode is a directory with these records. */
  ghost predicate IsDir(dev: seq<Block>, d: DInode, log: seq<Record>) {
    && |d.direct| == NR_DIRECT_BLOCKS && 0 <= d.size <= MAX_FILE_SIZE
    && ValidLog(log) && FileOf(dev, d) == Bytes(log) && Dense(dev, d)
  }

  lemma OneRecord(r: Record)
    ensures |Bytes([r])| == HEADER + |r.name| + 1
  {
    assert [r][..0] == [] && Bytes([]) == [];
  }

  lemma EmptyDirFile(dev: seq<Block>, itype: int)
    ensures IsDir(dev, EmptyInode(itype), []) && EmptyInode(itype).itype == itype
  {
    EmptySound(dev, itype);
  }

  lemma IsDirSame(dev: seq<Block>, dev': seq<Block>, d: DInode, log: seq<Record>)
    requires IsDir(dev, d, log) && SameFile(dev, dev', d)
    ensures IsDir(dev', d, log)
  {
    DenseSame(dev, dev', d);
  }

  /** The log with a record written at place i. */
  function Written(log: seq<Record>, i: nat, r: Record): seq<Record>
    requires i <= |log|
  {
    if i < |log| then log[i := r] else log + [r]
  }

  /** How writing record r at place i of a log ends, from z in w: with after for the log, valid unless the
      directory is broken. */
  ghost predicate RecordEnds(z: Snap, w: Snap, log: seq<Record>, after: seq<Record>, i: nat, r: Record, ret: int,
                             valid: bool)
    requires |z.d.direct| == NR_DIRECT_BLOCKS && z.d.size >= 0 && i <= |log|
  {
    var n := |Encoded(r)|;
    && w.free == (if i < |log| then z.free else Stop(z, n).1)
    && if i < |log| || Fits(z, n) then
         && valid && ret == n && after == Written(log, i, r)
         && (Removable(z.dev, z.d) ==> |w.d.direct| == NR_DIRECT_BLOCKS && Removable(w.dev, w.d))
       else
         && ret == AppendError(z, n) && after == log && (valid <==> !Breaks(z, n) && !Dangles(z, n))
         && (Breaks(z, n) && !Dangles(z, n) ==>
               |w.d.direct| == NR_DIRECT_BLOCKS && w.d.size >= 0 && Broken(z, w, Encoded(r)))
  }

  /** A record written over one as long always gets written. One written at the end gets written exactly when
      there is room for it; when there is not, the directory is still its log exactly unless the write breaks. */
  lemma RecordWritten(z: Snap, w: Snap, wellFormed: bool, log: seq<Record>, i: nat, r: Record, ret: int, leak: Block)
    requires IsDir(z.dev, z.d, log) && z.free >= 0 && i <= |log| && ValidRecord(r)
    requires i < |log| ==> |r.name| == |log[i].name|
    requires WriteEnds(z, w, wellFormed, Offset(log, i), Encoded(r), ret, leak)
    requires ret < 0 && wellFormed && Unstarted(z, Offset(log, i), |Encoded(r)|) ==>
               w.d == z.d && SameFile(z.dev, w.dev, z.d)
    ensures var after := if ret >= 0 then Written(log, i, r) else log;
      RecordEnds(z, w, log, after, i, r, ret, wellFormed && IsDir(w.dev, w.d, after)) && (i < |log| ==> ret >= 0)
  {
    hide Encoded, Bytes, Offset, Spliced, FileOf, Dense, Removable, WriteEnds, Unstarted, SameFile, Fits, Breaks,
         Dangles, Broken, Stop;
    var e := Encoded(r);
    OffsetEnd(log);
    assert |FileOf(z.dev, z.d)| == z.d.size;
    if i < |log| {
      RecordAt(log, i);
      Overwrite(log, i, r);
      OverwriteEnds(z, w, wellFormed, Offset(log, i), e, ret, leak);
    } else {
      AppendIff(z, w, wellFormed, e, ret, leak);
      AtEnd(log, r);
      WrittenAtEnd(log, r);
    }
  }

  lemma RemovableKept(dev: seq<Block>, dev': seq<Block>, d: DInode)
    requires SameFile(dev, dev', d)
    ensures Removable(dev, d) <==> Removable(dev', d)
  {
  }

  /** After an append that breaks two bytes into a record, the next scan of the directory reads a record with the
      length of the new one and number 0, which is live, and then one of length 0, for which the assert of
      fs/dir.c:31 fails. */
  lemma BrokenScan(z: Snap, w: Snap, r: Record)
    requires |z.d.direct| == |w.d.direct| == NR_DIRECT_BLOCKS && z.d.size >= 0 && w.d.size >= 0
    requires z.d.size % BLOCK_SIZE == BLOCK_SIZE - 2 && |r.name| < 100 && Broken(z, w, Encoded(r))
    requires (z.d.size / BLOCK_SIZE + 1) * BLOCK_SIZE < MAX_FILE_SIZE
    ensures var f, o := FileOf(w.dev, w.d), z.d.size;
      && o + 2 * HEADER + |r.name| + 1 <= |f|
      && Value(f[o..o + 4]) == |r.name| + 1 && Value(f[o + 4..o + HEADER]) == 0
      && Value(f[o + HEADER + |r.name| + 1..o + HEADER + |r.name| + 5]) == 0
  {
    hide FileOf, Encoded, Value;
    var f, o, e, end := FileOf(w.dev, w.d), z.d.size, Encoded(r), (z.d.size / BLOCK_SIZE + 1) * BLOCK_SIZE;
    BrokenBytes(z, w, e);
    ShortLength(r);
    ShortValue(f[o..o + 4], |r.name| + 1);
    ShortValue(f[o + 4..o + HEADER], 0);
    ShortValue(f[o + HEADER + |r.name| + 1..o + HEADER + |r.name| + 5], 0);
  }

  lemma BrokenBytes(z: Snap, w: Snap, e: seq<byte>)
    requires |z.d.direct| == |w.d.direct| == NR_DIRECT_BLOCKS && z.d.size >= 0 && w.d.size >= 0
    requires z.d.size % BLOCK_SIZE == BLOCK_SIZE - 2 && 2 < |e| <= BLOCK_SIZE && Broken(z, w, e)
    requires (z.d.size / BLOCK_SIZE + 1) * BLOCK_SIZE < MAX_FILE_SIZE
    ensures var f, o := FileOf(w.dev, w.d), z.d.size;
      && o + 2 + BLOCK_SIZE <= |f| && f[o] == e[0] && f[o + 1] == e[1]
      && forall k | o + 2 <= k < o + 2 + BLOCK_SIZE :: f[k] == 0
  {
    hide FileOf;
    var f, g, o := FileOf(w.dev, w.d), FileOf(z.dev, z.d), z.d.size;
    assert LastBlock(o, |e|) * BLOCK_SIZE == o + 2 && |g| == o;
    assert f[..o + 2][o] == (g + e[..2])[o] && f[..o + 2][o + 1] == (g + e[..2])[o + 1];
    forall k | o + 2 <= k < o + 2 + BLOCK_SIZE ensures f[k] == 0 {
      assert f[k] == f[o + 2..o + 2 + BLOCK_SIZE][k - o - 2];
    }
  }

  lemma ShortValue(s: seq<byte>, v: nat)
    requires |s| == 4 && s[0] as int == v && s[1] == s[2] == s[3] == 0
    ensures Value(s) == v
  {
  }

  lemma ShortBytes(v: nat)
    requires v < 128
    ensures Pack(v)[0] as int == v && Pack(v)[1] == 0
  {
    SmallByte(v);
    assert v % 256 == v && v / 256 == 0;
    assert Byte(0) == 0;
  }

  lemma ShortLength(r: Record)
    requires |r.name| < 100
    ensures Encoded(r)[0] as int == |r.name| + 1 && Encoded(r)[1] == 0
  {
    hide Encoded, Pack;
    Parts(r);
    ShortBytes(|r.name| + 1);
    var e, p := Encoded(r), Pack(|r.name| + 1);
    assert e[0..4] == p && e[0..4][0] == e[0] && e[0..4][1] == e[1];
  }

  /** Whether an entry can be added to a directory: 0, or the error. */
  function EntryError(z: Snap, log: seq<Record>, name: Name): int
    requires |z.d.direct| == NR_DIRECT_BLOCKS && z.d.size >= 0
  {
    if StopFrom(log, name, 0) < |log| then 0 else AppendError(z, HEADER + |name| + 1)
  }

  /** The free blocks after an entry is added, or as much of it as there is room for. */
  function EntryFree(z: Snap, log: seq<Record>, name: Name): int
    requires |z.d.direct| == NR_DIRECT_BLOCKS && z.d.size >= 0
  {
    if StopFrom(log, name, 0) < |log| then z.free else Stop(z, HEADER + |name| + 1).1
  }

  /** Adding an entry breaks the directory, or leaves its inode with a pointer to a free block. */
  predicate EntryHarms(z: Snap, log: seq<Record>, name: Name)
    requires |z.d.direct| == NR_DIRECT_BLOCKS && z.d.size >= 0
  {
    var n := HEADER + |name| + 1;
    StopFrom(log, name, 0) == |log| && (Breaks(z, n) || Dangles(z, n))
  }

  /** When a name is not there testfs_add_dirent adds it, if it can. */
  lemma EntryEnds(z: Snap, y: Snap, w: Snap, log: seq<Record>, after: seq<Record>, name: Name, nr: nat, ret: int,
                  valid: bool)
    requires |z.d.direct| == NR_DIRECT_BLOCKS && z.d.size >= 0 && y.d == z.d && SameFile(z.dev, y.dev, z.d)
    requires NumberOf(log, name) < 0
    requires RecordEnds(y, w, log, after, StopFrom(log, name, 0), Record(nr, name), ret, valid)
    ensures var zf := z.(free := y.free);
      && (ret < 0 <==> EntryError(zf, log, name) < 0) && (ret < 0 ==> ret == EntryError(zf, log, name))
      && after == (if ret < 0 then log else Added(log, name, nr).0) && (valid <==> !EntryHarms(zf, log, name))
      && w.free == EntryFree(zf, log, name)
    ensures !(StopFrom(log, name, 0) < |log| && Live(log[StopFrom(log, name, 0)]))
    ensures ret >= 0 && Removable(y.dev, y.d) ==> |w.d.direct| == NR_DIRECT_BLOCKS && Removable(w.dev, w.d)
  {
    hide StopFrom, FindFrom, NumberOf, Live, Added, Stop, Removable, FileOf, ZeroTail, Broken, SameMap, Written,
         LastBlock, StrandsAt;
    NotThere(log, name, nr);
    StopSame(z.(free := y.free), y, HEADER + |name| + 1);
  }

  lemma NotThere(log: seq<Record>, name: Name, nr: int)
    requires NumberOf(log, name) < 0
    ensures var i := StopFrom(log, name, 0);
      && i <= |log| && !(i < |log| && Live(log[i])) && Added(log, name, nr).0 == Written(log, i, Record(nr, name))
  {
  }

  /** The directory when its own entry is added: a new directory has taken a block by then. */
  function Before(z: Snap, isDir: bool): Snap {
    z.(free := if isDir then z.free - 1 else z.free)
  }

  function CreateError(z: Snap, log: seq<Record>, name: Name, isDir: bool): int
    requires |z.d.direct| == NR_DIRECT_BLOCKS && z.d.size >= 0
  {
    if isDir && z.free < 1 then -ENOSPC else EntryError(Before(z, isDir), log, name)
  }

  predicate CreateHarms(z: Snap, log: seq<Record>, name: Name, isDir: bool)
    requires |z.d.direct| == NR_DIRECT_BLOCKS && z.d.size >= 0
  {
    !(isDir && z.free < 1) && EntryHarms(Before(z, isDir), log, name)
  }

  /** The first entry of a new directory needs a block. */
  lemma DotAdded(z: Snap, w: Snap, after: seq<Record>, nr: nat, ret: int, valid: bool)
    requires z.d == EmptyInode(I_DIR) && z.free >= 0
    requires |z.d.direct| == NR_DIRECT_BLOCKS && z.d.size >= 0
    requires RecordEnds(z, w, [], after, StopFrom([], DOT, 0), Record(nr, DOT), ret, valid)
    ensures valid && (ret < 0 <==> z.free < 1)
    ensures ret < 0 ==> ret == -ENOSPC && after == [] && Unstarted(z, z.d.size, HEADER + 2)
    ensures ret >= 0 ==> after == [Record(nr, DOT)] && w.free == z.free - 1
    ensures ret >= 0 ==> |w.d.direct| == NR_DIRECT_BLOCKS && Removable(w.dev, w.d)
  {
    EmptySound(z.dev, I_DIR);
    hide Stop, Fits, Breaks, Dangles, Removable, Broken, Unstarted;
    FirstAppend(z, I_DIR, HEADER + 2);
    assert [] + [Record(nr, DOT)] == [Record(nr, DOT)];
  }

  /** The second one has room behind it. */
  lemma DotDotAdded(z: Snap, w: Snap, after: seq<Record>, nr: nat, up: nat, ret: int, valid: bool)
    requires IsDir(z.dev, z.d, [Record(nr, DOT)]) && z.free >= 0
    requires RecordEnds(z, w, [Record(nr, DOT)], after, StopFrom([Record(nr, DOT)], DOT_DOT, 0), Record(up, DOT_DOT),
                        ret, valid)
    ensures valid && ret >= 0 && after == [Record(nr, DOT), Record(up, DOT_DOT)] && w.free == z.free
    ensures Removable(z.dev, z.d) ==> |w.d.direct| == NR_DIRECT_BLOCKS && Removable(w.dev, w.d)
  {
    OneRecord(Record(nr, DOT));
    assert |FileOf(z.dev, z.d)| == z.d.size;
    NextAppend(z, HEADER + 3);
    assert StopFrom([Record(nr, DOT)], DOT_DOT, 0) == 1;
    hide Stop, Fits, Breaks, Dangles, Removable, Broken, Bytes, FileOf;
  }

  /** No block is taken or given back, and what could be removed still can be. */
  ghost predicate Lasting(z: Snap, w: Snap)
    requires |z.d.direct| == NR_DIRECT_BLOCKS
  {
    w.free == z.free && (Removable(z.dev, z.d) ==> |w.d.direct| == NR_DIRECT_BLOCKS && Removable(w.dev, w.d))
  }

  lemma WrittenAtEnd(log: seq<Record>, r: Record)
    ensures Bytes(log + [r]) == Bytes(log) + Encoded(r)
  {
    hide Encoded;
    assert (log + [r])[..|log|] == log;
  }

  class Catalog {
    const fs: FileSystem
    ghost var logs: map<int, seq<Record>>

    constructor (fs: FileSystem)
      requires fs.Valid() && fs.inodes == map[]
      ensures Valid() && this.fs == fs && logs == map[]
    {
      this.fs := fs;
      logs := map[];
    }

    ghost predicate Valid()
      reads this, fs, fs.inodes.Values, fs.sb.Repr()
    {
      ValidBut({})
    }

    /** Every directory is its log, but for the broken ones. */
    ghost predicate ValidBut(broken: set<nat>)
      reads this, fs, fs.inodes.Values, fs.sb.Repr()
    {
      && fs.ValidBut(broken)
      && (forall n | n in logs :: n in fs.inodes)
      && (forall n | n in fs.inodes :: fs.inodes[n].d.itype == I_DIR <==> n in logs)
      && forall n | n in logs && n !in broken :: IsDir(fs.sb.dev.blocks[..], fs.inodes[n].d, logs[n])
    }

    /** The inode of a directory, and the device and the allocator. */
    ghost function At(dir: nat): (z: Snap)
      requires Valid() && dir in logs
      reads this, fs, fs.inodes.Values, fs.sb.Repr()
      ensures |z.d.direct| == NR_DIRECT_BLOCKS && 0 <= z.d.size <= MAX_FILE_SIZE
    {
      assert fs.inodes[dir].Valid();
      fs.inodes[dir].Now()
    }

    /** The n bytes of a directory at offset, by testfs_read_data. */
    method ReadBytes(dir: nat, offset: nat, n: nat) returns (s: seq<byte>)
      requires Valid() && dir in logs && 0 < n <= INT_MAX && offset + n <= |Bytes(logs[dir])|
      ensures Valid() && s == Bytes(logs[dir])[offset..offset + n]
    {
      hide Owns, Populated, SuperBlock.Valid, SuperBlock.Used, Bitmaps.Bitmap.Valid, Bitmaps.Bitmap.Bits, Partition,
           FileOf, Dense, Bytes, ValidLog, FetchedAt, LeaksZeros, Inode.Valid;
      var ino := fs.inodes[dir];
      assert allocated(fs.sb.Repr());
      var buf := new byte[n];
      assert ino.Valid();
      assert IsDir(fs.sb.dev.blocks[..], ino.d, logs[dir]);
      assert |FileOf(fs.sb.dev.blocks[..], ino.d)| == ino.d.size;
      var ret := ino.ReadData(buf, offset, n);
      s := buf[..];
      DenseReads(fs.sb.dev.blocks[..], ino.d, offset, n);
      ReadBack(fs.sb.dev.blocks[..], ino.d, offset, s);
    }

    /** testfs_next_dirent. From the start of a record it reads that record and moves to the next; at the
        end of the file there is none. */
    method NextDirent(dir: nat, offset: nat, ghost i: nat) returns (d: Dirent, next: nat)
      requires Valid() && dir in logs && i <= |logs[dir]| && offset == Offset(logs[dir], i)
      ensures Valid()
      ensures i == |logs[dir]| ==> d == None && next == offset == |Bytes(logs[dir])|
      ensures i < |logs[dir]| ==>
                && d == Some(logs[dir][i].nr, logs[dir][i].name) && next == Offset(logs[dir], i + 1)
                && offset < |Bytes(logs[dir])|
    {
      hide Encoded, Value, Bytes, Offset, FileSystem.ValidBut;
      OffsetEnd(logs[dir]);
      assert IsDir(fs.sb.dev.blocks[..], fs.inodes[dir].d, logs[dir]);
      assert |FileOf(fs.sb.dev.blocks[..], fs.inodes[dir].d)| == fs.inodes[dir].d.size;
      if i < |logs[dir]| {
        RecordAt(logs[dir], i);
        OffsetStep(logs[dir], i);
        Decoded(Bytes(logs[dir]), offset, logs[dir][i]);
      }
      if offset >= fs.inodes[dir].d.size {
        return None, offset;
      }
      ghost var data := Bytes(logs[dir]);
      var head := ReadBytes(dir, offset, HEADER);
      assert head[..4] == data[offset..offset + 4] && head[4..HEADER] == data[offset + 4..offset + HEADER];
      var len, nr := Value(head[..4]), Value(head[4..HEADER]);
      next := offset + HEADER;
      var name := ReadBytes(dir, next, len);
      assert name[..len - 1] == data[next..next + len - 1];
      d := Some(nr, name[..len - 1]);
      next := next + len;
    }

    /** testfs_dir_name_to_inode_nr */
    method NameToInodeNr(dir: nat, name: Name) returns (ret: int)
      requires Valid() && dir in logs
      ensures Valid() && ret == NumberOf(logs[dir], name)
    {
      hide Bytes, Offset, ValidLog, Catalog.ValidBut;
      ghost var log := logs[dir];
      OffsetZero(log);
      var offset := 0;
      ghost var i: nat := 0;
      ret := -ENOENT;
      var more := true;
      while ret < 0 && more
        invariant Valid() && i <= |log| && offset == Offset(log, i)
        invariant ret < 0 ==> ret == -ENOENT && FindFrom(log, name, 0) == FindFrom(log, name, i)
        invariant ret < 0 && !more ==> i == |log|
        invariant ret >= 0 ==> ret == NumberOf(log, name)
        decreases |log| - i, more, ret < 0
      {
        var d, next := NextDirent(dir, offset, i);
        offset := next;
        if d == None {
          more := false;
        } else {
          if d.nr >= 0 && d.name == name {
            ret := d.nr;
          }
          i := i + 1;
        }
      }
    }

    /** testfs_find_dirent: the first record of an inode. */
    method FindDirent(dir: nat, nr: nat) returns (d: Dirent)
      requires Valid() && dir in logs
      ensures Valid()
      ensures d == None ==> forall j | 0 <= j < |logs[dir]| :: logs[dir][j].nr != nr
      ensures d != None ==>
                exists i ::
                  && 0 <= i < |logs[dir]| && logs[dir][i] == Record(nr, d.name) && d.nr == nr
                  && forall j | 0 <= j < i :: logs[dir][j].nr != nr
    {
      hide Bytes, Offset, ValidLog, Catalog.ValidBut;
      ghost var log := logs[dir];
      OffsetZero(log);
      var offset := 0;
      ghost var i: nat := 0;
      while true
        invariant Valid() && i <= |log| && offset == Offset(log, i)
        invariant forall j | 0 <= j < i :: log[j].nr != nr
        decreases |log| - i
      {
        d, offset := NextDirent(dir, offset, i);
        if d == None || d.nr == nr {
          return;
        }
        i := i + 1;
      }
    }

    /** testfs_remove_dirent_allowed */
    method RemoveAllowed(nr: nat) returns (ret: int)
      requires Valid()
      ensures Valid() && ret == if nr in logs && !OnlyDots(logs[nr]) then -ENOTEMPTY else 0
    {
      hide Bytes, Offset, ValidLog, FileSystem.ValidBut, IsDir;
      ret := 0;
      if nr !in fs.inodes || fs.inodes[nr].d.itype != I_DIR {
        return;
      }
      hide Catalog.ValidBut;
      ghost var log := logs[nr];
      OffsetZero(log);
      var offset := 0;
      ghost var i: nat := 0;
      while ret == 0
        invariant Valid() && i <= |log| && offset == Offset(log, i)
        invariant ret == 0 || (ret == -ENOTEMPTY && !OnlyDots(log))
        invariant ret == 0 ==> forall j | 0 <= j < i && Live(log[j]) :: log[j].name == DOT || log[j].name == DOT_DOT
        decreases |log| - i, ret == 0
      {
        var d;
        d, offset := NextDirent(nr, offset, i);
        if d == None {
          break;
        }
        if !(d.nr < 0 || d.name == DOT || d.name == DOT_DOT) {
          assert Live(log[i]);
          ret := -ENOTEMPTY;
        }
        i := i + 1;
      }
    }

    /** The directories are their logs after a write to one of them. */
    twostate lemma Rewritten(dir: nat)
      requires old(Valid()) && old(dir in logs) && fs.inodes == old(fs.inodes) && fs.ValidBut({dir})
      requires fs.inodes[dir].d.itype == old(fs.inodes[dir].d.itype)
      requires logs.Keys == old(logs.Keys) && forall o | o in logs && o != dir :: logs[o] == old(logs[o])
      requires forall o | o in fs.inodes && o != dir :: fs.FileKept(o)
      ensures ValidBut({dir})
      ensures Valid() <==> fs.Valid() && IsDir(fs.sb.dev.blocks[..], fs.inodes[dir].d, logs[dir])
    {
      hide FileSystem.ValidBut, IsDir, SameFile;
      forall o | o in logs && o != dir ensures IsDir(fs.sb.dev.blocks[..], fs.inodes[o].d, logs[o]) {
        IsDirSame(old(fs.sb.dev.blocks[..]), fs.sb.dev.blocks[..], fs.inodes[o].d, logs[o]);
      }
    }

    /** Writing files does not touch the directories. */
    twostate lemma DirsKept()
      requires old(Valid()) && fs.Valid() && fs.inodes == old(fs.inodes) && logs == old(logs)
      requires forall o | o in fs.inodes :: fs.inodes[o].d.itype == old(fs.inodes[o].d.itype)
      requires forall o | o in logs :: fs.FileKept(o)
      ensures Valid()
    {
      hide FileSystem.ValidBut, IsDir, SameFile;
      forall o | o in logs ensures IsDir(fs.sb.dev.blocks[..], fs.inodes[o].d, logs[o]) {
        IsDirSame(old(fs.sb.dev.blocks[..]), fs.sb.dev.blocks[..], fs.inodes[o].d, logs[o]);
      }
    }

    /** testfs_write_dirent, and lines 169-173 of testfs_remove_dirent: record r goes to place i of the log. */
    method WriteRecord(dir: nat, r: Record, offset: nat, ghost i: nat) returns (ret: int)
      requires Valid() && dir in logs && i <= |logs[dir]| && offset == Offset(logs[dir], i) && ValidRecord(r)
      requires i < |logs[dir]| ==> |r.name| == |logs[dir][i].name|
      modifies this`logs, fs.inodes[dir], fs.sb, fs.sb.dev, fs.sb.dev.blocks, fs.sb.blockFreemap.v
      ensures fs.inodes == old(fs.inodes) && ValidBut({dir}) && forall o | o in fs.inodes && o != dir :: fs.FileKept(o)
      ensures dir in logs && logs == old(logs)[dir := logs[dir]] && fs.sb.Valid()
      ensures RecordEnds(old(At(dir)), fs.inodes[dir].Now(), old(logs[dir]), logs[dir], i, r, ret, Valid())
      ensures i < |old(logs[dir])| ==> ret >= 0
      ensures ret < 0 && Valid() && Unstarted(old(At(dir)), offset, |Encoded(r)|) ==> fs.FileKept(dir)
    {
      hide RecordEnds, FileSystem.OthersKept, Bytes, Encoded, IsDir, Offset, Fits, Breaks, Dangles, Partition,
           Broken, Stop, WriteEnds, Unstarted, SuperBlock.Valid, SuperBlock.Used, Bitmaps.Bitmap.Valid,
           FileOf, SameFile, Inode.Valid, Bitmaps.Bitmap.Bits;
      ghost var z, log := At(dir), logs[dir];
      fs.sb.UsedRange();
      assert (this as object) !in fs.sb.Repr();
      ghost var leak;
      ret, leak := fs.WriteFile(dir, Encoded(r), offset);
      ghost var w := fs.inodes[dir].Now();
      RecordWritten(z, w, fs.Valid(), log, i, r, ret, leak);
      if ret >= 0 {
        logs := logs[dir := Written(log, i, r)];
      }
      assert fs.inodes[dir].Now() == w;
      Rewritten(dir);
    }

    lemma Opened(dir: nat)
      requires Valid() && dir in logs
      ensures ValidLog(logs[dir]) && dir in fs.inodes && fs.inodes[dir].sb == fs.sb && fs.sb.Valid()
      ensures At(dir) == fs.inodes[dir].Now() && At(dir).d == fs.inodes[dir].d && At(dir).free == fs.sb.Free() >= 0
      ensures At(dir).dev == fs.sb.dev.blocks[..] && IsDir(At(dir).dev, At(dir).d, logs[dir])
      ensures Dense(At(dir).dev, At(dir).d) && At(dir).d.size == |Bytes(logs[dir])|
    {
      hide Bytes, FileOf, Owns, Populated, SuperBlock.Valid, SuperBlock.Used, Bitmaps.Bitmap.Valid, Dense, Partition;
      fs.sb.UsedRange();
      assert |FileOf(fs.sb.dev.blocks[..], fs.inodes[dir].d)| == fs.inodes[dir].d.size;
    }

    lemma AtTheEnd(dir: nat)
      requires Valid() && dir in logs
      ensures Offset(logs[dir], |logs[dir]|) == |Bytes(logs[dir])| == At(dir).d.size
    {
      OffsetEnd(logs[dir]);
      assert |FileOf(fs.sb.dev.blocks[..], fs.inodes[dir].d)| == fs.inodes[dir].d.size;
    }

    /** While nothing is written every file is what it was. */
    twostate lemma Untouched(dir: nat)
      requires old(Valid()) && Valid() && fs.inodes == old(fs.inodes) && logs == old(logs) && old(dir in logs)
      requires fs.sb.dev.blocks[..] == old(fs.sb.dev.blocks[..]) && fs.sb.Free() == old(fs.sb.Free())
      requires fs.sb.Used() == old(fs.sb.Used())
      requires forall o | o in fs.inodes ::
                 fs.inodes[o].d == old(fs.inodes[o].d) && fs.inodes[o].own == old(fs.inodes[o].own)
      ensures dir in fs.inodes && fs.inodes[dir].sb == fs.sb && fs.sb.Valid()
      ensures fs.inodes[dir].Now() == At(dir) == old(At(dir)) && ValidBut({dir})
      ensures forall o | o in fs.inodes :: fs.FileKept(o)
    {
      hide IsDir, SameFile, SuperBlock.Valid, SuperBlock.Used, Owns, Populated, Partition;
      fs.Idle();
    }

    /** testfs_add_dirent, lines 98-112: where the entry goes. */
    method FindSlot(dir: nat, name: Name) returns (exist: bool, offset: nat, ghost i: nat)
      requires Valid() && dir in logs
      ensures Valid() && i == StopFrom(logs[dir], name, 0) && offset == Offset(logs[dir], i)
      ensures exist <==> i < |logs[dir]| && Live(logs[dir][i])
    {
      hide Bytes, Offset, ValidLog, Catalog.ValidBut;
      ghost var log := logs[dir];
      OffsetZero(log);
      offset, i, exist := 0, 0, false;
      while true
        invariant Valid() && i <= |log| && offset == Offset(log, i) && !exist
        invariant StopFrom(log, name, 0) == StopFrom(log, name, i)
        decreases |log| - i
      {
        var d, next := NextDirent(dir, offset, i);
        if d == None {
          return;
        }
        exist := d.nr >= 0 && d.name == name;
        if exist || !(d.nr >= 0 || |d.name| != |name|) {
          return;
        }
        offset, i := next, i + 1;
      }
    }

    /** testfs_add_dirent: the entry goes over the first tombstone as long, or to the end. */
    method AddDirent(dir: nat, name: Name, nr: nat) returns (ret: int)
      requires Valid() && dir in logs && ValidName(name) && nr <= INT_MAX
      modifies this`logs, fs.inodes[dir], fs.sb, fs.sb.dev, fs.sb.dev.blocks, fs.sb.blockFreemap.v
      ensures fs.inodes == old(fs.inodes) && ValidBut({dir}) && forall o | o in fs.inodes && o != dir :: fs.FileKept(o)
      ensures dir in logs && logs == old(logs)[dir := logs[dir]] && fs.sb.Valid()
      ensures var log := old(logs[dir]);
        var i := StopFrom(log, name, 0);
        if i < |log| && Live(log[i]) then
          ret == -EEXIST && Valid() && logs == old(logs) && fs.inodes[dir].Now() == old(At(dir))
        else RecordEnds(old(At(dir)), fs.inodes[dir].Now(), log, logs[dir], i, Record(nr, name), ret, Valid())
      ensures var z, n := old(At(dir)), HEADER + |name| + 1;
        ret < 0 && Valid() && Unstarted(z, z.d.size, n) ==> fs.FileKept(dir)
    {
      hide Bytes, Offset, ValidLog, FileSystem.ValidBut, SameFile, IsDir, RecordEnds, Unstarted, Catalog.ValidBut,
           Catalog.At, Inode.Now;
      Untouched(dir);
      var exist, offset;
      ghost var i;
      exist, offset, i := FindSlot(dir, name);
      Untouched(dir);
      if exist {
        return -EEXIST;
      }
      if i == |logs[dir]| {
        AtTheEnd(dir);
      }
      ret := WriteRecord(dir, Record(nr, name), offset, i);
    }

    /** testfs_remove_dirent, lines 159-166: the entry of a name. */
    method FindEntry(dir: nat, name: Name) returns (found: bool, nr: int, offset: nat, ghost i: nat)
      requires Valid() && dir in logs
      ensures Valid() && i == FindFrom(logs[dir], name, 0) && offset == Offset(logs[dir], i)
      ensures (found <==> i < |logs[dir]|) && (found ==> nr == logs[dir][i].nr >= 0)
    {
      hide Bytes, Offset, ValidLog, Catalog.ValidBut;
      ghost var log := logs[dir];
      OffsetZero(log);
      offset, i, nr, found := 0, 0, -1, false;
      while true
        invariant Valid() && i <= |log| && offset == Offset(log, i) && !found
        invariant FindFrom(log, name, 0) == FindFrom(log, name, i)
        decreases |log| - i
      {
        var d, next := NextDirent(dir, offset, i);
        if d == None {
          return;
        }
        if d.nr >= 0 && d.name == name {
          return true, d.nr, offset, i;
        }
        offset, i := next, i + 1;
      }
    }

    /** testfs_remove_dirent. The write of the tombstone cannot fail. */
    method RemoveDirent(dir: nat, name: Name) returns (ret: int)
      requires Valid() && dir in logs
      modifies this`logs, fs.inodes[dir], fs.sb, fs.sb.dev, fs.sb.dev.blocks, fs.sb.blockFreemap.v
      ensures Valid() && fs.inodes == old(fs.inodes) && forall o | o in fs.inodes && o != dir :: fs.FileKept(o)
      ensures Lasting(old(At(dir)), fs.inodes[dir].Now())
      ensures name == DOT || name == DOT_DOT ==> ret == -EINVAL && logs == old(logs)
      ensures name != DOT && name != DOT_DOT ==>
        var log := old(logs[dir]);
        var i := FindFrom(log, name, 0);
        if i == |log| then ret == -ENOENT && logs == old(logs)
        else if log[i].nr in old(logs) && !OnlyDots(old(logs)[log[i].nr]) then ret == -ENOTEMPTY && logs == old(logs)
        else ret == log[i].nr && logs == old(logs)[dir := Removed(log, i)]
    {
      hide Bytes, Offset, FileSystem.ValidBut, SameFile, IsDir, Removable, OnlyDots, Catalog.ValidBut, Catalog.At,
           Inode.Now, Stop, Fits, Breaks, Dangles, Broken;
      Untouched(dir);
      if name == DOT || name == DOT_DOT {
        return -EINVAL;
      }
      var found, nr, offset;
      ghost var i;
      found, nr, offset, i := FindEntry(dir, name);
      if !found {
        Untouched(dir);
        return -ENOENT;
      }
      var allowed := RemoveAllowed(nr);
      Untouched(dir);
      if allowed < 0 {
        return allowed;
      }
      Opened(dir);
      ghost var log := logs[dir];
      assert Record(-1, name) == log[i].(nr := -1);
      ret := WriteRecord(dir, Record(-1, name), offset, i);
      if ret >= 0 {
        ret := nr;
      }
    }

    /** testfs_create_inode, for a file or an empty directory. */
    method NewInode(isDir: bool) returns (ret: int)
      requires Valid()
      modifies this`logs, fs`inodes, fs.sb, fs.sb.dev, fs.sb.dev.blocks, fs.sb.inodeFreemap.v
      ensures Valid() && fs.sb.Free() == old(fs.sb.Free()) && forall o | o in old(fs.inodes) :: fs.FileKept(o)
      ensures ret < 0 ==> ret == -ENOSPC && fs.inodes == old(fs.inodes) && logs == old(logs)
      ensures ret < 0 ==> forall i: nat | i < NR_INODE_BLOCKS * INODES_PER_BLOCK :: i in old(fs.inodes)
      ensures ret >= 0 ==> forall i: nat | i < ret :: i in old(fs.inodes)
      ensures ret >= 0 ==>
                && ret !in old(fs.inodes) && ret !in old(logs) && fs.inodes.Keys == old(fs.inodes).Keys + {ret}
                && ret <= INT_MAX && fresh(fs.inodes[ret])
                && fs.inodes[ret].d == EmptyInode(if isDir then I_DIR else I_FILE)
                && Removable(fs.sb.dev.blocks[..], fs.inodes[ret].d)
                && logs == WithNew(old(logs), ret, isDir)
    {
      hide FileSystem.ValidBut, IsDir, SameFile, Removable, ZeroTail, FileOf, SuperBlock.Valid, SuperBlock.Used,
           Bitmaps.Bitmap.Valid, EmptyInode;
      assert (this as object) !in fs.sb.Repr();
      var itype := if isDir then I_DIR else I_FILE;
      ret := fs.CreateInode(itype);
      EmptyDirFile(fs.sb.dev.blocks[..], itype);
      if ret >= 0 && isDir {
        logs := logs[ret := []];
      }
      forall n | n in old(logs) ensures IsDir(fs.sb.dev.blocks[..], fs.inodes[n].d, logs[n]) {
        IsDirSame(old(fs.sb.dev.blocks[..]), fs.sb.dev.blocks[..], fs.inodes[n].d, logs[n]);
      }
    }

    /** testfs_remove_inode: it gets past its asserts exactly when the file is removable. */
    method Discard(nr: nat, ghost broken: set<nat>) returns (ok: bool)
      requires ValidBut(broken) && nr in fs.inodes && nr !in broken
      modifies this`logs, fs`inodes, fs.inodes[nr], fs.sb, fs.sb.dev, fs.sb.dev.blocks, fs.sb.blockFreemap.v,
               fs.sb.inodeFreemap.v
      ensures old(|fs.inodes[nr].d.direct|) == NR_DIRECT_BLOCKS
      ensures ok <==> old(Removable(fs.sb.dev.blocks[..], fs.inodes[nr].d))
      ensures ok ==>
                && ValidBut(broken) && fs.inodes == old(fs.inodes) - {nr} && logs == old(logs) - {nr}
                && (Valid() ==> old(Valid())) && (forall o | o in fs.inodes :: fs.Intact(o))
                && forall o | o in fs.inodes && o !in broken :: fs.FileKept(o)
    {
      hide FileSystem.ValidBut, IsDir, SameFile, Removable, SuperBlock.Valid, SuperBlock.Used, Bitmaps.Bitmap.Valid,
           SameBlocks;
      assert (this as object) !in fs.sb.Repr();
      ok := fs.RemoveInode(nr, broken);
      if ok {
        logs := logs - {nr};
        forall n | n in logs && n !in broken ensures IsDir(fs.sb.dev.blocks[..], fs.inodes[n].d, logs[n]) {
          IsDirSame(old(fs.sb.dev.blocks[..]), fs.sb.dev.blocks[..], fs.inodes[n].d, logs[n]);
        }
        if Valid() {
          StillBroken(broken);
        }
      }
    }

    /** Removing an inode mends no other. */
    twostate lemma StillBroken(broken: set<nat>)
      requires old(ValidBut(broken)) && Valid() && fs.inodes.Keys <= old(fs.inodes.Keys) && logs.Keys <= old(logs.Keys)
      requires forall o | o in fs.inodes :: fs.Intact(o)
      requires forall o | o in old(fs.inodes) && o !in fs.inodes :: o !in broken
      requires forall n | n in logs :: logs[n] == old(logs[n])
      ensures old(Valid())
    {
      hide IsDir, SameFile, SuperBlock.Valid, SuperBlock.Used, Partition, Owns, Populated, SameBlocks;
      var was, now := old(fs.sb.dev.blocks[..]), fs.sb.dev.blocks[..];
      forall o | o in fs.inodes && o in broken
        ensures old(fs.inodes[o].Valid()) && (o in logs ==> IsDir(was, fs.inodes[o].d, logs[o]))
      {
        PartitionOwner(old(fs.Owners()), old(fs.sb.Used()), o);
        fs.NotHealed(o);
        if o in logs {
          IsDirSame(now, was, fs.inodes[o].d, logs[o]);
        }
      }
    }

    /** testfs_create_empty_dir: the first entry takes a block, and the second always fits in it. */
    method CreateEmptyDir(up: nat, nr: nat) returns (ret: int)
      requires Valid() && nr in logs && logs[nr] == [] && fs.inodes[nr].d == EmptyInode(I_DIR)
      requires up <= INT_MAX && nr <= INT_MAX
      modifies this`logs, fs.inodes[nr], fs.sb, fs.sb.dev, fs.sb.dev.blocks, fs.sb.blockFreemap.v
      ensures Valid() && fs.inodes == old(fs.inodes) && forall o | o in fs.inodes && o != nr :: fs.FileKept(o)
      ensures ret < 0 <==> old(fs.sb.Free()) < 1
      ensures ret < 0 ==> ret == -ENOSPC && logs == old(logs) && fs.FileKept(nr)
      ensures ret >= 0 ==>
                && logs == old(logs)[nr := [Record(nr, DOT), Record(up, DOT_DOT)]]
                && fs.sb.Free() == old(fs.sb.Free()) - 1
                && |fs.inodes[nr].d.direct| == NR_DIRECT_BLOCKS && Removable(fs.sb.dev.blocks[..], fs.inodes[nr].d)
    {
      hide FileSystem.ValidBut, Catalog.ValidBut, IsDir, SameFile, Removable, RecordEnds, Unstarted, Catalog.At, Dense,
           Bytes, StopFrom;
      Opened(nr);
      ghost var z, dev0 := At(nr), fs.sb.dev.blocks[..];
      ret := AddDirent(nr, DOT, nr);
      DotAdded(z, fs.inodes[nr].Now(), logs[nr], nr, ret, Valid());
      if ret < 0 {
        return;
      }
      Opened(nr);
      ghost var y, dev1 := At(nr), fs.sb.dev.blocks[..];
      ret := AddDirent(nr, DOT_DOT, up);
      DotDotAdded(y, fs.inodes[nr].Now(), logs[nr], nr, up, ret, Valid());
      forall o | o in fs.inodes && o != nr ensures SameFile(dev0, fs.sb.dev.blocks[..], fs.inodes[o].d) {
        SameFileTwice(dev0, dev1, fs.sb.dev.blocks[..], fs.inodes[o].d);
      }
    }

    lemma Below()
      requires Valid()
      ensures fs.Valid() && fs.sb.Valid() && forall n | n in logs :: n in fs.inodes
      ensures forall n | n in fs.inodes :: fs.inodes[n].d.itype == I_DIR <==> n in logs
    {
      hide IsDir, Partition, SuperBlock.Valid, Inode.Valid;
    }

    lemma Numbers()
      requires Valid()
      ensures forall n | n in fs.inodes :: n <= INT_MAX
    {
      hide Owns, Populated, SuperBlock.Used, Partition;
    }

    /** testfs_create_file_or_dir, lines 218-235, once the inode is made: the two dots of a directory, the entry,
        and the removal of the inode when one of them cannot be written. */
    method Enter(dir: nat, name: Name, isDir: bool, nr: nat, ghost z: Snap) returns (ret: int)
      requires Valid() && dir in logs && ValidName(name) && NumberOf(logs[dir], name) < 0
      requires nr in fs.inodes && nr != dir && fs.inodes[nr].d == EmptyInode(if isDir then I_DIR else I_FILE)
      requires isDir ==> nr in logs && logs[nr] == []
      requires z.d == At(dir).d && z.free == At(dir).free
      requires forall o | o in fs.inodes && o != nr :: SameFile(z.dev, fs.sb.dev.blocks[..], fs.inodes[o].d)
      modifies this`logs, fs`inodes, fs.inodes[dir], fs.inodes[nr], fs.sb, fs.sb.dev, fs.sb.dev.blocks,
               fs.sb.blockFreemap.v, fs.sb.inodeFreemap.v
      ensures ValidBut({dir})
      ensures forall o | o in old(fs.inodes) && o != dir && o != nr ::
                && o in fs.inodes && fs.inodes[o].d == old(fs.inodes[o].d)
                && SameFile(z.dev, fs.sb.dev.blocks[..], fs.inodes[o].d)
      ensures var log := old(logs[dir]);
        && |z.d.direct| == NR_DIRECT_BLOCKS && z.d.size >= 0
        && (Valid() <==> !CreateHarms(z, log, name, isDir))
        && (ret < 0 <==> CreateError(z, log, name, isDir) < 0)
        && (ret < 0 ==>
              && ret == CreateError(z, log, name, isDir)
              && fs.inodes == old(fs.inodes) - {nr} && logs == old(logs) - {nr})
        && (ret >= 0 ==>
              && ret == 0 && fs.inodes == old(fs.inodes)
              && var after := old(logs)[dir := Added(log, name, nr).0];
                logs == if isDir then after[nr := [Record(nr, DOT), Record(dir, DOT_DOT)]] else after)
      ensures ret >= 0 && Removable(z.dev, z.d) ==> Lasts(dir)
      ensures ret >= 0 && !isDir ==> fs.inodes[nr].d == EmptyInode(I_FILE)
      ensures ret >= 0 ==> fs.sb.Free() == EntryFree(Before(z, isDir), old(logs[dir]), name)
    {
      hide FileSystem.ValidBut, Catalog.ValidBut, IsDir, SameFile, Removable, Catalog.At, Dense, Bytes, NumberOf,
           EntryError, EntryHarms, EntryFree, Added, EmptyInode;
      Opened(dir);
      Numbers();
      ghost var dev1 := fs.sb.dev.blocks[..];
      EmptySound(dev1, if isDir then I_DIR else I_FILE);
      if isDir {
        ret := CreateEmptyDir(dir, nr);
        Weaken(dir);
        forall o | o in fs.inodes && o != nr ensures SameFile(z.dev, fs.sb.dev.blocks[..], fs.inodes[o].d) {
          SameFileTwice(z.dev, dev1, fs.sb.dev.blocks[..], fs.inodes[o].d);
        }
        if ret < 0 {
          RemovableKept(dev1, fs.sb.dev.blocks[..], fs.inodes[nr].d);
          Undo(nr, dir, z.dev);
          return;
        }
      }
      Opened(dir);
      assert z.(free := fs.sb.Free()) == Before(z, isDir);
      ghost var after := old(logs)[dir := Added(old(logs[dir]), name, nr).0];
      ghost var entered := if isDir then after[nr := [Record(nr, DOT), Record(dir, DOT_DOT)]] else after;
      assert logs[dir := after[dir]] == entered;
      assert logs - {nr} == old(logs) - {nr};
      ret := AddEntry(dir, name, nr, z);
    }

    /** A directory can be removed, as far as its blocks go. */
    ghost predicate Lasts(dir: nat)
      reads fs, fs.inodes.Values, fs.sb.dev.blocks
    {
      dir in fs.inodes && |fs.inodes[dir].d.direct| == NR_DIRECT_BLOCKS
      && Removable(fs.sb.dev.blocks[..], fs.inodes[dir].d)
    }

    /** Lines 226-229, and 235: the entry, or the removal of the inode. */
    method AddEntry(dir: nat, name: Name, nr: nat, ghost z: Snap) returns (ret: int)
      requires Valid() && dir in logs && ValidName(name) && NumberOf(logs[dir], name) < 0 && nr <= INT_MAX
      requires nr in fs.inodes && nr != dir && |fs.inodes[nr].d.direct| == NR_DIRECT_BLOCKS
      requires Removable(fs.sb.dev.blocks[..], fs.inodes[nr].d)
      requires z.d == At(dir).d
      requires forall o | o in fs.inodes && o != nr :: SameFile(z.dev, fs.sb.dev.blocks[..], fs.inodes[o].d)
      modifies this`logs, fs`inodes, fs.inodes[dir], fs.inodes[nr], fs.sb, fs.sb.dev, fs.sb.dev.blocks,
               fs.sb.blockFreemap.v, fs.sb.inodeFreemap.v
      ensures ValidBut({dir})
      ensures forall o | o in fs.inodes && o != dir :: o in old(fs.inodes) && fs.inodes[o].d == old(fs.inodes[o].d)
      ensures forall o | o in old(fs.inodes) && o != dir && o != nr ::
                o in fs.inodes && SameFile(z.dev, fs.sb.dev.blocks[..], fs.inodes[o].d)
      ensures var zf, log := z.(free := old(fs.sb.Free())), old(logs[dir]);
        && |zf.d.direct| == NR_DIRECT_BLOCKS && zf.d.size >= 0
        && (Valid() <==> !EntryHarms(zf, log, name)) && (ret < 0 <==> EntryError(zf, log, name) < 0)
        && (ret < 0 ==>
              && ret == EntryError(zf, log, name)
              && fs.inodes == old(fs.inodes) - {nr} && logs == old(logs) - {nr})
        && (ret >= 0 ==>
              ret == 0 && fs.inodes == old(fs.inodes) && logs == old(logs)[dir := Added(log, name, nr).0])
      ensures ret >= 0 && Removable(z.dev, z.d) ==> Lasts(dir)
      ensures ret >= 0 ==> fs.sb.Free() == EntryFree(z.(free := old(fs.sb.Free())), old(logs[dir]), name)
    {
      hide FileSystem.ValidBut, Catalog.ValidBut, IsDir, SameFile, Removable, RecordEnds, Unstarted, Catalog.At, Dense,
           Bytes, StopFrom, NumberOf, EntryError, EntryHarms, EntryFree, Added;
      Opened(dir);
      ghost var y, log, dev1 := At(dir), logs[dir], fs.sb.dev.blocks[..];
      NotThere(log, name, nr);
      RemovableKept(z.dev, dev1, z.d);
      ret := AddDirent(dir, name, nr);
      EntryEnds(z, y, fs.inodes[dir].Now(), log, logs[dir], name, nr, ret, Valid());
      forall o | o in fs.inodes && o != dir && o != nr ensures SameFile(z.dev, fs.sb.dev.blocks[..], fs.inodes[o].d) {
        SameFileTwice(z.dev, dev1, fs.sb.dev.blocks[..], fs.inodes[o].d);
      }
      if ret < 0 {
        RemovableKept(dev1, fs.sb.dev.blocks[..], fs.inodes[nr].d);
        Undo(nr, dir, z.dev);
        return;
      }
      ret := 0;
    }

    lemma Weaken(dir: nat)
      ensures Valid() ==> ValidBut({dir})
    {
      hide IsDir, Partition, Inode.Valid, SuperBlock.Valid;
    }

    /** testfs_create_file_or_dir, line 235: the new inode is given back. What was broken by then stays broken. */
    method Undo(nr: nat, dir: nat, ghost dev0: seq<Block>)
      requires ValidBut({dir}) && nr in fs.inodes && nr != dir && |fs.inodes[nr].d.direct| == NR_DIRECT_BLOCKS
      requires Removable(fs.sb.dev.blocks[..], fs.inodes[nr].d)
      requires forall o | o in fs.inodes && o != dir && o != nr :: SameFile(dev0, fs.sb.dev.blocks[..], fs.inodes[o].d)
      modifies this`logs, fs`inodes, fs.inodes[nr], fs.sb, fs.sb.dev, fs.sb.dev.blocks, fs.sb.blockFreemap.v,
               fs.sb.inodeFreemap.v
      ensures ValidBut({dir}) && (Valid() <==> old(Valid()))
      ensures fs.inodes == old(fs.inodes) - {nr} && logs == old(logs) - {nr}
      ensures forall o | o in fs.inodes ::
                fs.inodes[o].d == old(fs.inodes[o].d) && fs.inodes[o].own == old(fs.inodes[o].own)
      ensures forall o | o in fs.inodes && o != dir :: SameFile(dev0, fs.sb.dev.blocks[..], fs.inodes[o].d)
    {
      hide FileSystem.ValidBut, Catalog.ValidBut, SameFile, SameBlocks, Removable;
      ghost var dev1 := fs.sb.dev.blocks[..];
      var ok := Discard(nr, if Valid() then {} else {dir});
      Weaken(dir);
      forall o | o in fs.inodes && o != dir ensures SameFile(dev0, fs.sb.dev.blocks[..], fs.inodes[o].d) {
        SameFileTwice(dev0, dev1, fs.sb.dev.blocks[..], fs.inodes[o].d);
      }
    }

    /** testfs_make_root_dir, on a file system without inodes: it needs one block. */
    method MakeRoot() returns (ret: int)
      requires Valid() && fs.inodes == map[]
      modifies this`logs, fs`inodes, fs.sb, fs.sb.dev, fs.sb.dev.blocks, fs.sb.blockFreemap.v, fs.sb.inodeFreemap.v
      ensures Valid() && (ret < 0 <==> old(fs.sb.Free()) < 1)
      ensures ret < 0 ==> ret == -ENOSPC && fs.inodes == map[] && logs == map[]
      ensures ret >= 0 ==>
                && ret == 0 && fs.inodes.Keys == {0} && logs == map[0 := [Record(0, DOT), Record(0, DOT_DOT)]]
                && fresh(fs.inodes[0]) && fs.sb.Free() == old(fs.sb.Free()) - 1
      ensures ret >= 0 ==> Lasts(0)
    {
      hide FileSystem.ValidBut, IsDir, SameFile, Catalog.At, EmptyInode, Removable, SameBlocks;
      assert forall n | n in logs :: n in fs.inodes;
      assert logs.Keys == {};
      ret := NewInode(true);
      assert (0 as nat) !in old(fs.inodes);
      var nr := ret;
      ghost var dev0 := fs.sb.dev.blocks[..];
      ret := CreateEmptyDir(nr, nr);
      if ret < 0 {
        RemovableKept(dev0, fs.sb.dev.blocks[..], fs.inodes[nr].d);
        var ok := Discard(nr, {});
        return;
      }
      ret := 0;
    }

    /** testfs_create_file_or_dir from line 213 on: the name is not there. */
    method Make(dir: nat, name: Name, isDir: bool) returns (ret: int, ghost nr: int)
      requires Valid() && dir in logs && ValidName(name) && NumberOf(logs[dir], name) < 0
      modifies this`logs, fs`inodes, fs.inodes[dir], fs.sb, fs.sb.dev, fs.sb.dev.blocks, fs.sb.blockFreemap.v,
               fs.sb.inodeFreemap.v
      ensures ValidBut({dir}) && forall o | o in old(fs.inodes) && o != dir :: fs.FileKept(o)
      ensures nr < 0 ==> ret == nr == -ENOSPC && Valid() && logs == old(logs) && fs.inodes.Keys == old(fs.inodes).Keys
      ensures nr >= 0 ==>
        var z, log := old(At(dir)), old(logs[dir]);
        && nr !in old(fs.inodes) && (Valid() <==> !CreateHarms(z, log, name, isDir))
        && (ret < 0 <==> CreateError(z, log, name, isDir) < 0)
        && (ret < 0 ==>
              && ret == CreateError(z, log, name, isDir)
              && fs.inodes.Keys == old(fs.inodes).Keys && logs == old(logs))
        && (ret >= 0 ==>
              && ret == 0 && fs.inodes.Keys == old(fs.inodes).Keys + {nr}
              && var after := old(logs)[dir := Added(log, name, nr).0];
                logs == if isDir then after[nr := [Record(nr, DOT), Record(dir, DOT_DOT)]] else after)
      ensures ret >= 0 && old(Lasts(dir)) ==> Lasts(dir)
      ensures ret >= 0 ==>
                && dir in fs.inodes && fs.inodes[dir] == old(fs.inodes[dir])
                && (forall i: nat | i < nr :: i in old(fs.inodes))
                && nr in fs.inodes && fresh(fs.inodes[nr]) && (!isDir ==> fs.inodes[nr].d == EmptyInode(I_FILE))
                && fs.sb.Free() == EntryFree(Before(old(At(dir)), isDir), old(logs[dir]), name)
      ensures nr < 0 ==> forall i: nat | i < NR_INODE_BLOCKS * INODES_PER_BLOCK :: i in old(fs.inodes)
    {
      hide FileSystem.ValidBut, Catalog.ValidBut, IsDir, SameFile, Catalog.At, NumberOf, CreateError, CreateHarms,
           EntryFree, Added, EmptyInode, Removable, WithNew;
      Opened(dir);
      ghost var z := At(dir);
      ret := NewInode(isDir);
      nr := ret;
      Weaken(dir);
      if ret < 0 {
        return;
      }
      Opened(dir);
      Entered(old(logs), nr, isDir, dir, Added(logs[dir], name, nr).0, [Record(nr, DOT), Record(dir, DOT_DOT)]);
      assert nr != dir && logs[dir] == old(logs[dir]);
      OneMore(old(fs.inodes), fs.inodes, nr);
      assert forall o | o in fs.inodes && o != nr :: SameFile(z.dev, fs.sb.dev.blocks[..], fs.inodes[o].d);
      ret := Enter(dir, name, isDir, ret, z);
    }

    /** testfs_create_file_or_dir: what it does to the logs, the number of the new inode, and when it breaks the
        directory. It gives the inode back when it fails, and changes no other file. */
    method Create(dir: nat, name: Name, isDir: bool) returns (ret: int, ghost nr: int)
      requires Valid() && dir in logs && ValidName(name)
      modifies this`logs, fs`inodes, fs.inodes[dir], fs.sb, fs.sb.dev, fs.sb.dev.blocks, fs.sb.blockFreemap.v,
               fs.sb.inodeFreemap.v
      ensures ValidBut({dir}) && forall o | o in old(fs.inodes) && o != dir :: fs.FileKept(o)
      ensures if nr < 0 then nr == -ENOSPC else nr !in old(fs.inodes)
      ensures var z, log := old(At(dir)), old(logs[dir]);
        var made := NumberOf(log, name) < 0 && nr >= 0;
        && (logs, ret) == CreateLogs(old(logs), dir, name, isDir, nr, CreateError(z, log, name, isDir))
        && (Valid() <==> !(made && CreateHarms(z, log, name, isDir)))
        && fs.inodes.Keys == (if made && CreateError(z, log, name, isDir) >= 0 then old(fs.inodes).Keys + {nr}
                              else old(fs.inodes).Keys)
      ensures ret >= 0 && old(Lasts(dir)) ==> Lasts(dir)
      ensures ret >= 0 ==>
                && dir in fs.inodes && fs.inodes[dir] == old(fs.inodes[dir])
                && (forall i: nat | i < nr :: i in old(fs.inodes))
                && nr in fs.inodes && fresh(fs.inodes[nr]) && (!isDir ==> fs.inodes[nr].d == EmptyInode(I_FILE))
                && fs.sb.Free() == EntryFree(Before(old(At(dir)), isDir), old(logs[dir]), name)
      ensures nr < 0 && old(NumberOf(logs[dir], name)) < 0 ==>
                forall i: nat | i < NR_INODE_BLOCKS * INODES_PER_BLOCK :: i in old(fs.inodes)
    {
      hide FileSystem.ValidBut, Catalog.ValidBut, IsDir, SameFile, Catalog.At, NumberOf, CreateError, CreateHarms,
           EntryFree, Added, EmptyInode;
      nr := -ENOSPC;
      ret := NameToInodeNr(dir, name);
      Untouched(dir);
      if ret >= 0 {
        ret := -EEXIST;
        return;
      }
      ret, nr := Make(dir, name, isDir);
      DotLog(dir, nr);
    }

    /** cmd_cd, lines 351-358: the number of a directory in this one. */
    method FindDir(dir: nat, name: Name) returns (ret: int)
      requires Valid() && dir in logs
      ensures var n := NumberOf(logs[dir], name);
        Valid() && ret == if n < 0 || n in logs then n else -ENOTDIR
    {
      hide FileSystem.ValidBut, IsDir, NumberOf;
      ret := NameToInodeNr(dir, name);
      if ret >= 0 && (ret !in fs.inodes || fs.inodes[ret].d.itype != I_DIR) {
        ret := -ENOTDIR;
      }
    }

    /** cmd_write: directories are not written, and stay what they are. */
    method Write(dir: nat, name: Name, buf: seq<byte>, start: nat) returns (ret: int, ghost leak: Block)
      requires Valid() && dir in logs && |buf| <= INT_MAX
      requires NumberOf(logs[dir], name) >= 0 ==> NumberOf(logs[dir], name) in fs.inodes
      modifies fs.inodes.Values, fs.sb, fs.sb.dev, fs.sb.dev.blocks, fs.sb.blockFreemap.v
      ensures fs.inodes == old(fs.inodes) && fs.sb.Valid() && (Valid() <==> fs.Valid())
      ensures var n := NumberOf(logs[dir], name);
        if n < 0 then ret == n && Valid()
        else if n in logs then ret == -EISDIR && Valid()
        else
          && old(fs.inodes[n].sb) == fs.inodes[n].sb == fs.sb && |old(fs.inodes[n].d.direct)| == NR_DIRECT_BLOCKS
          && WriteEnds(old(fs.inodes[n].Now()), fs.inodes[n].Now(), fs.Valid(), start, buf, ret, leak)
          && forall o | o in fs.inodes && o != n :: fs.FileKept(o)
    {
      hide FileSystem.ValidBut, Catalog.ValidBut, NumberOf, WriteEnds, SameFile, SuperBlock.Valid, IsDir;
      leak := ZeroBlock();
      ret := NameToInodeNr(dir, name);
      Below();
      if ret < 0 {
        return;
      }
      if fs.inodes[ret].d.itype == I_DIR {
        return -EISDIR, leak;
      }
      fs.Members();
      ret, leak := fs.WriteFile(ret, buf, start);
      if fs.Valid() {
        DirsKept();
      }
      assert Valid() ==> fs.Valid() by {
        if Valid() {
          Below();
        }
      }
    }

    /** cmd_rm; ok says that testfs_remove_inode gets past its asserts. */
    method Remove(dir: nat, name: Name) returns (ret: int, ok: bool)
      requires Valid() && dir in logs
      modifies this`logs, fs`inodes, fs.inodes.Values, fs.sb, fs.sb.dev, fs.sb.dev.blocks, fs.sb.blockFreemap.v,
               fs.sb.inodeFreemap.v
      ensures var (after, r) := RemoveLogs(old(logs), dir, name);
        if r < 0 then
          && ok && ret == r && Valid() && logs == after == old(logs) && fs.inodes == old(fs.inodes)
          && forall o | o in fs.inodes && o != dir :: fs.FileKept(o)
        else
          var n := old(logs[dir])[FindFrom(old(logs[dir]), name, 0)].nr;
          && (ok ==> Valid() && ret == r && logs == after && fs.inodes == old(fs.inodes) - {n})
          && (ok ==> forall o | o in fs.inodes && o != dir :: fs.FileKept(o))
          && (n != dir && n in old(fs.inodes) ==>
                |old(fs.inodes[n].d.direct)| == NR_DIRECT_BLOCKS
                && (ok <==> old(Removable(fs.sb.dev.blocks[..], fs.inodes[n].d))))
          && (n !in old(fs.inodes) ==> !ok)
    {
      hide FileSystem.ValidBut, Catalog.ValidBut, IsDir, SameFile, Catalog.At, Removable, SameBlocks;
      Untouched(dir);
      ghost var dev0 := fs.sb.dev.blocks[..];
      ret := RemoveDirent(dir, name);
      ok := true;
      if ret < 0 {
        return;
      }
      ok := ret in fs.inodes;
      if ok {
        ghost var dev1 := fs.sb.dev.blocks[..];
        if ret != dir {
          RemovableKept(dev0, dev1, fs.inodes[ret].d);
        }
        ok := Discard(ret, {});
        if ok {
          forall o | o in fs.inodes && o != dir ensures SameFile(dev0, fs.sb.dev.blocks[..], fs.inodes[o].d) {
            SameFileTwice(dev0, dev1, fs.sb.dev.blocks[..], fs.inodes[o].d);
          }
        }
      }
      ret := 0;
    }
  }

  /** The logs after an inode is made. */
  function WithNew(logs: map<int, seq<Record>>, nr: int, isDir: bool): (after: map<int, seq<Record>>)
    requires nr !in logs
    ensures after - {nr} == logs && (isDir ==> nr in after && after[nr] == [])
    ensures forall n | n in logs :: n in after && after[n] == logs[n]
    ensures forall n | n in after && n != nr :: n in logs
  {
    if isDir then logs[nr := []] else logs
  }

  lemma Entered(logs: map<int, seq<Record>>, nr: int, isDir: bool, dir: int, log: seq<Record>, dots: seq<Record>)
    requires nr !in logs && dir in logs
    ensures var after := WithNew(logs, nr, isDir);
      (if isDir then after[dir := log][nr := dots] else after[dir := log])
      == if isDir then logs[dir := log][nr := dots] else logs[dir := log]
  {
  }

  lemma OneMore(inodes: map<nat, Inode>, after: map<nat, Inode>, nr: nat)
    requires after.Keys == inodes.Keys + {nr} && nr !in inodes
    ensures (forall o | o in after && o != nr :: o in inodes) && (after - {nr}).Keys == inodes.Keys
  {
  }

  lemma DotLog(dir: int, nr: int)
    ensures Added(Added([], DOT, nr).0, DOT_DOT, dir).0 == [Record(nr, DOT), Record(dir, DOT_DOT)]
  {
    assert Added([], DOT, nr).0 == [Record(nr, DOT)];
    assert StopFrom([Record(nr, DOT)], DOT_DOT, 0) == |[Record(nr, DOT)]| || nr < 0;
  }
}
