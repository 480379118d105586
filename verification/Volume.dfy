/** The shell of the file system (fs/dir.c, fs/testfs.c): its commands on directories, from the blocks of the
    device up to the tree. */
module Volumes {
  import opened Common
  import opened SuperBlocks
  import opened BlockMap
  import opened ReadWrite
  import opened FileSpec
  import opened Release
  import opened FileSystems
  import opened Directories
  import opened Catalogs
  import T = Trees

  /** The logs are finite maps of names, the maps are a tree, and the inodes are those of the tree. */
  ghost predicate Shows(t: T.Tree, logs: map<int, seq<Record>>, inodes: set<nat>) {
    && T.WellFormed(t) && T.UniqueNames(logs) && t.dirs == T.Dirs(logs)
    && (forall n: nat | n in inodes :: n in t.dirs || n in t.files)
    && (forall n | n in t.dirs || n in t.files :: n >= 0 && n in inodes)
  }

  lemma NumberShown(t: T.Tree, logs: map<int, seq<Record>>, d: int, name: Name)
    requires T.UniqueNames(logs) && t.dirs == T.Dirs(logs) && d in logs
    ensures d in t.dirs
    ensures NumberOf(logs[d], name) == if name in t.dirs[d] then t.dirs[d][name] else -ENOENT
    ensures name in t.dirs[d] <==> NumberOf(logs[d], name) >= 0
  {
    hide Entries, NumberOf, UniqueLive;
    NumberInEntries(logs[d], name);
  }

  lemma CreateShown(t: T.Tree, logs: map<int, seq<Record>>, inodes: set<nat>, d: int, name: Name, isDir: bool, nr: int,
                    err: int)
    requires Shows(t, logs, inodes) && d in logs && (nr >= 0 ==> nr !in inodes)
    ensures d in t.dirs && (NumberOf(logs[d], name) < 0 <==> name !in t.dirs[d])
    ensures var (after, r) := CreateLogs(logs, d, name, isDir, nr, err);
      var (to, q) := T.Create(t, d, name, isDir, nr, err);
      && r == q && d in to.dirs
      && Shows(to, after, if NumberOf(logs[d], name) < 0 && nr >= 0 && err >= 0 then inodes + {nr as nat} else inodes)
  {
    hide T.WellFormed, CreateLogs, T.UniqueNames, T.Dirs, NumberOf;
    NumberShown(t, logs, d, name);
    assert t.dirs.Keys == logs.Keys by {
      DirKeys(logs);
    }
    T.CreateWellFormed(t, d, name, isDir, nr, err);
    T.CreateCommutes(logs, t, d, name, isDir, nr, err);
  }

  lemma DirKeys(logs: map<int, seq<Record>>)
    requires T.UniqueNames(logs)
    ensures T.Dirs(logs).Keys == logs.Keys
  {
    hide Entries;
  }

  lemma RemoveShown(t: T.Tree, logs: map<int, seq<Record>>, inodes: set<nat>, d: int, name: Name)
    requires Shows(t, logs, inodes) && d in logs
    ensures d in t.dirs
    ensures var (after, r) := RemoveLogs(logs, d, name);
      var (to, q) := T.Remove(t, d, name);
      && r == q && (r < 0 ==> after == logs && to == t)
      && (r >= 0 ==>
            && name in t.dirs[d]
            && var n := t.dirs[d][name];
              && FindFrom(logs[d], name, 0) < |logs[d]| && n == logs[d][FindFrom(logs[d], name, 0)].nr
              && n >= 0 && n in inodes && n != d
              && d in to.dirs && Shows(to, after, inodes - {n as nat}))
  {
    hide T.WellFormed, RemoveLogs, T.UniqueNames, T.Dirs, NumberOf, FindFrom, T.OnlyDotNames;
    NumberShown(t, logs, d, name);
    T.RemoveWellFormed(t, d, name);
    T.RemoveCommutes(logs, t, d, name);
    RemovedNumber(logs, d, name);
    if T.CanRemove(t, d, name) {
      T.RemovedApart(t, d, name);
      Housed(t);
    }
  }

  lemma Housed(t: T.Tree)
    requires T.WellFormed(t)
    ensures t.homes.Keys <= t.dirs.Keys + t.files && 0 in t.dirs
  {
  }

  lemma RemovedNumber(logs: map<int, seq<Record>>, d: int, name: Name)
    requires d in logs
    ensures var (after, r) := RemoveLogs(logs, d, name);
      && (r < 0 ==> after == logs)
      && (r >= 0 ==>
            NumberOf(logs[d], name) == logs[d][FindFrom(logs[d], name, 0)].nr && FindFrom(logs[d], name, 0) < |logs[d]|)
  {
    hide OnlyDots, Directories.Removed;
  }

  /** struct context, as far as directories go. */
  class Volume {
    const catalog: Catalog
    var cwd: nat

    /** From the blocks of the device up to the tree: the bytes of the directories are logs, and the logs show
        the tree. */
    ghost predicate Valid(t: T.Tree)
      reads this, catalog, catalog.fs, catalog.fs.inodes.Values, catalog.fs.sb.Repr()
    {
      catalog.Valid() && cwd in catalog.logs && Shows(t, catalog.logs, catalog.fs.inodes.Keys)
    }

    /** mktestfs makes the root directory, and testfs starts in it. */
    constructor (catalog: Catalog)
      requires catalog.Valid() && catalog.fs.inodes.Keys == {0}
      requires catalog.logs == map[0 := [Record(0, DOT), Record(0, DOT_DOT)]]
      ensures Valid(T.Root()) && this.catalog == catalog && cwd == 0
    {
      hide Catalog.ValidBut, Shows;
      this.catalog := catalog;
      cwd := 0;
      new;
      assert (this as object) !in catalog.fs.sb.Repr() && (this as object) !in catalog.fs.inodes.Values;
      RootShown();
    }

    /** cmd_create, cmd_mkdir; t is the tree before, and to the tree after. */
    method Create(ghost t: T.Tree, name: Name, isDir: bool) returns (ret: int, ghost nr: int, ghost to: T.Tree)
      requires Valid(t) && ValidName(name)
      modifies catalog`logs, catalog.fs`inodes, catalog.fs.inodes[cwd], catalog.fs.sb, catalog.fs.sb.dev,
               catalog.fs.sb.dev.blocks, catalog.fs.sb.blockFreemap.v, catalog.fs.sb.inodeFreemap.v
      ensures cwd == old(cwd) && old(cwd in catalog.logs && cwd in t.dirs)
      ensures var z, log := old(catalog.At(cwd)), old(catalog.logs[cwd]);
        && (to, ret) == T.Create(t, cwd, name, isDir, nr, CreateError(z, log, name, isDir))
        && (Valid(to) <==> !(name !in t.dirs[cwd] && nr >= 0 && CreateHarms(z, log, name, isDir)))
      ensures catalog.ValidBut({cwd})
      ensures forall o | o in old(catalog.fs.inodes) && o != cwd :: catalog.fs.FileKept(o)
    {
      hide Catalog.ValidBut, SameFile, CreateError, CreateHarms, CreateLogs, T.Create, NumberOf, Shows, Catalog.At,
           FileSystem.FileKept;
      catalog.Opened(cwd);
      ghost var z, log, logs, inodes := catalog.At(cwd), catalog.logs[cwd], catalog.logs, catalog.fs.inodes.Keys;
      var dir := cwd;
      assert (this as object) != catalog.fs.inodes[cwd] && (this as object) !in catalog.fs.sb.Repr();
      ret, nr := catalog.Create(dir, name, isDir);
      CreateShown(t, logs, inodes, dir, name, isDir, nr, CreateError(z, log, name, isDir));
      to := T.Create(t, dir, name, isDir, nr, CreateError(z, log, name, isDir)).0;
      ShownIn(to, catalog.logs, catalog.fs.inodes.Keys, dir);
    }

    /** What is to be removed under a name, if anything, can be. */
    ghost predicate Droppable(t: T.Tree, name: Name)
      reads this, catalog, catalog.fs, catalog.fs.inodes.Values, catalog.fs.sb.Repr()
    {
      cwd in t.dirs && var (_, r) := T.Remove(t, cwd, name);
      r < 0
      || (name in t.dirs[cwd]
          && var n := t.dirs[cwd][name];
             n in catalog.fs.inodes && |catalog.fs.inodes[n].d.direct| == NR_DIRECT_BLOCKS
             && Removable(catalog.fs.sb.dev.blocks[..], catalog.fs.inodes[n].d))
    }

    /** cmd_rm; ok says that the asserts of testfs_remove_inode hold. */
    method Remove(ghost t: T.Tree, name: Name) returns (ret: int, ok: bool, ghost to: T.Tree)
      requires Valid(t)
      modifies catalog`logs, catalog.fs`inodes, catalog.fs.inodes.Values, catalog.fs.sb, catalog.fs.sb.dev,
               catalog.fs.sb.dev.blocks, catalog.fs.sb.blockFreemap.v, catalog.fs.sb.inodeFreemap.v
      ensures cwd == old(cwd) && cwd in t.dirs
      ensures ok ==> Valid(to) && (to, ret) == T.Remove(t, cwd, name)
      ensures ok ==> forall o | o in catalog.fs.inodes && o != cwd :: catalog.fs.FileKept(o)
      ensures ok <==> old(Droppable(t, name))
    {
      hide Catalog.ValidBut, SameFile, RemoveLogs, T.Remove, NumberOf, FindFrom, Shows, Removable,
           FileSystem.FileKept;
      RemoveShown(t, catalog.logs, catalog.fs.inodes.Keys, cwd, name);
      assert (this as object) !in catalog.fs.inodes.Values && (this as object) !in catalog.fs.sb.Repr();
      var dir := cwd;
      ret, ok := catalog.Remove(dir, name);
      to := T.Remove(t, dir, name).0;
      if ok {
        ShownIn(to, catalog.logs, catalog.fs.inodes.Keys, dir);
      }
    }

    /** cmd_cd */
    method Cd(ghost t: T.Tree, name: Name) returns (ret: int)
      requires Valid(t)
      modifies this`cwd
      ensures Valid(t) && old(cwd) in t.dirs
      ensures var here := t.dirs[old(cwd)];
        if name !in here then ret == -ENOENT && cwd == old(cwd)
        else if here[name] !in t.dirs then ret == -ENOTDIR && cwd == old(cwd)
        else ret == 0 && cwd == here[name]
    {
      hide Catalog.ValidBut, Shows, NumberOf;
      Looked(t, catalog.logs, catalog.fs.inodes.Keys, cwd, name);
      ret := catalog.FindDir(cwd, name);
      if ret >= 0 {
        assert (this as object) !in catalog.fs.inodes.Values && (this as object) !in catalog.fs.sb.Repr();
        cwd := ret;
        ret := 0;
      }
    }

    /** cmd_write: the directories stay what they are, and the file system well formed unless a table is
        stranded. */
    method Write(ghost t: T.Tree, name: Name, buf: seq<byte>, start: nat) returns (ret: int, ghost leak: Block)
      requires Valid(t) && |buf| <= INT_MAX
      modifies catalog.fs.inodes.Values, catalog.fs.sb, catalog.fs.sb.dev, catalog.fs.sb.dev.blocks,
               catalog.fs.sb.blockFreemap.v
      ensures cwd == old(cwd) && cwd in t.dirs && catalog.fs.inodes == old(catalog.fs.inodes)
      ensures Valid(t) <==> catalog.fs.Valid()
      ensures name !in t.dirs[cwd] ==> ret == -ENOENT && Valid(t)
      ensures name in t.dirs[cwd] && t.dirs[cwd][name] in t.dirs ==> ret == -EISDIR && Valid(t)
      ensures name in t.dirs[cwd] && t.dirs[cwd][name] !in t.dirs ==>
        var n := t.dirs[cwd][name];
        && n in catalog.fs.inodes && |old(catalog.fs.inodes[n].d.direct)| == NR_DIRECT_BLOCKS
        && old(catalog.fs.inodes[n].sb) == catalog.fs.inodes[n].sb == catalog.fs.sb && catalog.fs.sb.Valid()
        && WriteEnds(old(catalog.fs.inodes[n].Now()), catalog.fs.inodes[n].Now(), catalog.fs.Valid(), start, buf, ret,
                     leak)
        && forall o | o in catalog.fs.inodes && o != n :: catalog.fs.FileKept(o)
    {
      hide Catalog.ValidBut, FileSystem.ValidBut, Shows, NumberOf, WriteEnds, SameFile, SuperBlock.Valid,
           FileSystem.FileKept;
      Looked(t, catalog.logs, catalog.fs.inodes.Keys, cwd, name);
      assert (this as object) !in catalog.fs.inodes.Values && (this as object) !in catalog.fs.sb.Repr();
      var dir := cwd;
      ret, leak := catalog.Write(dir, name, buf, start);
    }
  }

  /** What the name leads to, in the log and in the tree. */
  lemma Looked(t: T.Tree, logs: map<int, seq<Record>>, inodes: set<nat>, d: int, name: Name)
    requires Shows(t, logs, inodes) && d in logs
    ensures d in t.dirs && t.dirs.Keys == logs.Keys
    ensures NumberOf(logs[d], name) == if name in t.dirs[d] then t.dirs[d][name] else -ENOENT
    ensures name in t.dirs[d] ==> t.dirs[d][name] >= 0 && t.dirs[d][name] in inodes
  {
    hide T.UniqueNames, T.Dirs, NumberOf, T.HomeOf, T.Hangs;
    NumberShown(t, logs, d, name);
    DirKeys(logs);
    if name in t.dirs[d] && !Dots(name) {
      assert T.HomeOf(t, t.dirs[d][name], d, name);
      HomeThere(t, t.dirs[d][name], d, name);
    } else if name in t.dirs[d] {
      ParentThere(t, d);
    }
  }

  lemma HomeThere(t: T.Tree, n: int, d: int, name: Name)
    requires T.WellFormed(t) && T.HomeOf(t, n, d, name)
    ensures n in t.dirs || n in t.files
  {
  }

  lemma ParentThere(t: T.Tree, d: int)
    requires T.WellFormed(t) && d in t.dirs
    ensures T.Parent(t, d) in t.dirs
  {
    if d in t.homes {
      assert T.Hangs(t, d);
    }
  }

  lemma ShownIn(t: T.Tree, logs: map<int, seq<Record>>, inodes: set<nat>, d: int)
    requires Shows(t, logs, inodes) && d in t.dirs
    ensures d in logs
  {
    hide T.WellFormed, Entries;
  }

  lemma RootShown()
    ensures Shows(T.Root(), map[0 := [Record(0, DOT), Record(0, DOT_DOT)]], {0})
  {
    var logs := map[0 := [Record(0, DOT), Record(0, DOT_DOT)]];
    assert T.UniqueNames(logs) && DOT != DOT_DOT;
    assert T.Dirs(logs) == map[0 := Entries(logs[0])];
    EntryAt(logs[0], 0);
    EntryAt(logs[0], 1);
    assert Entries(logs[0]) == T.EmptyDir(0, 0);
    T.RootWellFormed();
    hide T.WellFormed, T.Dirs, T.UniqueNames;
  }
}
