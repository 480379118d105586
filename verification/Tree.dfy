/** The directory tree (fs/dir.c): what create, mkdir, rm and cd do to the entries of all directories, and
    why pwd and the recursive ls come to an end. */
module Trees {
  import opened Common
  import opened Directories

  /** Where an inode other than the root hangs, and how deep. */
  datatype Home = Home(dir: int, name: Name, depth: nat)

  /** The entries of each directory (Directories.Entries of its log), by inode number; the other inodes
      are files. homes is not stored anywhere: it is what the entries amount to. */
  datatype Tree = Tree(dirs: map<int, map<Name, int>>, files: set<int>, homes: map<int, Home>)

  function Depth(t: Tree, n: int): nat {
    if n in t.homes then t.homes[n].depth else 0
  }

  function Parent(t: Tree, n: int): int {
    if n in t.homes then t.homes[n].dir else n
  }

  /** Inode 0 is the root; every other inode hangs in exactly one directory under one name, closer to the
      root; dot and dot-dot lead to the directory itself and to the one it hangs in. */
  ghost predicate WellFormed(t: Tree) {
    && 0 in t.dirs && t.dirs.Keys !! t.files
    && t.homes.Keys == t.dirs.Keys + t.files - {0}
    && (forall d | d in t.dirs ::
          && DOT in t.dirs[d] && t.dirs[d][DOT] == d
          && DOT_DOT in t.dirs[d] && t.dirs[d][DOT_DOT] == Parent(t, d))
    && (forall n | n in t.homes :: Hangs(t, n))
    && (forall d, name | d in t.dirs && name in t.dirs[d] && !Dots(name) :: HomeOf(t, t.dirs[d][name], d, name))
  }

  ghost predicate Hangs(t: Tree, n: int)
    requires n in t.homes
  {
    var h := t.homes[n];
    && h.dir in t.dirs && !Dots(h.name) && h.name in t.dirs[h.dir] && t.dirs[h.dir][h.name] == n
    && h.depth == Depth(t, h.dir) + 1
  }

  predicate HomeOf(t: Tree, n: int, d: int, name: Name) {
    n in t.homes && t.homes[n].dir == d && t.homes[n].name == name
  }

  function EmptyDir(n: int, up: int): map<Name, int> {
    map[DOT := n, DOT_DOT := up]
  }

  /** testfs_make_root_dir, on a device without inodes. */
  function Root(): Tree {
    Tree(map[0 := EmptyDir(0, 0)], {}, map[])
  }

  /** testfs_create_file_or_dir; nr is the number of the new inode, negative when there is none. When an entry
      cannot be written, and nothing is broken by that, err says so and the inode is removed again. */
  function Create(t: Tree, d: int, name: Name, isDir: bool, nr: int, err: int): (Tree, int)
    requires d in t.dirs
  {
    if name in t.dirs[d] then (t, -EEXIST)
    else if nr < 0 then (t, nr)
    else if err < 0 then (t, err)
    else
      var dirs := t.dirs[d := t.dirs[d][name := nr]];
      (Tree(if isDir then dirs[nr := EmptyDir(nr, d)] else dirs, if isDir then t.files else t.files + {nr},
            t.homes[nr := Home(d, name, Depth(t, d) + 1)]), 0)
  }

  predicate OnlyDotNames(entries: map<Name, int>) {
    forall name | name in entries :: Dots(name)
  }

  /** cmd_rm */
  function Remove(t: Tree, d: int, name: Name): (Tree, int)
    requires d in t.dirs
  {
    if Dots(name) then (t, -EINVAL)
    else if name !in t.dirs[d] then (t, -ENOENT)
    else
      var n := t.dirs[d][name];
      if n in t.dirs && !OnlyDotNames(t.dirs[n]) then (t, -ENOTEMPTY)
      else (Tree(t.dirs[d := t.dirs[d] - {name}] - {n}, t.files - {n}, t.homes - {n}), 0)
  }

  lemma RootWellFormed()
    ensures WellFormed(Root())
  {
  }

  lemma CreateWellFormed(t: Tree, d: int, name: Name, isDir: bool, nr: int, err: int)
    requires WellFormed(t) && d in t.dirs && (nr >= 0 ==> nr !in t.dirs && nr !in t.files)
    ensures WellFormed(Create(t, d, name, isDir, nr, err).0)
  {
    if name !in t.dirs[d] && nr >= 0 && err >= 0 {
      CreateHangs(t, d, name, isDir, nr);
      CreateHomes(t, d, name, isDir, nr);
      CreateDots(t, d, name, isDir, nr);
      hide Hangs, HomeOf, Dots;
    }
  }

  lemma CreateDots(t: Tree, d: int, name: Name, isDir: bool, nr: int)
    requires WellFormed(t) && d in t.dirs && nr !in t.dirs && nr !in t.files && name !in t.dirs[d] && nr >= 0
    ensures var s := Create(t, d, name, isDir, nr, 0).0;
      && (forall c | c in s.dirs ::
            DOT in s.dirs[c] && s.dirs[c][DOT] == c && DOT_DOT in s.dirs[c] && s.dirs[c][DOT_DOT] == Parent(s, c))
      && 0 in s.dirs && s.dirs.Keys !! s.files && s.homes.Keys == s.dirs.Keys + s.files - {0}
  {
    hide Hangs, HomeOf;
    assert !Dots(name);
  }

  lemma CreateHangs(t: Tree, d: int, name: Name, isDir: bool, nr: int)
    requires WellFormed(t) && d in t.dirs && nr !in t.dirs && nr !in t.files && name !in t.dirs[d] && nr >= 0
    ensures var s := Create(t, d, name, isDir, nr, 0).0; forall n | n in s.homes :: Hangs(s, n)
  {
    var s := Create(t, d, name, isDir, nr, 0).0;
    forall n | n in s.homes ensures Hangs(s, n) {
      assert n in t.homes ==> Hangs(t, n);
    }
  }

  lemma CreateHomes(t: Tree, d: int, name: Name, isDir: bool, nr: int)
    requires WellFormed(t) && d in t.dirs && nr !in t.dirs && nr !in t.files && name !in t.dirs[d] && nr >= 0
    ensures var s := Create(t, d, name, isDir, nr, 0).0;
      forall c, x | c in s.dirs && x in s.dirs[c] && !Dots(x) :: HomeOf(s, s.dirs[c][x], c, x)
  {
    var s := Create(t, d, name, isDir, nr, 0).0;
    hide Hangs;
    forall c, x | c in s.dirs && x in s.dirs[c] && !Dots(x) ensures HomeOf(s, s.dirs[c][x], c, x) {
      assert c != nr;
      assert c in t.dirs && x in t.dirs[c] ==> HomeOf(t, t.dirs[c][x], c, x);
    }
  }

  /** An entry of d that may be removed: a file, or a directory with no more than its dots. */
  ghost predicate CanRemove(t: Tree, d: int, name: Name) {
    && d in t.dirs && !Dots(name) && name in t.dirs[d]
    && (t.dirs[d][name] in t.dirs ==> OnlyDotNames(t.dirs[t.dirs[d][name]]))
  }

  lemma RemoveWellFormed(t: Tree, d: int, name: Name)
    requires WellFormed(t) && d in t.dirs
    ensures WellFormed(Remove(t, d, name).0)
  {
    if CanRemove(t, d, name) {
      RemovedApart(t, d, name);
      RemoveHangs(t, d, name);
      RemoveHomes(t, d, name);
      RemoveDots(t, d, name);
      hide Hangs, HomeOf, Dots, OnlyDotNames;
    }
  }

  lemma RemovedApart(t: Tree, d: int, name: Name)
    requires WellFormed(t) && CanRemove(t, d, name)
    ensures var n := t.dirs[d][name]; n != d && n != 0 && n in t.homes && HomeOf(t, n, d, name)
    ensures forall m | m in t.homes :: t.homes[m].dir != t.dirs[d][name]
  {
    var n := t.dirs[d][name];
    assert HomeOf(t, n, d, name) && Hangs(t, n);
    forall m | m in t.homes ensures t.homes[m].dir != n {
      assert Hangs(t, m);
    }
  }

  lemma RemoveHangs(t: Tree, d: int, name: Name)
    requires WellFormed(t) && CanRemove(t, d, name)
    ensures var s := Remove(t, d, name).0; forall m | m in s.homes :: Hangs(s, m)
  {
    RemovedApart(t, d, name);
    var s := Remove(t, d, name).0;
    forall m | m in s.homes ensures Hangs(s, m) {
      assert Hangs(t, m);
    }
  }

  lemma RemoveHomes(t: Tree, d: int, name: Name)
    requires WellFormed(t) && CanRemove(t, d, name)
    ensures var s := Remove(t, d, name).0;
      forall c, x | c in s.dirs && x in s.dirs[c] && !Dots(x) :: HomeOf(s, s.dirs[c][x], c, x)
  {
    RemovedApart(t, d, name);
    var s := Remove(t, d, name).0;
    hide Hangs;
    forall c, x | c in s.dirs && x in s.dirs[c] && !Dots(x) ensures HomeOf(s, s.dirs[c][x], c, x) {
      assert HomeOf(t, t.dirs[c][x], c, x);
    }
  }

  lemma RemoveDots(t: Tree, d: int, name: Name)
    requires WellFormed(t) && CanRemove(t, d, name)
    ensures var s := Remove(t, d, name).0;
      && (forall c | c in s.dirs ::
            DOT in s.dirs[c] && s.dirs[c][DOT] == c && DOT_DOT in s.dirs[c] && s.dirs[c][DOT_DOT] == Parent(s, c))
      && 0 in s.dirs && s.dirs.Keys !! s.files && s.homes.Keys == s.dirs.Keys + s.files - {0}
  {
    RemovedApart(t, d, name);
    hide Hangs, HomeOf, OnlyDotNames;
  }

  /** An entry is removed exactly when it is neither dot nor dot-dot, and is a file or a directory in which
      there is nothing but these two; no other entry changes. */
  lemma RemoveLaw(t: Tree, d: int, name: Name)
    requires WellFormed(t) && d in t.dirs
    ensures var (s, r) := Remove(t, d, name);
      && (r == 0 <==>
            && name != [46] && name != [46, 46] && name in t.dirs[d]
            && (t.dirs[d][name] in t.dirs ==> t.dirs[t.dirs[d][name]].Keys == {[46], [46, 46]}))
      && (r != 0 ==> s == t)
      && (r == 0 ==>
            && s.dirs.Keys == t.dirs.Keys - {t.dirs[d][name]} && s.files == t.files - {t.dirs[d][name]}
            && forall c | c in s.dirs :: s.dirs[c] == if c == d then t.dirs[c] - {name} else t.dirs[c])
  {
    if CanRemove(t, d, name) {
      RemovedApart(t, d, name);
    }
    hide Hangs, HomeOf;
  }

  /** Whatever has just been made can be removed, and then everything is as it was. */
  lemma RemoveUndoes(t: Tree, d: int, name: Name, isDir: bool, nr: int, err: int)
    requires WellFormed(t) && d in t.dirs && nr !in t.dirs && nr !in t.files
    requires Create(t, d, name, isDir, nr, err).1 == 0
    ensures Remove(Create(t, d, name, isDir, nr, err).0, d, name) == (t, 0)
  {
    hide Hangs, HomeOf;
    assert !Dots(name);
    var (s, r) := Create(t, d, name, isDir, nr, err);
    assert s.dirs[d] - {name} == t.dirs[d];
    assert s.dirs[d := t.dirs[d]] - {nr} == t.dirs;
    assert s.files - {nr} == t.files && s.homes - {nr} == t.homes;
  }

  /** The entry asserted at fs/dir.c:259: the parent of a directory has one for it, and only one. */
  lemma ParentEntry(t: Tree, n: int)
    requires WellFormed(t) && n in t.dirs && n != 0
    ensures var p := t.dirs[n][DOT_DOT];
      && p in t.dirs && Depth(t, p) < Depth(t, n)
      && t.homes[n].name in t.dirs[p] && t.dirs[p][t.homes[n].name] == n && !Dots(t.homes[n].name)
      && forall name | name in t.dirs[p] && t.dirs[p][name] == n :: name == t.homes[n].name
  {
    assert Hangs(t, n);
    var p := t.dirs[n][DOT_DOT];
    if p != 0 {
      assert Hangs(t, p);
    }
    forall name | name in t.dirs[p] && t.dirs[p][name] == n ensures name == t.homes[n].name {
      assert !Dots(name);
      assert HomeOf(t, n, p, name);
    }
  }

  /** testfs_pwd: the names on the way down to n. It goes up by dot-dot until that leads nowhere else, and
      looks in each parent for the entry it came from. */
  ghost function Pwd(t: Tree, n: int): seq<Name>
    requires WellFormed(t) && n in t.dirs
    decreases Depth(t, n)
  {
    var p := t.dirs[n][DOT_DOT];
    if p == n then []
    else
      ParentEntry(t, n);
      var name :| name in t.dirs[p] && t.dirs[p][name] == n;
      Pwd(t, p) + [name]
  }

  /** cmd_cd along a path; -1 when an entry is missing or is not a directory. */
  function Walk(t: Tree, d: int, path: seq<Name>): int {
    if path == [] then d
    else
      var up := Walk(t, d, path[..|path| - 1]);
      var name := path[|path| - 1];
      if up in t.dirs && name in t.dirs[up] && t.dirs[up][name] in t.dirs then t.dirs[up][name] else -1
  }

  /** What pwd prints leads from the root back to where it was printed. */
  lemma {:induction false} PwdLeadsBack(t: Tree, n: int)
    requires WellFormed(t) && n in t.dirs
    ensures Walk(t, 0, Pwd(t, n)) == n && |Pwd(t, n)| == Depth(t, n)
    ensures forall name | name in Pwd(t, n) :: !Dots(name)
    decreases Depth(t, n)
  {
    if n != 0 {
      ParentEntry(t, n);
      assert Hangs(t, n);
      var p := t.dirs[n][DOT_DOT];
      PwdLeadsBack(t, p);
      var path := Pwd(t, n);
      assert path[..|path| - 1] == Pwd(t, p);
    }
  }

  /** n and the directories above it. */
  ghost function Above(t: Tree, n: int): set<int>
    requires WellFormed(t) && (n == 0 || n in t.homes)
    decreases Depth(t, n)
  {
    if n == 0 then {0}
    else
      assert Hangs(t, n);
      Above(t, t.homes[n].dir) + {n}
  }

  lemma {:induction false} AboveSize(t: Tree, n: int)
    requires WellFormed(t) && (n == 0 || n in t.homes)
    ensures |Above(t, n)| == Depth(t, n) + 1 && n in Above(t, n) && Above(t, n) <= t.dirs.Keys + {n}
    ensures forall a | a in Above(t, n) :: Depth(t, a) <= Depth(t, n)
    decreases Depth(t, n)
  {
    if n != 0 {
      assert Hangs(t, n);
      AboveSize(t, t.homes[n].dir);
    }
  }

  /** No directory is deeper than there are directories. */
  lemma DepthBound(t: Tree, n: int)
    requires WellFormed(t) && n in t.dirs
    ensures Depth(t, n) < |t.dirs|
  {
    AboveSize(t, n);
    Smaller(Above(t, n), t.dirs.Keys);
  }

  lemma Smaller(a: set<int>, b: set<int>)
    requires a <= b
    ensures |a| <= |b|
  {
    assert b == a + (b - a);
  }

  ghost function Children(t: Tree, d: int): set<int>
    requires d in t.dirs
  {
    set name | name in t.dirs[d] && !Dots(name) :: t.dirs[d][name]
  }

  lemma ChildHome(t: Tree, d: int, c: int)
    requires WellFormed(t) && d in t.dirs
    ensures c in Children(t, d) <==> c in t.homes && t.homes[c].dir == d
    ensures c in Children(t, d) ==> Depth(t, c) == Depth(t, d) + 1
  {
    if c in Children(t, d) {
      var name :| name in t.dirs[d] && !Dots(name) && t.dirs[d][name] == c;
      assert HomeOf(t, c, d, name) && Hangs(t, c);
    }
    if c in t.homes && t.homes[c].dir == d {
      assert Hangs(t, c);
      assert t.dirs[d][t.homes[c].name] == c;
    }
  }

  /** The recursive testfs_ls of directory d comes to inode n. */
  ghost predicate Lists(t: Tree, d: int, n: int)
    requires WellFormed(t) && d in t.dirs
    decreases |t.dirs| - Depth(t, d)
  {
    n in Children(t, d) ||
    exists c :: c in Children(t, d) && c in t.dirs && (ChildHome(t, d, c); DepthBound(t, c); Lists(t, c, n))
  }

  /** The recursive ls ends, and it comes to exactly the inodes that hang below the directory. */
  lemma {:induction false} ListsBelow(t: Tree, d: int, n: int)
    requires WellFormed(t) && d in t.dirs && (n == 0 || n in t.homes)
    ensures Lists(t, d, n) <==> n != d && d in Above(t, n)
    decreases |t.dirs| - Depth(t, d)
  {
    ChildHome(t, d, n);
    AboveSize(t, n);
    hide WellFormed, Children, Above;
    if Lists(t, d, n) && n !in Children(t, d) {
      var c :| c in Children(t, d) && c in t.dirs && (ChildHome(t, d, c); DepthBound(t, c); Lists(t, c, n));
      ChildHome(t, d, c);
      DepthBound(t, c);
      ListsBelow(t, c, n);
      AboveUp(t, c, n);
    } else if n in Children(t, d) {
      AboveUp(t, n, n);
    }
    if n != d && d in Above(t, n) {
      var c := AboveDown(t, d, n);
      ChildHome(t, d, c);
      if c != n {
        DepthBound(t, c);
        ListsBelow(t, c, n);
      }
    }
  }

  /** What is above n has what is above it above n too. */
  lemma {:induction false} AboveUp(t: Tree, c: int, n: int)
    requires WellFormed(t) && c in t.homes && (n == 0 || n in t.homes) && c in Above(t, n)
    ensures t.homes[c].dir in Above(t, n) && n != t.homes[c].dir
    decreases Depth(t, n)
  {
    assert Hangs(t, c);
    AboveSize(t, n);
    AboveSize(t, t.homes[c].dir);
    if n != 0 && n != c {
      assert Hangs(t, n);
      AboveUp(t, c, t.homes[n].dir);
    }
  }

  /** Below d on the way to n there is a child of d. */
  lemma {:induction false} AboveDown(t: Tree, d: int, n: int) returns (c: int)
    requires WellFormed(t) && d in t.dirs && (n == 0 || n in t.homes) && d in Above(t, n) && n != d
    ensures c in t.homes && t.homes[c].dir == d && c in Above(t, n)
    decreases Depth(t, n)
  {
    assert Hangs(t, n);
    if t.homes[n].dir == d {
      c := n;
    } else {
      c := AboveDown(t, d, t.homes[n].dir);
    }
  }

  /** A user at a working directory. */
  datatype Session = Session(t: Tree, cwd: int)

  datatype Command = Make(name: Name, isDir: bool, nr: int, err: int) | Rm(name: Name) | Cd(name: Name)

  /** The number of a new inode is one that no inode has, or negative (FileSystem.CreateInode). */
  predicate Offered(s: Session, c: Command) {
    c.Make? && c.nr >= 0 ==> c.nr !in s.t.dirs && c.nr !in s.t.files
  }

  function Do(s: Session, c: Command): Session
    requires s.cwd in s.t.dirs
  {
    match c
    case Make(name, isDir, nr, err) => s.(t := Create(s.t, s.cwd, name, isDir, nr, err).0)
    case Rm(name) => s.(t := Remove(s.t, s.cwd, name).0)
    case Cd(name) =>
      if name in s.t.dirs[s.cwd] && s.t.dirs[s.cwd][name] in s.t.dirs then s.(cwd := s.t.dirs[s.cwd][name]) else s
  }

  /** No command breaks the tree or removes the directory it is given in. */
  lemma DoWellFormed(s: Session, c: Command)
    requires WellFormed(s.t) && s.cwd in s.t.dirs && Offered(s, c)
    ensures WellFormed(Do(s, c).t) && Do(s, c).cwd in Do(s, c).t.dirs
  {
    match c
    case Make(name, isDir, nr, err) => CreateWellFormed(s.t, s.cwd, name, isDir, nr, err);
    case Rm(name) =>
      RemoveWellFormed(s.t, s.cwd, name);
      if !Dots(name) && name in s.t.dirs[s.cwd] {
        assert HomeOf(s.t, s.t.dirs[s.cwd][name], s.cwd, name) && Hangs(s.t, s.t.dirs[s.cwd][name]);
      }
    case Cd(name) =>
  }

  predicate Legal(s: Session, run: seq<Command>)
    decreases |run|
  {
    run == [] || (s.cwd in s.t.dirs && Offered(s, run[0]) && Legal(Do(s, run[0]), run[1..]))
  }

  function Run(s: Session, run: seq<Command>): Session
    requires Legal(s, run)
    decreases |run|
  {
    if run == [] then s else Run(Do(s, run[0]), run[1..])
  }

  /** After any commands pwd works, and leads back to where it was given. */
  lemma {:induction false} PwdAlwaysWorks(s: Session, run: seq<Command>)
    requires WellFormed(s.t) && s.cwd in s.t.dirs && Legal(s, run)
    ensures var to := Run(s, run);
      WellFormed(to.t) && to.cwd in to.t.dirs && Walk(to.t, 0, Pwd(to.t, to.cwd)) == to.cwd
    decreases |run|
  {
    if run == [] {
      PwdLeadsBack(s.t, s.cwd);
    } else {
      DoWellFormed(s, run[0]);
      hide WellFormed, Do, Walk;
      PwdAlwaysWorks(Do(s, run[0]), run[1..]);
    }
  }

  /** What pwd prints after cd: one name more, one less, or the same. */
  lemma CdLaw(s: Session, name: Name)
    requires WellFormed(s.t) && s.cwd in s.t.dirs
    ensures var to := Do(s, Cd(name));
      && to.t == s.t && to.cwd in s.t.dirs
      && var was, now := Pwd(s.t, s.cwd), Pwd(s.t, to.cwd);
         if name == [46] then now == was
         else if name == [46, 46] then now == if was == [] then [] else was[..|was| - 1]
         else if name in s.t.dirs[s.cwd] && s.t.dirs[s.cwd][name] in s.t.dirs then now == was + [name]
         else to == s
  {
    var to := Do(s, Cd(name));
    PwdUp(s.t, s.cwd);
    if name in s.t.dirs[s.cwd] && to.cwd in s.t.dirs && !Dots(name) {
      PwdUp(s.t, to.cwd);
      assert HomeOf(s.t, s.t.dirs[s.cwd][name], s.cwd, name);
    }
    hide Hangs, HomeOf;
  }

  lemma PwdUp(t: Tree, n: int)
    requires WellFormed(t) && n in t.dirs
    ensures n == 0 ==> Pwd(t, n) == [] && t.dirs[n][DOT_DOT] == n
    ensures n != 0 ==>
              && n in t.homes && t.dirs[n][DOT_DOT] == t.homes[n].dir && t.homes[n].dir in t.dirs
              && Pwd(t, n) == Pwd(t, t.homes[n].dir) + [t.homes[n].name]
  {
    if n != 0 {
      ParentEntry(t, n);
      assert Hangs(t, n);
    }
  }

  /** A directory that has just been made can be entered, and removed again from outside. */
  lemma MakeLaw(s: Session, name: Name, nr: int)
    requires WellFormed(s.t) && s.cwd in s.t.dirs && name !in s.t.dirs[s.cwd]
    requires nr >= 0 && nr !in s.t.dirs && nr !in s.t.files
    ensures var to := Do(s, Make(name, true, nr, 0));
      && to.cwd in to.t.dirs && nr in to.t.dirs && Do(to, Cd(name)) == Session(to.t, nr) && Do(to, Rm(name)) == s
      && WellFormed(to.t) && Pwd(to.t, nr) == Pwd(to.t, s.cwd) + [name]
  {
    var to := Do(s, Make(name, true, nr, 0));
    RemoveUndoes(s.t, s.cwd, name, true, nr, 0);
    DoWellFormed(s, Make(name, true, nr, 0));
    assert to.t.dirs[s.cwd][name] == nr && nr in to.t.dirs;
    assert !Dots(name);
    CdLaw(to, name);
    hide WellFormed;
  }

  // ---------- from the logs of the directories to the tree ----------

  ghost predicate UniqueNames(logs: map<int, seq<Record>>) {
    forall d | d in logs :: UniqueLive(logs[d])
  }

  ghost function Dirs(logs: map<int, seq<Record>>): map<int, map<Name, int>>
    requires UniqueNames(logs)
  {
    map d | d in logs :: Entries(logs[d])
  }

  lemma EmptyDirLog(n: int, up: int)
    requires n >= 0 && up >= 0
    ensures var log := Added(Added([], DOT, n).0, DOT_DOT, up).0; UniqueLive(log) && Entries(log) == EmptyDir(n, up)
  {
    assert Entries([]) == map[];
    AddEntries([], DOT, n);
    assert DOT != DOT_DOT;
    AddEntries(Added([], DOT, n).0, DOT_DOT, up);
    assert map[][DOT := n][DOT_DOT := up] == EmptyDir(n, up);
  }

  /** What create does to the logs of the directories is what Create does to the tree. */
  lemma CreateCommutes(logs: map<int, seq<Record>>, t: Tree, d: int, name: Name, isDir: bool, nr: int, err: int)
    requires UniqueNames(logs) && t.dirs == Dirs(logs) && d in logs && d >= 0 && nr !in logs
    ensures var (after, r) := CreateLogs(logs, d, name, isDir, nr, err);
      var (to, q) := Create(t, d, name, isDir, nr, err);
      r == q && UniqueNames(after) && to.dirs == Dirs(after)
  {
    hide Entries, Added, NumberOf, UniqueLive;
    NumberInEntries(logs[d], name);
    if name !in t.dirs[d] && nr >= 0 && err >= 0 {
      AddEntries(logs[d], name, nr);
      EmptyDirLog(nr, d);
    }
  }

  lemma DotsOnly(log: seq<Record>)
    requires UniqueLive(log)
    ensures OnlyDots(log) <==> OnlyDotNames(Entries(log))
  {
    forall i | 0 <= i < |log| && Live(log[i]) ensures log[i].name in Entries(log) {
      EntryAt(log, i);
    }
  }

  /** What rm does to them is what Remove does to it. */
  lemma RemoveCommutes(logs: map<int, seq<Record>>, t: Tree, d: int, name: Name)
    requires UniqueNames(logs) && t.dirs == Dirs(logs) && d in logs
    ensures var (after, r) := RemoveLogs(logs, d, name);
      var (to, q) := Remove(t, d, name);
      r == q && UniqueNames(after) && to.dirs == Dirs(after)
  {
    hide Entries, UniqueLive, OnlyDots, OnlyDotNames, Directories.Removed, Live;
    var i := FindFrom(logs[d], name, 0);
    NumberInEntries(logs[d], name);
    if i < |logs[d]| {
      EntryAt(logs[d], i);
      RemoveEntries(logs[d], i);
      var n := logs[d][i].nr;
      if n in logs {
        DotsOnly(logs[n]);
      }
    }
  }
}
