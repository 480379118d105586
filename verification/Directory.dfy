/** Directories (fs/dir.c): a log of records in the bytes of a file. A removed entry leaves a tombstone,
    which an entry whose name is as long may take over. */
module Directories {
  import opened Common
  import opened BlockMap
  import opened FileSpec

  /** A name without its closing zero. */
  type Name = seq<byte>

  /** The names . and .. */
  const DOT: Name := [46]
  const DOT_DOT: Name := [46, 46]

  const HEADER := 8

  /** A record; its length field counts the closing zero of the name. */
  datatype Record = Record(nr: int, name: Name)

  predicate ValidName(name: Name) {
    0 !in name && |name| + 1 <= INT_MAX - HEADER
  }

  predicate ValidRecord(r: Record) {
    ValidName(r.name) && -1 <= r.nr <= INT_MAX
  }

  predicate ValidLog(log: seq<Record>) {
    forall i | 0 <= i < |log| :: ValidRecord(log[i])
  }

  /** A 32-bit integer, little endian. */
  function Pack(v: int): (s: seq<byte>)
    ensures |s| == 4
  {
    [Byte(v), Byte(v / 256), Byte(v / 65536), Byte(v / 16777216)]
  }

  function Value(s: seq<byte>): int
    requires |s| == 4
  {
    Unpack(s[0], s[1], s[2], s[3])
  }

  lemma PackValue(v: int)
    requires -1 <= v <= INT_MAX
    ensures Value(Pack(v)) == v
  {
    if v >= 0 {
      PackUnpack(v);
    } else {
      assert Byte(-1) == 255;
    }
  }

  function Encoded(r: Record): (s: seq<byte>)
    ensures |s| == HEADER + |r.name| + 1
  {
    Pack(|r.name| + 1) + Pack(r.nr) + r.name + [0]
  }

  function Bytes(log: seq<Record>): seq<byte> {
    if log == [] then [] else Bytes(log[..|log| - 1]) + Encoded(log[|log| - 1])
  }

  /** Where the i-th record starts; where the log ends for i == |log|. */
  function Offset(log: seq<Record>, i: nat): nat
    requires i <= |log|
  {
    |Bytes(log[..i])|
  }

  lemma OffsetStep(log: seq<Record>, i: nat)
    requires i < |log|
    ensures Offset(log, i + 1) == Offset(log, i) + |Encoded(log[i])|
  {
    assert log[..i + 1][..i] == log[..i];
  }

  /** The bytes of the i-th record are where the record starts, and everything else is in front or behind. */
  lemma {:induction false} RecordAt(log: seq<Record>, i: nat)
    requires i < |log|
    ensures Offset(log, i) + |Encoded(log[i])| <= |Bytes(log)|
    ensures Bytes(log)[Offset(log, i)..Offset(log, i) + |Encoded(log[i])|] == Encoded(log[i])
    decreases |log|
  {
    hide Encoded;
    var n := |log| - 1;
    var front := log[..n];
    if i < n {
      RecordAt(front, i);
      assert front[..i] == log[..i] && front[i] == log[i];
      var o, e := Offset(log, i), Encoded(log[i]);
      assert Bytes(log)[o..o + |e|] == Bytes(front)[o..o + |e|];
    }
  }

  /** Writing a record over one of the same length changes that record and no other. */
  lemma {:induction false} Overwrite(log: seq<Record>, i: nat, r: Record)
    requires i < |log| && |r.name| == |log[i].name|
    ensures Spliced(Bytes(log), Offset(log, i), Encoded(r)) == Bytes(log[i := r])
    decreases |log|
  {
    hide Encoded;
    var n := |log| - 1;
    var front, e := log[..n], Encoded(r);
    if i == n {
      assert log[i := r][..n] == front;
      SplicedEnd(Bytes(front), Encoded(log[n]), e);
    } else {
      Overwrite(front, i, r);
      RecordAt(front, i);
      assert log[i := r][..n] == front[i := r];
      assert front[..i] == log[..i];
      var o := Offset(log, i);
      SplicedFront(Bytes(front), Encoded(log[n]), o, e);
    }
  }

  lemma SplicedFront(a: seq<byte>, b: seq<byte>, o: nat, e: seq<byte>)
    requires o + |e| <= |a|
    ensures Spliced(a + b, o, e) == Spliced(a, o, e) + b
  {
  }

  /** Writing a record at the end adds it to the log. */
  lemma AtEnd(log: seq<Record>, r: Record)
    ensures Spliced(Bytes(log), |Bytes(log)|, Encoded(r)) == Bytes(log + [r])
  {
    hide Encoded, Spliced;
    assert (log + [r])[..|log|] == log;
    SplicedEnd(Bytes(log), [], Encoded(r));
    assert Bytes(log) + [] == Bytes(log);
  }

  /** A write of no more than what follows a replaces what follows. */
  lemma SplicedEnd(a: seq<byte>, b: seq<byte>, e: seq<byte>)
    requires e != [] && |b| <= |e|
    ensures Spliced(a + b, |a|, e) == a + e
  {
    var s := Spliced(a + b, |a|, e);
    forall k | 0 <= k < |a| + |e| ensures s[k] == (a + e)[k] {
    }
  }

  /** What testfs_next_dirent reads at an offset is a record again. */
  lemma Decoded(data: seq<byte>, offset: nat, r: Record)
    requires ValidRecord(r) && offset + |Encoded(r)| <= |data| && data[offset..offset + |Encoded(r)|] == Encoded(r)
    ensures offset + HEADER <= |data|
    ensures Value(data[offset..offset + 4]) == |r.name| + 1 && Value(data[offset + 4..offset + HEADER]) == r.nr
    ensures data[offset + HEADER..offset + HEADER + |r.name|] == r.name
  {
    var e, n := Encoded(r), |r.name|;
    PackValue(n + 1);
    PackValue(r.nr);
    Parts(r);
    hide Value, Pack, Encoded;
    SliceOf(data, offset, e, 0, 4);
    SliceOf(data, offset, e, 4, HEADER);
    SliceOf(data, offset, e, HEADER, HEADER + n);
  }

  lemma SliceOf(data: seq<byte>, o: nat, e: seq<byte>, a: nat, b: nat)
    requires o + |e| <= |data| && data[o..o + |e|] == e && a <= b <= |e|
    ensures data[o + a..o + b] == e[a..b]
  {
    forall k | 0 <= k < b - a ensures data[o + a..o + b][k] == e[a..b][k] {
      assert data[o..o + |e|][a + k] == data[o + a + k];
    }
  }

  lemma Parts(r: Record)
    ensures var e := Encoded(r);
      e[0..4] == Pack(|r.name| + 1) && e[4..HEADER] == Pack(r.nr) && e[HEADER..HEADER + |r.name|] == r.name
  {
    hide Pack;
    var a, b, e := Pack(|r.name| + 1), Pack(r.nr), Encoded(r);
    assert e == a + (b + (r.name + [0]));
    assert e == (a + b) + (r.name + [0]);
    assert (a + b)[4..HEADER] == b;
  }

  // ---------- what the log means ----------

  predicate Live(r: Record) {
    r.nr >= 0
  }

  predicate UniqueLive(log: seq<Record>) {
    forall i, j | 0 <= i < j < |log| && Live(log[i]) && Live(log[j]) :: log[i].name != log[j].name
  }

  /** The directory as its users see it. */
  ghost function Entries(log: seq<Record>): map<Name, int>
    requires UniqueLive(log)
  {
    map i | 0 <= i < |log| && Live(log[i]) :: log[i].name := log[i].nr
  }

  /** The first record from i on that is live and has the name, or the length. */
  function FindFrom(log: seq<Record>, name: Name, i: nat): (r: nat)
    requires i <= |log|
    ensures i <= r <= |log| && forall j | i <= j < r :: !(Live(log[j]) && log[j].name == name)
    ensures r < |log| ==> Live(log[r]) && log[r].name == name
    decreases |log| - i
  {
    if i == |log| || (Live(log[i]) && log[i].name == name) then i else FindFrom(log, name, i + 1)
  }

  /** Where the scan of testfs_add_dirent stops: at the name, or at a tombstone as long. */
  predicate Stops(r: Record, name: Name) {
    if Live(r) then r.name == name else |r.name| == |name|
  }

  function StopFrom(log: seq<Record>, name: Name, i: nat): (r: nat)
    requires i <= |log|
    ensures i <= r <= |log| && (forall j | i <= j < r :: !Stops(log[j], name)) && (r < |log| ==> Stops(log[r], name))
    decreases |log| - i
  {
    if i == |log| || Stops(log[i], name) then i else StopFrom(log, name, i + 1)
  }

  function NumberOf(log: seq<Record>, name: Name): int {
    var i := FindFrom(log, name, 0);
    if i < |log| then log[i].nr else -ENOENT
  }

  function Added(log: seq<Record>, name: Name, nr: int): (seq<Record>, int) {
    var i := StopFrom(log, name, 0);
    if i == |log| then (log + [Record(nr, name)], HEADER + |name| + 1)
    else if Live(log[i]) then (log, -EEXIST)
    else (log[i := Record(nr, name)], HEADER + |name| + 1)
  }

  function Removed(log: seq<Record>, i: nat): seq<Record>
    requires i < |log|
  {
    log[i := log[i].(nr := -1)]
  }

  predicate OnlyDots(log: seq<Record>) {
    forall i | 0 <= i < |log| && Live(log[i]) :: log[i].name == DOT || log[i].name == DOT_DOT
  }

  lemma EntryAt(log: seq<Record>, i: nat)
    requires UniqueLive(log) && i < |log| && Live(log[i])
    ensures log[i].name in Entries(log) && Entries(log)[log[i].name] == log[i].nr
  {
  }

  /** Looking a name up in the log is looking it up in the map. */
  lemma NumberInEntries(log: seq<Record>, name: Name)
    requires UniqueLive(log)
    ensures NumberOf(log, name) == if name in Entries(log) then Entries(log)[name] else -ENOENT
    ensures name in Entries(log) <==> NumberOf(log, name) >= 0
  {
    var i := FindFrom(log, name, 0);
    if i < |log| {
      EntryAt(log, i);
    }
  }

  /** Adding a name that is not there adds it to the map, wherever in the log it lands. */
  lemma AddEntries(log: seq<Record>, name: Name, nr: int)
    requires UniqueLive(log) && name !in Entries(log) && nr >= 0
    ensures var (after, r) := Added(log, name, nr);
      r >= 0 && UniqueLive(after) && Entries(after) == Entries(log)[name := nr]
  {
    var i := StopFrom(log, name, 0);
    var (after, r) := Added(log, name, nr);
    forall j | 0 <= j < |log| && Live(log[j]) ensures log[j].name != name {
      EntryAt(log, j);
    }
    assert after[i] == Record(nr, name);
    AddedEntry(log, after, i);
  }

  /** Two logs that differ in record i, which is new or not live in the first, and has a new name in the second. */
  predicate OneAdded(log: seq<Record>, after: seq<Record>, i: nat) {
    && i < |after| && i <= |log| && |after| == (if i < |log| then |log| else i + 1)
    && (i < |log| ==> !Live(log[i]))
    && Live(after[i]) && (forall j | 0 <= j < |log| && j != i :: after[j] == log[j])
    && (forall j | 0 <= j < |log| && Live(log[j]) :: log[j].name != after[i].name)
  }

  lemma AddedEntry(log: seq<Record>, after: seq<Record>, i: nat)
    requires UniqueLive(log) && OneAdded(log, after, i)
    ensures UniqueLive(after) && Entries(after) == Entries(log)[after[i].name := after[i].nr]
  {
    assert UniqueLive(after);
    EntriesKept(log, after, i);
    NoMoreEntries(log, after, i);
    EntryAt(after, i);
    hide Entries, UniqueLive, OneAdded;
  }

  lemma EntriesKept(log: seq<Record>, after: seq<Record>, i: nat)
    requires UniqueLive(log) && UniqueLive(after) && OneAdded(log, after, i)
    ensures forall name | name in Entries(log) :: name in Entries(after) && Entries(after)[name] == Entries(log)[name]
  {
    hide Live;
    forall name | name in Entries(log) ensures name in Entries(after) && Entries(after)[name] == Entries(log)[name] {
      var j :| 0 <= j < |log| && Live(log[j]) && log[j].name == name;
      EntryAt(log, j);
      EntryAt(after, j);
    }
  }

  lemma NoMoreEntries(log: seq<Record>, after: seq<Record>, i: nat)
    requires UniqueLive(log) && UniqueLive(after) && OneAdded(log, after, i)
    ensures forall name | name in Entries(after) && name != after[i].name :: name in Entries(log)
    ensures after[i].name !in Entries(log)
  {
    hide Live;
    forall name | name in Entries(after) && name != after[i].name ensures name in Entries(log) {
      var j :| 0 <= j < |after| && Live(after[j]) && after[j].name == name;
      EntryAt(log, j);
    }
  }

  lemma UniqueSub(log: seq<Record>, i: nat)
    requires UniqueLive(log) && i < |log|
    ensures UniqueLive(Removed(log, i))
  {
  }

  lemma OneName(log: seq<Record>, i: nat)
    requires UniqueLive(log) && i < |log| && Live(log[i])
    ensures forall j | 0 <= j < |log| && j != i && Live(log[j]) :: log[j].name != log[i].name
  {
  }

  /** Removing a live record removes its name. */
  lemma RemoveEntries(log: seq<Record>, i: nat)
    requires UniqueLive(log) && i < |log| && Live(log[i])
    ensures UniqueLive(Removed(log, i)) && Entries(Removed(log, i)) == Entries(log) - {log[i].name}
  {
    hide UniqueLive;
    UniqueSub(log, i);
    var after := Removed(log, i);
    OneName(log, i);
    var m, m' := Entries(log) - {log[i].name}, Entries(after);
    forall name | name in m ensures name in m' && m'[name] == m[name] {
      var j :| 0 <= j < |log| && Live(log[j]) && log[j].name == name;
      EntryAt(log, j);
      EntryAt(after, j);
    }
    forall name | name in m' ensures name in m {
      var j :| 0 <= j < |after| && Live(after[j]) && after[j].name == name;
      EntryAt(log, j);
    }
  }

  /** testfs_add_dirent may stop at a tombstone before it sees that the name is taken: exactly then does
      it make a second entry of that name. */
  lemma AddTwice(log: seq<Record>, j: nat, nr: int)
    requires UniqueLive(log) && j < |log| && Live(log[j]) && nr >= 0
    ensures var (after, r) := Added(log, log[j].name, nr);
      && (UniqueLive(after) <==> r == -EEXIST)
      && (r == -EEXIST <==> forall i | 0 <= i < j && |log[i].name| == |log[j].name| :: Live(log[i]))
  {
    var name := log[j].name;
    var i := StopFrom(log, name, 0);
    var (after, r) := Added(log, name, nr);
    assert Stops(log[j], name) && i <= j;
    if i < j {
      assert after[i].name == after[j].name && Live(after[i]) && Live(after[j]);
    }
  }

  /** From an empty directory: two names as long as each other are added, the first is removed, and the second is
      added again without being looked up. */
  lemma AddedAgain(a: Name, b: Name)
    requires |a| == |b| && a != b
    ensures var log := Removed(Added(Added([], a, 1).0, b, 2).0, 0);
      && UniqueLive(log) && !UniqueLive(Added(log, b, 3).0)
      && Added(log, b, 3).0 == [Record(3, b), Record(2, b)]
  {
    var one, two := [Record(1, a)], [Record(1, a), Record(2, b)];
    assert Added([], a, 1).0 == one;
    assert StopFrom(one, b, 0) == 1 && Added(one, b, 2).0 == two;
    var log := [Record(-1, a), Record(2, b)];
    assert Removed(two, 0) == log;
    AddTwice(log, 1, 3);
    assert StopFrom(log, b, 0) == 0;
  }

  predicate Dots(name: Name) {
    name == DOT || name == DOT_DOT
  }

  /** testfs_create_file_or_dir, by the log records it reads and writes; nr is the number of the new inode, and
      err is negative when an entry cannot be written and nothing is broken by that. */
  function CreateLogs(logs: map<int, seq<Record>>, d: int, name: Name, isDir: bool, nr: int, err: int):
      (map<int, seq<Record>>, int)
    requires d in logs
  {
    if NumberOf(logs[d], name) >= 0 then (logs, -EEXIST)
    else if nr < 0 then (logs, nr)
    else if err < 0 then (logs, err)
    else
      var after := logs[d := Added(logs[d], name, nr).0];
      (if isDir then after[nr := Added(Added([], DOT, nr).0, DOT_DOT, d).0] else after, 0)
  }

  /** testfs_remove_dirent and the removal of the inode, by the log records they read and write. */
  function RemoveLogs(logs: map<int, seq<Record>>, d: int, name: Name): (map<int, seq<Record>>, int)
    requires d in logs
  {
    var i := FindFrom(logs[d], name, 0);
    if Dots(name) then (logs, -EINVAL)
    else if i == |logs[d]| then (logs, -ENOENT)
    else
      var n := logs[d][i].nr;
      if n in logs && !OnlyDots(logs[n]) then (logs, -ENOTEMPTY)
      else (logs[d := Removed(logs[d], i)] - {n}, 0)
  }

  lemma OffsetZero(log: seq<Record>)
    ensures Offset(log, 0) == 0
  {
  }

  lemma OffsetEnd(log: seq<Record>)
    ensures Offset(log, |log|) == |Bytes(log)|
  {
    assert log[..|log|] == log;
  }
}
