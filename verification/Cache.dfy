/** The web server's file cache (webserver/server_thread.c:232-466): an open-addressed table of entries
    threaded on a doubly linked list in order of last use. */
module Caches {
  import opened Lists
  import opened Probing

  const NULL := -1

  const INT_MAX := 0x7fff_ffff

  /** The last slot whose square is an int. */
  const LAST_SQUARE := 46340

  /** struct element, with the file's name and size; pointers are positions in the pool of entries. */
  datatype Element = Element(name: Name, size: nat, next: int, pre: int)

  /** An entry, or none, or a probe that goes round for ever, or one whose square does not fit an int. */
  datatype Outcome = Hit(e: int) | Miss | Hangs | Overflows

  /** The list from head to tail, linked both ways. */
  ghost predicate Linked(pool: seq<Element>, head: int, tail: int, order: seq<int>) {
    && (order == [] ==> head == NULL)
    && (order != [] ==> head == order[0] && tail == order[|order| - 1])
    && forall i: nat | i < |order| :: At(pool, order, i)
  }

  /** The i-th entry of the list points to its neighbours. */
  ghost predicate At(pool: seq<Element>, order: seq<int>, i: nat)
    requires i < |order|
  {
    && 0 <= order[i] < |pool|
    && pool[order[i]].next == (if i + 1 < |order| then order[i + 1] else NULL)
    && pool[order[i]].pre == (if i > 0 then order[i - 1] else NULL)
  }

  function Total(pool: seq<Element>): nat {
    if pool == [] then 0 else Total(pool[..|pool| - 1]) + pool[|pool| - 1].size
  }

  /** When e was last used, or -1. */
  function LastUse(uses: seq<int>, e: int): (i: int)
    ensures -1 <= i < |uses|
  {
    if uses == [] then -1 else if uses[|uses| - 1] == e then |uses| - 1 else LastUse(uses[..|uses| - 1], e)
  }

  ghost predicate ByLastUse(order: seq<int>, uses: seq<int>) {
    forall i, j | 0 <= i < j < |order| :: LastUse(uses, order[i]) < LastUse(uses, order[j])
  }

  /** Entry e sits on the probe path of its name, behind occupied slots only. */
  ghost predicate Reachable(table: seq<int>, pool: seq<Element>, e: int, n: nat)
    requires |table| > 0 && 0 <= e < |pool|
  {
    var k := HashOf(pool[e].name) % |table|;
    && table[Probe(|table|, k, n)] == e
    && forall i: nat | i < n :: table[Probe(|table|, k, i)] != NULL
  }

  ghost predicate Table(table: seq<int>, pool: seq<Element>, place: seq<nat>) {
    && |table| > 0 && |place| == |pool|
    && (forall k | 0 <= k < |table| :: table[k] == NULL || 0 <= table[k] < |pool|)
    && (forall e | 0 <= e < |pool| :: Reachable(table, pool, e, place[e]))
    && (forall a, b | 0 <= a < b < |table| :: table[a] != NULL ==> table[a] != table[b])
  }

  ghost predicate Unique(pool: seq<Element>) {
    forall a, b | 0 <= a < b < |pool| :: pool[a].name != pool[b].name
  }

  ghost predicate Present(pool: seq<Element>, name: Name) {
    exists e :: 0 <= e < |pool| && pool[e].name == name
  }

  /** The probe for a name meets no empty slot, ever. */
  ghost predicate Full(table: seq<int>, name: Name)
    requires |table| > 0
  {
    forall i: nat :: table[Probe(|table|, HashOf(name) % |table|, i)] != NULL
  }

  /** cache_lookup, which squares ints, comes to a slot that it cannot square. */
  ghost predicate Steep(table: seq<int>, pool: seq<Element>, name: Name)
    requires |table| > 0
  {
    exists i: nat :: Passed(table, pool, name, i + 1) && Probe(|table|, HashOf(name) % |table|, i) > LAST_SQUARE
  }

  /** Next and pre fields may have changed, names and sizes not. */
  ghost predicate SameFiles(pool: seq<Element>, pool': seq<Element>) {
    && |pool'| == |pool|
    && forall e | 0 <= e < |pool| :: pool'[e].name == pool[e].name && pool'[e].size == pool[e].size
  }

  lemma {:induction false} TotalSame(pool: seq<Element>, pool': seq<Element>)
    requires SameFiles(pool, pool')
    ensures Total(pool') == Total(pool)
    decreases |pool|
  {
    if pool != [] {
      TotalSame(pool[..|pool| - 1], pool'[..|pool| - 1]);
    }
  }

  lemma TableSame(table: seq<int>, pool: seq<Element>, pool': seq<Element>, place: seq<nat>)
    requires Table(table, pool, place) && SameFiles(pool, pool')
    ensures Table(table, pool', place) && (Unique(pool) ==> Unique(pool'))
  {
    hide Probe, HashOf;
    forall e | 0 <= e < |pool'| ensures Reachable(table, pool', e, place[e]) {
      assert Reachable(table, pool, e, place[e]);
    }
  }

  lemma UseLast(uses: seq<int>, e: int, f: int)
    ensures LastUse(uses + [e], f) == if f == e then |uses| else LastUse(uses, f)
  {
    assert (uses + [e])[..|uses|] == uses;
  }

  /** e becomes the most recently used. */
  function Used(order: seq<int>, e: int): seq<int> {
    if e in order then
      IndexIn(order, e);
      Removed(order, Index(order, e)) + [e]
    else order + [e]
  }

  /** Moving an entry to the end when it is used keeps the order of last use. */
  lemma UseOrder(order: seq<int>, uses: seq<int>, k: nat)
    requires ByLastUse(order, uses) && NoDup(order) && k < |order|
    ensures ByLastUse(Removed(order, k) + [order[k]], uses + [order[k]])
  {
    var e, r := order[k], Removed(order, k) + [order[k]];
    forall i, j | 0 <= i < j < |r| ensures LastUse(uses + [e], r[i]) < LastUse(uses + [e], r[j]) {
      UseLast(uses, e, r[i]);
      UseLast(uses, e, r[j]);
      var a, b := if i < k then i else i + 1, if j < k then j else j + 1;
      assert r[i] == order[a];
      assert j < |order| - 1 ==> r[j] == order[b];
    }
  }

  lemma NewOrder(order: seq<int>, uses: seq<int>, e: int)
    requires ByLastUse(order, uses) && e !in order
    ensures ByLastUse(order + [e], uses + [e])
  {
    var r := order + [e];
    forall i, j | 0 <= i < j < |r| ensures LastUse(uses + [e], r[i]) < LastUse(uses + [e], r[j]) {
      UseLast(uses, e, r[i]);
      UseLast(uses, e, r[j]);
    }
  }

  /** e is taken out of the list, from its neighbours' side. */
  lemma Unlinked(pool: seq<Element>, pool': seq<Element>, head: int, tail: int, order: seq<int>, k: nat)
    requires Linked(pool, head, tail, order) && NoDup(order) && k < |order| && |order| >= 2 && |pool'| == |pool|
    requires 0 <= order[k] < |pool|
    requires forall a | 0 <= a < |pool| ::
               && pool'[a].next == (if k > 0 && a == order[k - 1] then pool[order[k]].next else pool[a].next)
               && pool'[a].pre == (if k + 1 < |order| && a == order[k + 1] then pool[order[k]].pre else pool[a].pre)
    ensures var r := Removed(order, k); Linked(pool', r[0], r[|r| - 1], r)
    ensures var r, n := Removed(order, k), |order|;
      && order[k] !in r && r != []
      && r[0] == order[if k == 0 then 1 else 0] && r[|r| - 1] == order[if k == n - 1 then n - 2 else n - 1]
  {
    RemoveNoDup(order, k);
    var r := Removed(order, k);
    forall i: nat | i < |r|
      ensures At(pool', r, i)
    {
      var o := if i < k then i else i + 1;
      assert r[i] == order[o] && At(pool, order, o) && At(pool, order, k);
      assert i + 1 < |r| ==> r[i + 1] == order[if i + 1 < k then i + 1 else i + 2];
      assert i > 0 ==> r[i - 1] == order[if i - 1 < k then i - 1 else i];
      assert k > 0 && o != k - 1 ==> order[o] != order[k - 1];
      assert k + 1 < |order| && o != k + 1 ==> order[o] != order[k + 1];
    }
  }

  /** e is put at the end of the list. */
  lemma Appended(pool: seq<Element>, pool': seq<Element>, head: int, tail: int, order: seq<int>, e: int)
    requires Linked(pool, head, tail, order) && NoDup(order) && order != [] && e !in order && 0 <= e < |pool| == |pool'|
    requires 0 <= tail < |pool|
    requires pool'[e].pre == tail && pool'[e].next == NULL && pool'[tail].next == e && pool'[tail].pre == pool[tail].pre
    requires forall a | 0 <= a < |pool| && a != e && a != tail ::
               pool'[a].next == pool[a].next && pool'[a].pre == pool[a].pre
    ensures Linked(pool', head, e, order + [e])
  {
    var r := order + [e];
    forall i: nat | i < |r|
      ensures At(pool', r, i)
    {
      if i < |order| {
        assert r[i] == order[i] && order[i] in order && At(pool, order, i);
        assert i + 1 < |order| ==> order[i] != order[|order| - 1];
      }
    }
  }

  class Cache {
    const cacheSize: nat
    const table: array<int>
    var remaining: int
    var pool: seq<Element>
    var head: int
    var tail: int
    ghost var place: seq<nat>
    ghost var order: seq<int>
    ghost var uses: seq<int>

    /** Every entry is in the table once, where its name's probe finds it, and in the list once. */
    ghost predicate Valid()
      reads this, table
    {
      && Shape() && Table(table[..], pool, place) && Unique(pool) && Listed()
      && remaining == cacheSize - Total(pool)
    }

    ghost predicate Shape() {
      0 < cacheSize && table.Length == cacheSize * 11 <= INT_MAX
    }

    /** The list holds exactly the entries, in order of last use. */
    ghost predicate Listed()
      reads this
    {
      && Linked(pool, head, tail, order) && NoDup(order) && ByLastUse(order, uses)
      && (forall e :: e in order <==> 0 <= e < |pool|)
    }

    /** The part of server_init that makes the cache; the number of slots is an int. */
    constructor (cacheSize: nat)
      requires 0 < cacheSize && cacheSize * 11 <= INT_MAX
      ensures Valid() && this.cacheSize == cacheSize && pool == [] && fresh(table)
    {
      this.cacheSize, remaining := cacheSize, cacheSize;
      table := new int[cacheSize * 11](_ => NULL);
      pool, head, tail := [], NULL, NULL;
      place, order, uses := [], [], [];
    }

    /** Lines 447-457: an entry is taken out of a list of at least two. */
    method Unlink(e: int)
      requires Linked(pool, head, tail, order) && NoDup(order) && Unique(pool) && e in order && |order| >= 2
      modifies this`pool, this`head, this`tail, this`order
      ensures SameFiles(old(pool), pool) && order == Removed(old(order), Index(old(order), e))
      ensures Linked(pool, head, tail, order) && NoDup(order) && e !in order && order != []
    {
      hide Linked, NoDup, Unique, Removed, Index;
      ghost var k, pool0, order0 := Index(order, e), pool, order;
      IndexIn(order, e);
      assert order[k] == e;
      Ends(pool, head, tail, order, k);
      RemoveNoDup(order, k);
      if pool[head].name == pool[e].name {
        head := pool[head].next;
        pool := pool[head := pool[head].(pre := NULL)];
      } else {
        pool := pool[pool[e].pre := pool[pool[e].pre].(next := pool[e].next)];
      }
      if pool[tail].name == pool[e].name {
        tail := pool[tail].pre;
        pool := pool[tail := pool[tail].(next := NULL)];
      } else {
        pool := pool[pool[e].next := pool[pool[e].next].(pre := pool[e].pre)];
      }
      order := Removed(order, k);
      assert SameFiles(pool0, pool);
      Unlinked(pool0, pool, old(head), old(tail), order0, k);
      hide SameFiles;
    }

    /** Lines 459-462, and 435-437, 441-443 where the entry is new: it goes to the end of the list. */
    method Append(e: int)
      requires Linked(pool, head, tail, order) && NoDup(order) && order != [] && e !in order && 0 <= e < |pool|
      modifies this`pool, this`tail, this`order
      ensures SameFiles(old(pool), pool) && order == old(order) + [e]
      ensures Linked(pool, head, tail, order) && NoDup(order)
    {
      ghost var pool0, tail0, order0 := pool, tail, order;
      assert At(pool, order, |order| - 1) && tail in order;
      AppendNoDup(order, e);
      hide Linked, NoDup;
      pool := pool[tail := pool[tail].(next := e)];
      pool := pool[e := pool[e].(pre := tail)];
      tail := pool[tail].next;
      pool := pool[e := pool[e].(next := NULL)];
      order := order + [e];
      Appended(pool0, pool, head, tail0, order0, e);
    }

    /** upgrade_LRU_2: a new entry joins the list at its end; an old one moves there. */
    method UpgradeLru(e: int, inserting: bool)
      requires Linked(pool, head, tail, order) && NoDup(order) && ByLastUse(order, uses) && Unique(pool)
      requires 0 <= e < |pool| && (inserting <==> e !in order)
      requires inserting ==> pool[e].next == pool[e].pre == NULL
      modifies this`pool, this`head, this`tail, this`order, this`uses
      ensures Linked(pool, head, tail, order) && NoDup(order) && ByLastUse(order, uses)
      ensures SameFiles(old(pool), pool) && uses == old(uses) + [e]
      ensures order == Used(old(order), e)
    {
      hide ByLastUse;
      IndexIn(order, e);
      if inserting {
        NewOrder(order, uses, e);
      } else {
        UseOrder(order, uses, Index(order, e));
      }
      uses := uses + [e];
      if head == NULL {
        EmptyList(pool, head, tail, order);
        head := e;
        pool := pool[e := pool[e].(next := NULL, pre := NULL)];
        tail := head;
        assert order + [e] == [e];
        order := [e];
        assert At(pool, order, 0);
        return;
      }
      OneEntry(pool, head, tail, order);
      if pool[head].next == NULL {
        if head != e {
          Append(e);
        } else {
          assert Removed(order, Index(order, e)) + [e] == order;
        }
      } else {
        if !inserting {
          Unlink(e);
        }
        Append(e);
      }
    }

    /** cache_lookup; upgrade is the LRU_flag. Unless it overflows, which it does exactly when a slot that it
        passes is too high to be squared, the entry is found if and only if there is one, wherever its probe
        had to go; a name that is not there is missed, or, exactly when no slot its probe tries is empty,
        sought for ever. */
    method Lookup(name: Name, upgrade: bool) returns (out: Outcome)
      requires Valid()
      modifies this`pool, this`head, this`tail, this`order, this`uses
      ensures Valid() && SameFiles(old(pool), pool)
      ensures out == Overflows <==> Steep(table[..], old(pool), name)
      ensures out.Hit? <==> Present(pool, name) && out != Overflows
      ensures out.Hit? ==> 0 <= out.e < |pool| && pool[out.e].name == name
      ensures !out.Hit? && out != Overflows ==> out == (if Full(table[..], name) then Hangs else Miss)
      ensures out.Hit? && upgrade ==>
                uses == old(uses) + [out.e] && order == Used(old(order), out.e)
      ensures !(out.Hit? && upgrade) ==> uses == old(uses) && order == old(order) && pool == old(pool)
    {
      hide Linked, NoDup, ByLastUse, Probe, HashOf, Table, Unique, Passed, Total, SameFiles, Present, Full, Used, Steep;
      assert SameFiles(pool, pool) by {
        SameRefl(pool);
      }
      var h := Hash(name);
      var key := h % table.Length;
      FirstSlot(table[..], pool, name);
      var tries := 0;
      while table[key] != NULL
        invariant Valid() && 0 <= tries < table.Length && pool == old(pool) && order == old(order) && uses == old(uses)
        invariant 0 <= key < table.Length && key == Probe(table.Length, h % table.Length, tries)
        invariant Passed(table[..], pool, name, tries) && Gentle(table[..], name, tries)
        decreases table.Length - tries
      {
        SlotRange(table[..], pool, place, key);
        if pool[table[key]].name == name {
          out := Hit(table[key]);
          NotSteep(table[..], old(pool), name, tries);
          Found(old(pool), name, table[key]);
          if upgrade {
            InList(pool, order, table[key]);
            UpgradeLru(table[key], false);
            SameIn(order, old(order), old(pool), pool, table[key]);
            TableSame(table[..], old(pool), pool, place);
            TotalSame(old(pool), pool);
          }
          return;
        }
        PassedStep(table[..], pool, name, tries);
        SquareFits(key);
        if key * key > INT_MAX {
          TooSteep(table[..], pool, name, tries);
          return Overflows;
        }
        GentleStep(table[..], name, tries);
        key := key * key % table.Length;
        tries := tries + 1;
        if tries == table.Length {
          AllPassed(table[..], pool, place, name);
          AllGentle(table[..], pool, name);
          return Hangs;
        }
      }
      EmptyFound(table[..], pool, place, name, tries);
      NotSteep(table[..], pool, name, tries);
      out := Miss;
    }

    /** cache_insert, for a name that is not there. A file of more than half the cache is refused. The
        first empty slot the probe tries is taken; when there is none the loop does not end. The call of
        cache_evict at line 366 is left out: there its loop guard is false. */
    method Insert(name: Name, size: nat) returns (out: Outcome)
      requires Valid() && !Present(pool, name)
      modifies this, table
      ensures Valid()
      ensures out ==
                if 2 * size > cacheSize then Miss else if Full(old(table[..]), name) then Hangs else Hit(|old(pool)|)
      ensures !out.Hit? ==> pool == old(pool) && order == old(order) && uses == old(uses) && remaining == old(remaining)
      ensures out.Hit? ==>
                && SameFiles(old(pool) + [Element(name, size, NULL, NULL)], pool)
                && order == old(order) + [out.e] && uses == old(uses) + [out.e] && remaining == old(remaining) - size
    {
      hide Linked, NoDup, ByLastUse, Probe, HashOf, Table, Unique, Total, SameFiles, Present, Full, Used, Occupied;
      if 2 * size > cacheSize {
        return Miss;
      }
      var h := Hash(name);
      var key := h % table.Length;
      FirstFree(table[..], name);
      var tries := 0;
      while table[key] != NULL
        invariant Valid() && 0 <= tries < table.Length
        invariant table[..] == old(table[..]) && pool == old(pool) && order == old(order) && uses == old(uses)
        invariant remaining == old(remaining) && !Present(pool, name)
        invariant 0 <= key < table.Length && key == Probe(table.Length, h % table.Length, tries)
        invariant Occupied(table[..], name, tries)
        decreases table.Length - tries
      {
        OccupiedStep(table[..], name, tries);
        SquareFitsLong(key);
        key := key * key % table.Length;
        tries := tries + 1;
        if tries == table.Length {
          AllOccupied(table[..], name);
          return Hangs;
        }
      }
      FreeFound(table[..], name, tries);
      var e := |pool|;
      ghost var pool1 := pool + [Element(name, size, NULL, NULL)];
      TableInsert(table[..], pool, place, name, size, tries);
      Longer(pool, pool1, head, tail, order);
      pool := pool + [Element(name, size, NULL, NULL)];
      place := place + [tries];
      table[key] := e;
      remaining := remaining - size;
      assert table[..] == old(table[..])[key := e];
      UpgradeLru(e, true);
      TableSame(table[..], pool1, pool, place);
      TotalSame(pool1, pool);
      NewIn(order, old(order), pool1, pool);
      out := Hit(e);
    }

    /** Lines 139-151 of do_server_request: a file that has been read is put in the cache unless another
        worker has put it there meanwhile. Nothing that is in the cache ever leaves it. */
    method CheckInsert(name: Name, size: nat) returns (out: Outcome)
      requires Valid()
      modifies this, table
      ensures Valid()
      ensures Steep(old(table[..]), old(pool), name) ==> out == Overflows && pool == old(pool) && order == old(order)
      ensures !Steep(old(table[..]), old(pool), name) && Present(old(pool), name) ==>
                out.Hit? && pool == old(pool) && order == old(order)
      ensures !Steep(old(table[..]), old(pool), name) && !Present(old(pool), name) ==>
                out ==
                  if Full(old(table[..]), name) then Hangs else if 2 * size > cacheSize then Miss else Hit(|old(pool)|)
      ensures out.Hit? ==> 0 <= out.e < |pool| && pool[out.e].name == name && Present(pool, name)
      ensures forall other | Present(old(pool), other) :: Present(pool, other)
    {
      hide Linked, NoDup, ByLastUse, Probe, HashOf, Table, Unique, Total, Full, Used, Steep;
      out := Lookup(name, false);
      if out == Miss {
        ghost var pool0 := pool;
        out := Insert(name, size);
        if out.Hit? {
          ghost var grown := pool0 + [Element(name, size, NULL, NULL)];
          forall other | Present(pool0, other) ensures Present(pool, other) {
            var e :| 0 <= e < |pool0| && pool0[e].name == other;
            assert grown[e].name == other && pool[e].name == other;
          }
          assert grown[out.e].name == name && pool[out.e].name == name;
        }
      }
    }
  }

  /** cache_insert squares unsigned longs. */
  lemma SquareFitsLong(key: nat)
    requires key <= INT_MAX
    ensures key * key < WORD
  {
    SquareUp(key, INT_MAX);
  }

  /** The square of a slot is an int exactly up to the last such slot. */
  lemma SquareFits(key: nat)
    ensures key <= LAST_SQUARE <==> key * key <= INT_MAX
  {
    if key <= LAST_SQUARE {
      SquareUp(key, LAST_SQUARE);
    } else {
      SquareUp(LAST_SQUARE + 1, key);
    }
  }

  /** The first n slots tried for a name can be squared. */
  ghost predicate Gentle(table: seq<int>, name: Name, n: nat)
    requires |table| > 0
  {
    forall i: nat | i < n :: Probe(|table|, HashOf(name) % |table|, i) <= LAST_SQUARE
  }

  lemma GentleStep(table: seq<int>, name: Name, n: nat)
    requires |table| > 0 && Gentle(table, name, n) && Probe(|table|, HashOf(name) % |table|, n) <= LAST_SQUARE
    ensures Gentle(table, name, n + 1)
  {
    hide HashOf, Probe;
  }

  lemma TooSteep(table: seq<int>, pool: seq<Element>, name: Name, n: nat)
    requires |table| > 0 && Passed(table, pool, name, n + 1)
    requires Probe(|table|, HashOf(name) % |table|, n) > LAST_SQUARE
    ensures Steep(table, pool, name)
  {
    hide HashOf, Probe, Passed;
  }

  /** A probe that ends at its n-th slot, and has squared those before, does not overflow. */
  lemma NotSteep(table: seq<int>, pool: seq<Element>, name: Name, n: nat)
    requires |table| > 0 && Gentle(table, name, n)
    requires var e := table[Probe(|table|, HashOf(name) % |table|, n)];
      e == NULL || (0 <= e < |pool| && pool[e].name == name)
    ensures !Steep(table, pool, name)
  {
    hide HashOf, Probe;
    forall i: nat | Passed(table, pool, name, i + 1)
      ensures Probe(|table|, HashOf(name) % |table|, i) <= LAST_SQUARE
    {
      assert i < n;
    }
  }

  lemma AllGentle(table: seq<int>, pool: seq<Element>, name: Name)
    requires |table| > 0 && Gentle(table, name, |table|)
    ensures !Steep(table, pool, name)
  {
    hide HashOf, Probe;
    forall i: nat ensures Probe(|table|, HashOf(name) % |table|, i) <= LAST_SQUARE {
      var j := Covered(|table|, HashOf(name) % |table|, i);
    }
  }

  lemma SquareUp(a: nat, b: nat)
    requires a <= b
    ensures a * a <= b * b
  {
    assert b * b == a * a + (b - a) * (b + a);
  }

  /** The first n slots tried for a name are occupied. */
  ghost predicate Occupied(table: seq<int>, name: Name, n: nat)
    requires |table| > 0
  {
    forall i: nat | i < n :: table[Probe(|table|, HashOf(name) % |table|, i)] != NULL
  }

  lemma FirstFree(table: seq<int>, name: Name)
    requires |table| > 0
    ensures Probe(|table|, HashOf(name) % |table|, 0) == HashOf(name) % |table| && Occupied(table, name, 0)
  {
    hide HashOf;
  }

  lemma OccupiedStep(table: seq<int>, name: Name, n: nat)
    requires |table| > 0 && Occupied(table, name, n) && table[Probe(|table|, HashOf(name) % |table|, n)] != NULL
    ensures Occupied(table, name, n + 1)
    ensures var q := Probe(|table|, HashOf(name) % |table|, n);
      Probe(|table|, HashOf(name) % |table|, n + 1) == q * q % |table|
  {
    hide HashOf;
  }

  lemma FreeFound(table: seq<int>, name: Name, n: nat)
    requires |table| > 0 && table[Probe(|table|, HashOf(name) % |table|, n)] == NULL
    ensures !Full(table, name)
  {
    hide HashOf, Probe;
  }

  lemma AllOccupied(table: seq<int>, name: Name)
    requires |table| > 0 && Occupied(table, name, |table|)
    ensures Full(table, name)
  {
    hide Probe, HashOf;
    var m, k := |table|, HashOf(name) % |table|;
    forall i: nat ensures table[Probe(m, k, i)] != NULL {
      var j := Covered(m, k, i);
    }
  }

  /** An entry put in the first empty slot of its probe path keeps the table as it should be. */
  lemma TableInsert(table: seq<int>, pool: seq<Element>, place: seq<nat>, name: Name, size: nat, n: nat)
    requires Table(table, pool, place) && Unique(pool) && !Present(pool, name) && Occupied(table, name, n)
    requires table[Probe(|table|, HashOf(name) % |table|, n)] == NULL
    ensures var slot := Probe(|table|, HashOf(name) % |table|, n);
      var pool' := pool + [Element(name, size, NULL, NULL)];
      Table(table[slot := |pool|], pool', place + [n]) && Unique(pool')
  {
    hide Probe, HashOf;
    var slot := Probe(|table|, HashOf(name) % |table|, n);
    var table', pool', place' := table[slot := |pool|], pool + [Element(name, size, NULL, NULL)], place + [n];
    forall e | 0 <= e < |pool'| ensures Reachable(table', pool', e, place'[e]) {
      assert e < |pool| ==> Reachable(table, pool, e, place[e]);
    }
    forall a | 0 <= a < |pool| ensures pool[a].name != name {
    }
  }

  /** A fresh entry is not yet in the list. */
  lemma Longer(pool: seq<Element>, pool': seq<Element>, head: int, tail: int, order: seq<int>)
    requires Linked(pool, head, tail, order) && |pool'| == |pool| + 1 && pool' == pool + [pool'[|pool|]]
    requires forall e :: e in order <==> 0 <= e < |pool|
    ensures Linked(pool', head, tail, order) && |pool| !in order && Total(pool') == Total(pool) + pool'[|pool|].size
  {
    forall i: nat | i < |order| ensures At(pool', order, i) {
      assert At(pool, order, i);
    }
    assert pool'[..|pool|] == pool;
  }

  lemma NewIn(order': seq<int>, order: seq<int>, pool: seq<Element>, pool': seq<Element>)
    requires pool != [] && SameFiles(pool, pool') && (forall f :: f in order <==> 0 <= f < |pool| - 1)
    requires order' == Used(order, |pool| - 1)
    ensures order' == order + [|pool| - 1] && forall f :: f in order' <==> 0 <= f < |pool'|
  {
  }

  /** The first n slots tried for a name are occupied by others. */
  ghost predicate Passed(table: seq<int>, pool: seq<Element>, name: Name, n: nat)
    requires |table| > 0
  {
    forall i: nat | i < n ::
      var e := table[Probe(|table|, HashOf(name) % |table|, i)];
      0 <= e < |pool| && pool[e].name != name
  }

  lemma SameRefl(pool: seq<Element>)
    ensures SameFiles(pool, pool)
  {
  }

  lemma FirstSlot(table: seq<int>, pool: seq<Element>, name: Name)
    requires |table| > 0
    ensures Probe(|table|, HashOf(name) % |table|, 0) == HashOf(name) % |table| && Passed(table, pool, name, 0)
  {
    hide HashOf;
  }

  lemma SlotRange(table: seq<int>, pool: seq<Element>, place: seq<nat>, k: nat)
    requires Table(table, pool, place) && k < |table| && table[k] != NULL
    ensures 0 <= table[k] < |pool|
  {
    hide Probe, HashOf, Reachable;
  }

  lemma Found(pool: seq<Element>, name: Name, e: int)
    requires 0 <= e < |pool| && pool[e].name == name
    ensures forall pool': seq<Element> | SameFiles(pool, pool') ::
              Present(pool', name) && |pool'| == |pool| && pool'[e].name == name
  {
    forall pool': seq<Element> | SameFiles(pool, pool')
      ensures Present(pool', name) && |pool'| == |pool| && pool'[e].name == name
    {
      assert pool'[e].name == name;
    }
  }

  lemma SameIn(order': seq<int>, order: seq<int>, pool: seq<Element>, pool': seq<Element>, e: int)
    requires order' == Used(order, e) && NoDup(order) && (forall f :: f in order <==> 0 <= f < |pool|) && e in order
    requires SameFiles(pool, pool')
    ensures forall f :: f in order' <==> 0 <= f < |pool'|
  {
    IndexIn(order, e);
    RemoveNoDup(order, Index(order, e));
  }

  lemma PassedStep(table: seq<int>, pool: seq<Element>, name: Name, n: nat)
    requires |table| > 0 && Passed(table, pool, name, n)
    requires var e := table[Probe(|table|, HashOf(name) % |table|, n)]; 0 <= e < |pool| && pool[e].name != name
    ensures Passed(table, pool, name, n + 1)
    ensures var q := Probe(|table|, HashOf(name) % |table|, n);
      Probe(|table|, HashOf(name) % |table|, n + 1) == q * q % |table|
  {
    hide HashOf;
  }

  lemma EmptyFound(table: seq<int>, pool: seq<Element>, place: seq<nat>, name: Name, n: nat)
    requires Table(table, pool, place) && Passed(table, pool, name, n)
    requires table[Probe(|table|, HashOf(name) % |table|, n)] == NULL
    ensures !Present(pool, name) && !Full(table, name)
  {
    hide Probe, HashOf;
    forall e | 0 <= e < |pool| ensures pool[e].name != name {
      assert Reachable(table, pool, e, place[e]);
    }
  }

  lemma AllPassed(table: seq<int>, pool: seq<Element>, place: seq<nat>, name: Name)
    requires Table(table, pool, place) && Passed(table, pool, name, |table|)
    ensures !Present(pool, name) && Full(table, name)
  {
    hide Probe, HashOf;
    var m, k := |table|, HashOf(name) % |table|;
    forall i: nat ensures table[Probe(m, k, i)] != NULL {
      var j := Covered(m, k, i);
    }
    forall e | 0 <= e < |pool| ensures pool[e].name != name {
      assert Reachable(table, pool, e, place[e]);
      var j := Covered(m, HashOf(pool[e].name) % m, place[e]);
    }
  }

  lemma InList(pool: seq<Element>, order: seq<int>, e: int)
    requires (forall e :: e in order <==> 0 <= e < |pool|) && 0 <= e < |pool|
    ensures e in order
  {
  }

  /** What the ends of the list and the neighbours of its k-th entry look like. */
  lemma Ends(pool: seq<Element>, head: int, tail: int, order: seq<int>, k: nat)
    requires Linked(pool, head, tail, order) && NoDup(order) && Unique(pool) && |order| >= 2 && k < |order|
    ensures At(pool, order, 0) && At(pool, order, 1) && At(pool, order, |order| - 2) && At(pool, order, |order| - 1)
    ensures At(pool, order, k) && (k > 0 ==> At(pool, order, k - 1)) && (k + 1 < |order| ==> At(pool, order, k + 1))
    ensures head == order[0] && tail == order[|order| - 1] && 0 <= head < |pool| && 0 <= tail < |pool|
    ensures 0 <= order[k] < |pool|
    ensures (k > 0 ==> order[k - 1] != order[k]) && (k + 1 < |order| ==> order[k + 1] != order[k])
    ensures k > 0 && k + 1 < |order| ==> order[k - 1] != order[k + 1]
    ensures pool[head].name == pool[order[k]].name <==> k == 0
    ensures pool[tail].name == pool[order[k]].name <==> k == |order| - 1
  {
    assert At(pool, order, 0) && At(pool, order, k) && At(pool, order, |order| - 1);
  }

  lemma EmptyList(pool: seq<Element>, head: int, tail: int, order: seq<int>)
    requires Linked(pool, head, tail, order) && head == NULL
    ensures order == []
  {
    assert order != [] ==> At(pool, order, 0);
  }

  lemma OneEntry(pool: seq<Element>, head: int, tail: int, order: seq<int>)
    requires Linked(pool, head, tail, order) && head != NULL
    ensures 0 <= head < |pool| && order != [] && head == order[0]
    ensures pool[head].next == NULL <==> order == [head]
    ensures pool[head].next != NULL ==> |order| >= 2
  {
    assert At(pool, order, 0);
    if |order| >= 2 {
      assert At(pool, order, 1);
    }
  }

  // ---------- a lookup that never ends ----------

  lemma Zeros(i: nat)
    ensures Probe(11, 0, i) == 0
  {
  }

  lemma {:induction false} HashOne(c: int)
    requires 0 <= c < 128
    ensures HashOf([c]) == 177573 + c
  {
    assert [c][..0] == [] && HashOf([]) == 5381;
  }

  /** An entry whose name hashes to slot 0 is in slot 0: the square of 0 is 0. */
  lemma AtZero(table: seq<int>, pool: seq<Element>, place: seq<nat>)
    requires Table(table, pool, place) && |table| == 11 && |pool| == 1 && HashOf(pool[0].name) % 11 == 0
    ensures table[0] == 0
  {
    hide HashOf;
    assert Reachable(table, pool, 0, place[0]);
    Zeros(place[0]);
  }

  lemma NoneFull(table: seq<int>, place: seq<nat>, name: Name)
    requires Table(table, [], place)
    ensures !Full(table, name)
  {
    hide HashOf;
    assert table[Probe(|table|, HashOf(name) % |table|, 0)] == NULL;
  }

  /** Two empty files whose names hash to slot 0 of a table of 11: the second is sought for ever. */
  method NeverFound() returns (out: Outcome)
    ensures out == Hangs
  {
    var cache := new Cache(1);
    HashOne(33);
    HashOne(44);
    hide HashOf, Table, Unique, Probe;
    assert !Present(cache.pool, [33]);
    NoneFull(cache.table[..], cache.place, [33]);
    out := cache.Insert([33], 0);
    AtZero(cache.table[..], cache.pool, cache.place);
    forall i: nat ensures cache.table[Probe(11, 0, i)] != NULL {
      Zeros(i);
    }
    assert Full(cache.table[..], [44]);
    SmallTable(cache.table[..], cache.pool, [44]);
    out := cache.Lookup([44], false);
  }

  lemma SmallTable(table: seq<int>, pool: seq<Element>, name: Name)
    requires 0 < |table| <= LAST_SQUARE + 1
    ensures !Steep(table, pool, name)
  {
    hide HashOf, Passed;
  }

  // ---------- a lookup that overflows ----------

  lemma HashTwo(b: int, c: int)
    requires 0 <= b < 128 && 0 <= c < 128
    ensures HashOf([b, c]) == 5859909 + 33 * b + c
  {
    HashOne(b);
    assert [b, c][..1] == [b];
  }

  /** The only entry is in the first slot tried for its name. */
  lemma FirstTried(table: seq<int>, pool: seq<Element>, place: seq<nat>)
    requires Table(table, pool, place) && |pool| == 1
    ensures table[HashOf(pool[0].name) % |table|] == 0
  {
    hide HashOf;
    assert Reachable(table, pool, 0, place[0]);
    var k := HashOf(pool[0].name) % |table|;
    assert Probe(|table|, k, 0) == k;
  }

  /** Two empty files whose names have the same hash, which takes them to slot 61251 of 100001. */
  method Overflowing() returns (out: Outcome)
    ensures out == Overflows
  {
    var cache := new Cache(9091);
    HashTwo(40, 80);
    HashTwo(41, 47);
    hide HashOf, Table, Unique;
    assert !Present(cache.pool, [40, 80]);
    NoneFull(cache.table[..], cache.place, [40, 80]);
    out := cache.Insert([40, 80], 0);
    FirstTried(cache.table[..], cache.pool, cache.place);
    assert cache.pool[0].name == [40, 80];
    assert Passed(cache.table[..], cache.pool, [41, 47], 1);
    TooSteep(cache.table[..], cache.pool, [41, 47], 0);
    out := cache.Lookup([41, 47], false);
  }
}
