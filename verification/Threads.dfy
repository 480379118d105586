/** The thread library of threads/thread.c: a table of threads, and queues threaded through it. */
module Threads {
  import opened Lists
  import opened Scheduling

  /** struct thread, with pointers to table entries as indices. The two values a suspended thread
      keeps on its stack are its stack memory and the interrupt flag it will restore. */
  datatype Thread = Thread(isValid: bool, index: int, stack: nat, enabled: bool, next: int)

  datatype WaitQueue = WaitQueue(head: int, tail: int)

  function Next(list: seq<int>, i: nat): int
    requires i < |list|
  {
    if i + 1 < |list| then list[i + 1] else NULL
  }

  /** The next fields lead from head through exactly the threads of the list. */
  ghost predicate Linked(tcb: seq<Thread>, head: int, list: seq<int>) {
    && head == (if list == [] then NULL else list[0])
    && forall i: nat | i < |list| :: 0 <= list[i] < |tcb| && tcb[list[i]].next == Next(list, i)
  }

  ghost predicate Table(tcb: seq<Thread>, s: Sched) {
    forall i | 0 <= i < |tcb| ::
      && (tcb[i].isValid <==> i in s.threads)
      && (tcb[i].isValid ==>
            && tcb[i].index == i && tcb[i].stack == s.threads[i].stack
            && (i != s.current ==> tcb[i].enabled == s.threads[i].enabled))
  }

  ghost predicate Waiters(tcb: seq<Thread>, queues: map<nat, WaitQueue>, waits: map<nat, seq<int>>) {
    && queues.Keys == waits.Keys
    && forall q | q in queues ::
         && Linked(tcb, queues[q].head, waits[q])
         && (waits[q] != [] ==> queues[q].tail == waits[q][|waits[q]| - 1])
  }

  /** The tail of the ready queue. When the queue empties the tail is left alone, so it may name
      the thread that was popped, which is the running one. */
  ghost predicate Tail(tail: int, s: Sched) {
    if s.ready != [] then tail == s.ready[|s.ready| - 1] else tail == NULL || tail == s.current
  }

  lemma LinkedFrame(tcb: seq<Thread>, tcb': seq<Thread>, head: int, list: seq<int>)
    requires Linked(tcb, head, list) && |tcb'| == |tcb|
    requires forall t | t in list && 0 <= t < |tcb| :: tcb'[t].next == tcb[t].next
    ensures Linked(tcb', head, list)
  {
    forall i: nat | i < |list| ensures 0 <= list[i] < |tcb| && tcb'[list[i]].next == Next(list, i) {
      assert list[i] in list;
    }
  }

  lemma LinkedNotNull(tcb: seq<Thread>, head: int, list: seq<int>)
    requires Linked(tcb, head, list)
    ensures forall i | 0 <= i < |list| :: list[i] != NULL
  {
    forall i: nat | i < |list| ensures list[i] != NULL {
      assert tcb[list[i]].next == Next(list, i);
    }
  }

  lemma LinkedPop(tcb: seq<Thread>, head: int, list: seq<int>)
    requires Linked(tcb, head, list) && list != []
    ensures 0 <= head < |tcb| && Linked(tcb, tcb[head].next, list[1..])
  {
    assert tcb[list[0]].next == Next(list, 0);
    forall i: nat | i < |list[1..]| ensures 0 <= list[1..][i] < |tcb| && tcb[list[1..][i]].next == Next(list[1..], i) {
      assert tcb[list[i + 1]].next == Next(list, i + 1);
    }
  }

  lemma DistinctFrom(list: seq<int>, k: nat)
    requires NoDup(list) && k < |list|
    ensures forall i | 0 <= i < |list| && i != k :: list[i] != list[k]
  {
  }

  /** A thread is put at the end: tail->next = t, t->next = NULL. */
  lemma LinkedAppend(tcb: seq<Thread>, tcb': seq<Thread>, head: int, list: seq<int>, t: int)
    requires Linked(tcb, head, list) && list != [] && NoDup(list) && t !in list && 0 <= t < |tcb| == |tcb'|
    requires var tail := list[|list| - 1];
      && 0 <= tail < |tcb| && tcb'[tail].next == t && tcb'[t].next == NULL
      && forall i | 0 <= i < |tcb| && i != t && i != tail :: tcb'[i].next == tcb[i].next
    ensures Linked(tcb', head, list + [t])
  {
    DistinctFrom(list, |list| - 1);
    hide NoDup;
    forall i: nat | i < |list + [t]|
      ensures 0 <= (list + [t])[i] < |tcb| && tcb'[(list + [t])[i]].next == Next(list + [t], i)
    {
      if i < |list| {
        assert tcb[list[i]].next == Next(list, i) && list[i] in list;
      }
    }
  }

  function SetNext(tcb: seq<Thread>, t: int, n: int): (r: seq<Thread>)
    requires 0 <= t < |tcb|
  {
    tcb[t := tcb[t].(next := n)]
  }

  /** The table and the queues in memory are the scheduler state s. */
  ghost predicate Rep(tcb: seq<Thread>, head: int, tail: int, queues: map<nat, WaitQueue>, s: Sched)
    ensures Rep(tcb, head, tail, queues, s) ==> |tcb| == THREAD_MAX_THREADS && Partition(s) && Tail(tail, s)
  {
    && |tcb| == THREAD_MAX_THREADS && Partition(s)
    && Table(tcb, s)
    && Linked(tcb, head, s.ready) && Tail(tail, s)
    && Waiters(tcb, queues, s.waits)
  }

  /** Writing the next field of a thread that is not asleep leaves the wait queues as they are. */
  lemma WaitersFrame(tcb: seq<Thread>, tcb': seq<Thread>, queues: map<nat, WaitQueue>, s: Sched)
    requires Waiters(tcb, queues, s.waits) && Partition(s) && |tcb'| == |tcb|
    requires forall t | 0 <= t < |tcb| && tcb'[t].next != tcb[t].next ::
               t !in s.threads || !s.threads[t].place.Waiting?
    ensures Waiters(tcb', queues, s.waits)
  {
    hide Linked;
    forall q | q in queues ensures Linked(tcb', queues[q].head, s.waits[q]) {
      LinkedFrame(tcb, tcb', queues[q].head, s.waits[q]);
    }
  }

  lemma ReadyFrame(tcb: seq<Thread>, tcb': seq<Thread>, head: int, s: Sched)
    requires Linked(tcb, head, s.ready) && Partition(s) && |tcb'| == |tcb|
    requires forall t | 0 <= t < |tcb| && tcb'[t].next != tcb[t].next ::
               t !in s.threads || s.threads[t].place != Ready
    ensures Linked(tcb', head, s.ready)
  {
    hide Linked;
    LinkedFrame(tcb, tcb', head, s.ready);
  }

  lemma TailValid(tcb: seq<Thread>, tail: int, s: Sched)
    requires Partition(s) && Tail(tail, s)
    ensures tail == NULL || (tail in s.threads && 0 <= tail < THREAD_MAX_THREADS && !s.threads[tail].place.Waiting?)
    ensures s.ready == [] ==> tail == NULL || s.threads[tail].place == Running
    ensures s.ready != [] ==> tail != NULL
  {
    if s.ready != [] {
      assert s.ready[|s.ready| - 1] in s.ready;
    }
  }

  /** thread_create writes through the tail even when it is stale; no queue is damaged. */
  lemma CreateRep(tcb: seq<Thread>, tcb': seq<Thread>, head: int, tail: int, queues: map<nat, WaitQueue>, s: Sched,
                  i: int)
    requires Rep(tcb, head, tail, queues, s) && i == FreeSlot(s, 0) < THREAD_MAX_THREADS && |tcb'| == |tcb|
    requires tcb'[i] == Thread(true, i, s.made + 1, true, NULL)
    requires 0 <= tail < |tcb| ==> tcb'[tail] == tcb[tail].(next := i)
    requires forall j | 0 <= j < |tcb| && j != i && j != tail :: tcb'[j] == tcb[j]
    ensures Rep(tcb', if head == NULL then i else head, i, queues, DoCreate(s, true).0)
  {
    hide FreeSlot, Waiters, Partition, Table, NoDup, Linked;
    TailValid(tcb, tail, s);
    CreatePartition(s, true);
    FreshNotReady(s, i);
    NotQueued(s);
    HeadIs(tcb, head, tail, queues, s);
    WaitersFrame(tcb, tcb', queues, s);
    CreateTable(tcb, tcb', s, i, Info(Ready, s.made + 1, true));
    if s.ready != [] {
      LinkedAppend(tcb, tcb', head, s.ready, i);
    } else {
      LinkedOne(tcb', i);
      assert s.ready + [i] == [i];
    }
  }

  lemma CreateEffect(s: Sched, memory: bool)
    requires Partition(s)
    ensures var (t, r) := DoCreate(s, memory);
      var i := FreeSlot(s, 0);
      && t.current == s.current && t.doomed == s.doomed && t.freed == s.freed && s.current in s.threads
      && s.current in t.threads
      && t.threads[s.current].enabled == s.threads[s.current].enabled
      && t.made == s.made + (if i < THREAD_MAX_THREADS && memory then 1 else 0)
      && r == (if i == THREAD_MAX_THREADS then THREAD_NOMORE else if memory then i else THREAD_NOMEMORY)
      && (i == THREAD_MAX_THREADS ==> t == s)
  {
    hide NoDup;
  }

  lemma FreshNotReady(s: Sched, t: int)
    requires Partition(s) && t !in s.threads
    ensures t !in s.ready && t != s.current && s.current in s.threads
  {
  }

  lemma LinkedOne(tcb: seq<Thread>, t: int)
    requires 0 <= t < |tcb| && tcb[t].next == NULL
    ensures Linked(tcb, t, [t])
  {
  }

  lemma CreateTable(tcb: seq<Thread>, tcb': seq<Thread>, s: Sched, i: nat, info: Info)
    requires Table(tcb, s) && i < |tcb| == |tcb'|
    requires tcb'[i].(next := NULL) == Thread(true, i, info.stack, info.enabled, NULL)
    requires forall j | 0 <= j < |tcb| && j != i :: tcb'[j].(next := NULL) == tcb[j].(next := NULL)
    ensures forall s': Sched | s'.threads == s.threads[i := info] && s'.current == s.current :: Table(tcb', s')
  {
  }

  lemma CreateFailedRep(tcb: seq<Thread>, tcb': seq<Thread>, head: int, tail: int, queues: map<nat, WaitQueue>,
                        s: Sched, i: int)
    requires Rep(tcb, head, tail, queues, s) && i == FreeSlot(s, 0) < THREAD_MAX_THREADS && |tcb'| == |tcb|
    requires tcb'[i] == Thread(true, i, 0, true, NULL)
    requires forall j | 0 <= j < |tcb| && j != i :: tcb'[j] == tcb[j]
    ensures Rep(tcb', head, tail, queues, DoCreate(s, false).0)
  {
    CreatePartition(s, false);
    FreshNotReady(s, i);
    hide FreeSlot, Waiters, Partition, Table, Linked;
    CreateTable(tcb, tcb', s, i, Info(Nowhere, 0, true));
    WaitersFrame(tcb, tcb', queues, s);
    ReadyFrame(tcb, tcb', head, s);
  }

  /** A thread is taken out of the list: its predecessor gets its next field. */
  lemma LinkedRemove(tcb: seq<Thread>, tcb': seq<Thread>, head: int, list: seq<int>, k: nat)
    requires Linked(tcb, head, list) && NoDup(list) && 0 < k < |list| && |tcb'| == |tcb|
    requires tcb'[list[k - 1]].next == tcb[list[k]].next
    requires forall t | 0 <= t < |tcb| && t != list[k - 1] :: tcb'[t].next == tcb[t].next
    ensures Linked(tcb', head, Removed(list, k))
  {
    DistinctFrom(list, k - 1);
    RemovedAt(list, k);
    hide NoDup, Removed;
    var r := Removed(list, k);
    assert tcb[list[k]].next == Next(list, k);
    forall i: nat | i < |r| ensures 0 <= r[i] < |tcb| && tcb'[r[i]].next == Next(r, i) {
      var o := if i < k then i else i + 1;
      assert tcb[list[o]].next == Next(list, o);
    }
  }

  lemma RemovedAt(list: seq<int>, k: nat)
    requires k < |list|
    ensures |Removed(list, k)| == |list| - 1
    ensures forall i: nat | i < |list| - 1 :: Removed(list, k)[i] == list[if i < k then i else i + 1]
  {
  }

  /** What a switch does to the table: the flag of the suspended thread is saved in its frame. */
  lemma SwitchTable(tcb: seq<Thread>, tcb': seq<Thread>, s: Sched, k: nat)
    requires Table(tcb, s) && Partition(s) && k < |s.ready| && |tcb'| == |tcb|
    requires forall t | 0 <= t < |tcb| ::
               tcb'[t].(next := NULL) ==
                 if t == s.current then tcb[t].(enabled := s.threads[t].enabled, next := NULL)
                 else tcb[t].(next := NULL)
    ensures Table(tcb', SwitchTo(s, k))
  {
    assert s.ready[k] in s.ready;
  }

  /** The second splice of thread_yield: once c is appended, the k-th thread is unlinked. */
  lemma Unlink(tcb: seq<Thread>, tcb': seq<Thread>, head: int, ready: seq<int>, c: int, k: nat)
    requires Linked(tcb, head, ready + [c]) && NoDup(ready) && c !in ready && k < |ready| && |tcb| == |tcb'|
    requires k == 0 ==> tcb' == tcb
    requires k > 0 ==> 0 <= ready[k] < |tcb| && 0 <= ready[k - 1] < |tcb|
                       && tcb' == SetNext(tcb, ready[k - 1], tcb[ready[k]].next)
    ensures 0 <= head < |tcb| && head == ready[0]
    ensures Linked(tcb', if k == 0 then tcb[head].next else head, Rotated(ready, k, c))
  {
    var l := ready + [c];
    AppendNoDup(ready, c);
    assert tcb[l[0]].next == Next(l, 0);
    hide Linked, NoDup;
    assert Removed(l, k) == Rotated(ready, k, c);
    if k == 0 {
      LinkedPop(tcb, head, l);
      assert l[1..] == Removed(l, 0);
    } else {
      LinkedRemove(tcb, tcb', head, l, k);
    }
  }

  /** The running thread's flag is saved in its frame; otherwise only next fields of the running
      thread and of threads in the list change. */
  ghost predicate Saved(tcb: seq<Thread>, tcb': seq<Thread>, s: Sched, list: seq<int>) {
    && |tcb'| == |tcb| && s.current in s.threads
    && (forall t | 0 <= t < |tcb| ::
          tcb'[t].(next := NULL) ==
            if t == s.current then tcb[t].(enabled := s.threads[t].enabled, next := NULL) else tcb[t].(next := NULL))
    && (forall t | 0 <= t < |tcb| && tcb'[t].next != tcb[t].next :: t == s.current || t in list)
  }

  lemma SwitchFacts(s: Sched, k: nat)
    requires Partition(s) && k < |s.ready|
    ensures var t := SwitchTo(s, k);
      && t.current == s.ready[k] && t.doomed == s.doomed && t.made == s.made && t.freed == s.freed
      && t.current in s.threads && t.current in t.threads
      && t.threads[t.current].enabled == s.threads[t.current].enabled
  {
    ReadyPlace(s, k);
  }

  lemma SavedAt(tcb: seq<Thread>, tcb': seq<Thread>, s: Sched, list: seq<int>, t: int)
    requires Saved(tcb, tcb', s, list) && 0 <= t < |tcb| && t != s.current
    ensures tcb'[t].index == tcb[t].index && tcb'[t].enabled == tcb[t].enabled
  {
    assert tcb'[t].(next := NULL) == tcb[t].(next := NULL);
  }

  lemma SavedNext(tcb: seq<Thread>, tcb1: seq<Thread>, tcb': seq<Thread>, s: Sched, pre: int)
    requires Saved(tcb, tcb1, s, s.ready) && pre in s.ready && 0 <= pre < |tcb1| == |tcb'|
    requires tcb' == SetNext(tcb1, pre, tcb'[pre].next)
    ensures Saved(tcb, tcb', s, s.ready)
  {
  }

  lemma LinkedHead(tcb: seq<Thread>, head: int, list: seq<int>)
    requires Linked(tcb, head, list) && list != []
    ensures head == list[0] && 0 <= head < |tcb|
  {
    assert tcb[list[0]].next == Next(list, 0);
  }

  /** thread_yield to the k-th ready thread, once the queue is spliced. */
  lemma SwitchRep(tcb: seq<Thread>, tcb': seq<Thread>, head: int, head': int, tail: int,
                  queues: map<nat, WaitQueue>, s: Sched, k: nat)
    requires Rep(tcb, head, tail, queues, s) && k < |s.ready| && |tcb| == |tcb'|
    requires Linked(tcb', head', Rotated(s.ready, k, s.current))
    requires Saved(tcb, tcb', s, s.ready)
    ensures Rep(tcb', head', s.current, queues, SwitchTo(s, k))
  {
    NotQueued(s);
    ReadyPlace(s, k);
    SwitchPartition(s, k);
    hide Waiters, Partition, Table, NoDup, Linked, Rotated;
    SwitchTable(tcb, tcb', s, k);
    forall t | 0 <= t < |tcb| && tcb'[t].next != tcb[t].next ensures t in s.threads && !s.threads[t].place.Waiting? {
    }
    WaitersFrame(tcb, tcb', queues, s);
  }

  lemma NotQueued(s: Sched)
    requires Partition(s)
    ensures s.current !in s.ready && s.current in s.threads && 0 <= s.current < THREAD_MAX_THREADS && NoDup(s.ready)
    ensures s.threads[s.current].place == Running
  {
    hide NoDup;
  }

  lemma ReadyPlace(s: Sched, k: nat)
    requires Partition(s) && k < |s.ready|
    ensures forall i | 0 <= i < |s.ready| ::
              && s.ready[i] in s.threads && s.threads[s.ready[i]].place == Ready
              && 0 <= s.ready[i] < THREAD_MAX_THREADS && s.ready[i] != s.current
  {
    forall i | 0 <= i < |s.ready| ensures
      && s.ready[i] in s.threads && s.threads[s.ready[i]].place == Ready
      && 0 <= s.ready[i] < THREAD_MAX_THREADS && s.ready[i] != s.current
    {
      var t := s.ready[i];
      assert t in s.ready;
    }
  }

  lemma ReadyIn(s: Sched)
    requires Partition(s)
    ensures forall t | t in s.ready :: t in s.threads && s.threads[t].place == Ready
  {
    hide NoDup;
  }

  lemma NoNull(s: Sched)
    requires Partition(s)
    ensures forall i | 0 <= i < |s.ready| :: s.ready[i] != NULL
  {
    forall i | 0 <= i < |s.ready| ensures s.ready[i] != NULL {
      ReadyPlace(s, i);
    }
  }

  lemma ReapRep(tcb: seq<Thread>, head: int, tail: int, queues: map<nat, WaitQueue>, s: Sched)
    requires Rep(tcb, head, tail, queues, s)
    ensures Rep(tcb, head, tail, queues, Reap(s))
  {
    ReapPartition(s);
    hide Waiters, Linked, Partition;
  }

  lemma HeadIs(tcb: seq<Thread>, head: int, tail: int, queues: map<nat, WaitQueue>, s: Sched)
    requires Rep(tcb, head, tail, queues, s)
    ensures Linked(tcb, head, s.ready) && (head == NULL <==> s.ready == [])
    ensures s.ready != [] ==>
              head == s.ready[0] && 0 <= head < |tcb| && tail == s.ready[|s.ready| - 1] && 0 <= tail < |tcb|
  {
    if s.ready != [] {
      ReadyPlace(s, 0);
    }
  }

  lemma ReadyAt(tcb: seq<Thread>, head: int, tail: int, queues: map<nat, WaitQueue>, s: Sched, k: nat)
    requires Rep(tcb, head, tail, queues, s) && k < |s.ready|
    ensures var t := s.ready[k];
      && 0 <= t < |tcb| && tcb[t].isValid && tcb[t].index == t && tcb[t].next == Next(s.ready, k) && t != s.current
      && t in s.threads && tcb[t].enabled == s.threads[t].enabled && tcb[t].stack == s.threads[t].stack
  {
    ReadyPlace(s, k);
    hide Partition, Waiters;
    assert tcb[s.ready[k]].next == Next(s.ready, k);
  }

  /** The next field of the running thread is in no queue. */
  lemma HiddenNext(tcb: seq<Thread>, tcb': seq<Thread>, head: int, tail: int, queues: map<nat, WaitQueue>, s: Sched)
    requires Rep(tcb, head, tail, queues, s) && |tcb'| == |tcb|
    requires forall t | 0 <= t < |tcb| ::
               if t == s.current then tcb'[t].(next := NULL) == tcb[t].(next := NULL) else tcb'[t] == tcb[t]
    ensures Rep(tcb', head, tail, queues, s)
  {
    NotQueued(s);
    hide Partition, Waiters, Linked, NoDup;
    WaitersFrame(tcb, tcb', queues, s);
    ReadyFrame(tcb, tcb', head, s);
  }

  lemma CurrentAt(tcb: seq<Thread>, head: int, tail: int, queues: map<nat, WaitQueue>, s: Sched)
    requires Rep(tcb, head, tail, queues, s)
    ensures 0 <= s.current < |tcb| && s.current in s.threads && tcb[s.current].stack == s.threads[s.current].stack
  {
  }

  lemma NotReady(s: Sched, t: int)
    requires Partition(s)
    ensures t == s.current || t !in s.threads || s.ready == [] ==> Index(s.ready, t) == |s.ready|
  {
    if Index(s.ready, t) < |s.ready| {
      ReadyPlace(s, Index(s.ready, t));
    }
  }

  lemma TableOf(tcb: seq<Thread>, head: int, tail: int, queues: map<nat, WaitQueue>, s: Sched)
    requires Rep(tcb, head, tail, queues, s)
    ensures forall t | 0 <= t < |tcb| :: tcb[t].isValid <==> t in s.threads
    ensures forall t | t in s.threads :: 0 <= t < THREAD_MAX_THREADS
  {
  }

  lemma ExitRep(tcb: seq<Thread>, tcb': seq<Thread>, head: int, tail: int, queues: map<nat, WaitQueue>, s: Sched)
    requires Rep(tcb, head, tail, queues, s) && s.ready != []
    requires 0 <= s.current < |tcb| && tcb' == tcb[s.current := tcb[s.current].(isValid := false)]
    ensures 0 <= head < |tcb| && Rep(tcb', tcb[head].next, tail, queues, DoExit(s).0)
  {
    NotQueued(s);
    ReadyPlace(s, 0);
    ExitPartition(s);
    ExitTable(tcb, tcb', s);
    hide Waiters, Partition, Table, NoDup, Linked;
    HeadIs(tcb, head, tail, queues, s);
    LinkedPop(tcb, head, s.ready);
    LinkedFrame(tcb, tcb', tcb[head].next, s.ready[1..]);
    WaitersFrame(tcb, tcb', queues, s);
  }

  lemma ExitTable(tcb: seq<Thread>, tcb': seq<Thread>, s: Sched)
    requires Table(tcb, s) && Partition(s) && s.ready != []
    requires 0 <= s.current < |tcb| && tcb' == tcb[s.current := tcb[s.current].(isValid := false)]
    ensures Table(tcb', DoExit(s).0)
  {
    ReadyPlace(s, 0);
    hide Partition;
  }

  /** thread_kill unlinks the k-th ready thread and invalidates its entry. */
  lemma KillRep(tcb: seq<Thread>, tcb': seq<Thread>, head: int, head': int, tail: int, tail': int,
                queues: map<nat, WaitQueue>, s: Sched, k: nat)
    requires Rep(tcb, head, tail, queues, s) && k < |s.ready| && |tcb| == |tcb'|
    requires Linked(tcb', head', Removed(s.ready, k))
    requires tail' == if k + 1 == |s.ready| then (if k == 0 then NULL else s.ready[k - 1]) else tail
    requires forall t | 0 <= t < |tcb| ::
               if t == s.ready[k] then !tcb'[t].isValid else tcb'[t].(next := NULL) == tcb[t].(next := NULL)
    requires forall t | 0 <= t < |tcb| && tcb'[t].next != tcb[t].next :: t in s.ready
    ensures Rep(tcb', head', tail', queues, DoKill(s, s.ready[k]).0)
  {
    var tid := s.ready[k];
    KillTail(tail, tail', s, k);
    NotQueued(s);
    ReadyPlace(s, k);
    KillPartition(s, tid);
    IndexOf(s.ready, k);
    hide Waiters, Partition, Table, NoDup, Linked, Tail, Removed;
    KillTable(tcb, tcb', s, k);
    forall t | 0 <= t < |tcb| && tcb'[t].next != tcb[t].next ensures t in s.threads && !s.threads[t].place.Waiting? {
    }
    WaitersFrame(tcb, tcb', queues, s);
  }

  /** Lines 301-306: the k-th thread is unlinked from the head, or from its predecessor. */
  lemma KillLinked(tcb: seq<Thread>, tcb': seq<Thread>, head: int, ready: seq<int>, k: nat)
    requires Linked(tcb, head, ready) && NoDup(ready) && k < |ready| && |tcb| == |tcb'|
    requires k == 0 ==> tcb' == tcb
    requires k > 0 ==> 0 <= ready[k] < |tcb| && 0 <= ready[k - 1] < |tcb|
                       && tcb' == SetNext(tcb, ready[k - 1], tcb[ready[k]].next)
    ensures 0 <= head < |tcb| && Linked(tcb', if k == 0 then tcb[head].next else head, Removed(ready, k))
  {
    LinkedHead(tcb, head, ready);
    hide Linked, NoDup;
    if k == 0 {
      LinkedPop(tcb, head, ready);
      assert ready[1..] == Removed(ready, 0);
    } else {
      LinkedRemove(tcb, tcb', head, ready, k);
    }
  }

  lemma SameNext(tcb: seq<Thread>, tcb': seq<Thread>, head: int, list: seq<int>)
    requires Linked(tcb, head, list) && |tcb'| == |tcb| && forall t | 0 <= t < |tcb| :: tcb'[t].next == tcb[t].next
    ensures Linked(tcb', head, list)
  {
    LinkedFrame(tcb, tcb', head, list);
  }

  lemma KillFacts(s: Sched, k: nat)
    requires Partition(s) && k < |s.ready|
    ensures s.ready[k] in s.threads
    ensures var t, stack := DoKill(s, s.ready[k]).0, s.threads[s.ready[k]].stack;
      && t.current == s.current && t.doomed == s.doomed && t.made == s.made
      && t.freed == if s.ready[k] == 0 || stack == 0 then s.freed else s.freed + [stack]
  {
    IndexIn(s.ready, s.ready[k]);
  }

  lemma NewQueueRep(tcb: seq<Thread>, head: int, tail: int, queues: map<nat, WaitQueue>, s: Sched, q: nat)
    requires Rep(tcb, head, tail, queues, s) && q != 0 && q !in s.waits
    ensures Rep(tcb, head, tail, queues[q := WaitQueue(NULL, NULL)], DoNewQueue(s, q))
  {
    hide NoDup, Partition;
    assert Linked(tcb, NULL, []);
    hide Linked;
    NewQueuePartition(s, q);
  }

  lemma FreeQueueRep(tcb: seq<Thread>, head: int, tail: int, queues: map<nat, WaitQueue>, s: Sched, q: nat)
    requires Rep(tcb, head, tail, queues, s) && q in s.waits
    ensures Rep(tcb, head, tail, queues - {q}, DoFreeQueue(s, q)) <==> s.waits[q] == []
    ensures s.current in s.threads
  {
    hide NoDup, Partition, Linked;
    FreeQueuePartition(s, q);
    NotQueued(s);
  }

  lemma KillTail(tail: int, tail': int, s: Sched, k: nat)
    requires Tail(tail, s) && Partition(s) && k < |s.ready|
    requires tail' == if k + 1 == |s.ready| then (if k == 0 then NULL else s.ready[k - 1]) else tail
    ensures Tail(tail', DoKill(s, s.ready[k]).0)
  {
    IndexOf(s.ready, k);
    hide Partition;
  }

  lemma KillTable(tcb: seq<Thread>, tcb': seq<Thread>, s: Sched, k: nat)
    requires Table(tcb, s) && Partition(s) && k < |s.ready| && |tcb| == |tcb'|
    requires forall t | 0 <= t < |tcb| ::
               if t == s.ready[k] then !tcb'[t].isValid else tcb'[t].(next := NULL) == tcb[t].(next := NULL)
    ensures Table(tcb', DoKill(s, s.ready[k]).0)
  {
    IndexOf(s.ready, k);
    hide Partition;
  }

  /** One wait queue is respliced, and with it the ready queue. */
  lemma QueueRep(tcb: seq<Thread>, tcb': seq<Thread>, head: int, head': int, tail: int, tail': int,
                 queues: map<nat, WaitQueue>, s: Sched, s': Sched, q: nat, wq: WaitQueue)
    requires Rep(tcb, head, tail, queues, s) && |tcb| == |tcb'| && Partition(s') && Table(tcb', s')
    requires Linked(tcb', head', s'.ready) && Tail(tail', s') && q in s.waits && q in s'.waits
    requires s'.waits == s.waits[q := s'.waits[q]] && Linked(tcb', wq.head, s'.waits[q])
    requires s'.waits[q] != [] ==> wq.tail == s'.waits[q][|s'.waits[q]| - 1]
    requires forall t | 0 <= t < |tcb| && tcb'[t].next != tcb[t].next ::
               t in s.threads && (s.threads[t].place.Waiting? ==> s.threads[t].place.queue == q)
    ensures Rep(tcb', head', tail', queues[q := wq], s')
  {
    hide Linked, Table, Tail, NoDup;
    forall p | p in queues && p != q ensures Linked(tcb', queues[p].head, s.waits[p]) {
      LinkedFrame(tcb, tcb', queues[p].head, s.waits[p]);
    }
  }

  lemma SleepTable(tcb: seq<Thread>, tcb': seq<Thread>, s: Sched, q: nat)
    requires Table(tcb, s) && Partition(s) && q in s.waits && q != 0 && s.ready != []
    requires Saved(tcb, tcb', s, s.waits[q])
    ensures Table(tcb', DoSleep(s, q).0)
  {
    ReadyPlace(s, 0);
    hide Partition;
    forall i | 0 <= i < |tcb|
      ensures tcb'[i].(next := NULL) ==
                if i == s.current then tcb[i].(enabled := s.threads[i].enabled, next := NULL) else tcb[i].(next := NULL)
    {
    }
  }

  /** The running thread is at the end of wait queue q; the head of the ready queue is popped. */
  lemma SleepRep(tcb: seq<Thread>, tcb': seq<Thread>, head: int, tail: int, queues: map<nat, WaitQueue>, s: Sched,
                 q: nat, wq: WaitQueue)
    requires Rep(tcb, head, tail, queues, s) && q in s.waits && q != 0 && s.ready != []
    requires Saved(tcb, tcb', s, s.waits[q])
    requires Linked(tcb', wq.head, s.waits[q] + [s.current]) && wq.tail == s.current
    ensures 0 <= head < |tcb| == |tcb'| && Rep(tcb', tcb'[head].next, tail, queues[q := wq], DoSleep(s, q).0)
  {
    var s' := DoSleep(s, q).0;
    NotQueued(s);
    ReadyPlace(s, 0);
    SleepPartition(s, q);
    SleepTable(tcb, tcb', s, q);
    PlaceOf(s, q);
    hide Waiters, Partition, Table, NoDup, Linked;
    HeadIs(tcb, head, tail, queues, s);
    forall t | 0 <= t < |tcb| && tcb'[t].next != tcb[t].next
      ensures t in s.threads && s.threads[t].place != Ready
      ensures s.threads[t].place.Waiting? ==> s.threads[t].place.queue == q
    {
    }
    ReadyFrame(tcb, tcb', head, s);
    LinkedPop(tcb', head, s.ready);
    QueueRep(tcb, tcb', head, tcb'[head].next, tail, tail, queues, s, s', q, wq);
  }

  lemma PlaceOf(s: Sched, q: nat)
    requires Partition(s) && q in s.waits
    ensures forall t | t in s.waits[q] ::
              t in s.threads && s.threads[t].place == Waiting(q) && 0 <= t < THREAD_MAX_THREADS
    ensures s.current !in s.waits[q] && NoDup(s.waits[q])
  {
    hide NoDup;
  }

  lemma QueueIs(tcb: seq<Thread>, head: int, tail: int, queues: map<nat, WaitQueue>, s: Sched, q: nat)
    requires Rep(tcb, head, tail, queues, s) && q in s.waits
    ensures q in queues && Linked(tcb, queues[q].head, s.waits[q])
    ensures queues[q].head == NULL <==> s.waits[q] == []
    ensures s.waits[q] != [] ==>
              && queues[q].head == s.waits[q][0] && queues[q].tail == s.waits[q][|s.waits[q]| - 1]
              && 0 <= queues[q].head < |tcb| && 0 <= queues[q].tail < |tcb|
  {
    PlaceOf(s, q);
    hide Partition, Table, Tail, NoDup;
    var w := s.waits[q];
    if w != [] {
      assert w[0] in w && w[|w| - 1] in w;
    }
  }

  /** Two lists become one. */
  lemma LinkedJoin(tcb: seq<Thread>, tcb': seq<Thread>, head: int, a: seq<int>, mid: int, b: seq<int>)
    requires Linked(tcb, head, a) && Linked(tcb, mid, b) && a != [] && b != [] && NoDup(a)
    requires a[|a| - 1] !in b && |tcb'| == |tcb| && 0 <= a[|a| - 1] < |tcb|
    requires tcb'[a[|a| - 1]].next == mid
    requires forall t | 0 <= t < |tcb| && t != a[|a| - 1] :: tcb'[t].next == tcb[t].next
    ensures Linked(tcb', head, a + b)
  {
    DistinctFrom(a, |a| - 1);
    hide NoDup;
    var l := a + b;
    forall i: nat | i < |l| ensures 0 <= l[i] < |tcb| && tcb'[l[i]].next == Next(l, i) {
      if i < |a| {
        assert tcb[a[i]].next == Next(a, i);
      } else {
        var o := i - |a|;
        assert tcb[b[o]].next == Next(b, o) && b[o] in b;
      }
    }
  }

  lemma WakeTable(tcb: seq<Thread>, tcb': seq<Thread>, s: Sched, q: nat, n: nat)
    requires Table(tcb, s) && q in s.waits && n <= |s.waits[q]| && |tcb'| == |tcb|
    requires forall i | 0 <= i < |tcb| :: tcb'[i].(next := NULL) == tcb[i].(next := NULL)
    ensures Table(tcb', Wake(s, q, n))
  {
  }

  lemma LinkedLast(tcb: seq<Thread>, head: int, list: seq<int>)
    requires Linked(tcb, head, list) && list != []
    ensures 0 <= list[|list| - 1] < |tcb| && tcb[list[|list| - 1]].next == NULL
  {
    assert tcb[list[|list| - 1]].next == Next(list, |list| - 1);
  }

  /** The first n sleepers on q have joined the ready queue. */
  lemma WakeRep(tcb: seq<Thread>, tcb': seq<Thread>, head: int, head': int, tail: int, tail': int,
                queues: map<nat, WaitQueue>, s: Sched, q: nat, n: nat, wq: WaitQueue)
    requires Rep(tcb, head, tail, queues, s) && q in s.waits && 0 < n <= |s.waits[q]| && |tcb'| == |tcb|
    requires forall i | 0 <= i < |tcb| :: tcb'[i].(next := NULL) == tcb[i].(next := NULL)
    requires forall i | 0 <= i < |tcb| && tcb'[i].next != tcb[i].next :: i in s.ready || i in s.waits[q]
    requires Linked(tcb', head', s.ready + s.waits[q][..n]) && tail' == s.waits[q][n - 1]
    requires Linked(tcb', wq.head, s.waits[q][n..])
    requires n < |s.waits[q]| ==> wq.tail == s.waits[q][|s.waits[q]| - 1]
    ensures Rep(tcb', head', tail', queues[q := wq], Wake(s, q, n))
  {
    hide Waiters, Partition, Table, NoDup, Linked;
    var s' := Wake(s, q, n);
    WakePartition(s, q, n);
    WakeTable(tcb, tcb', s, q, n);
    PlaceOf(s, q);
    ReadyIn(s);
    assert s'.ready[|s'.ready| - 1] == s.waits[q][n - 1];
    forall t | 0 <= t < |tcb| && tcb'[t].next != tcb[t].next
      ensures t in s.threads && (s.threads[t].place.Waiting? ==> s.threads[t].place.queue == q)
    {
    }
    QueueRep(tcb, tcb', head, head', tail, tail', queues, s, s', q, wq);
  }

  /** Lines 440-449: the whole wait queue is spliced behind the ready queue. */
  lemma WakeAllLinked(tcb: seq<Thread>, tcb': seq<Thread>, head: int, ready: seq<int>, mid: int, w: seq<int>)
    requires Linked(tcb, head, ready) && Linked(tcb, mid, w) && w != [] && NoDup(ready) && |tcb'| == |tcb|
    requires forall t | t in ready :: t !in w
    requires ready == [] ==> tcb' == tcb
    requires ready != [] ==> 0 <= ready[|ready| - 1] < |tcb| && tcb' == SetNext(tcb, ready[|ready| - 1], mid)
    ensures Linked(tcb', if ready == [] then mid else head, ready + w[..|w|]) && ready + w == ready + w[..|w|]
    ensures Linked(tcb', NULL, w[|w|..]) && Linked(tcb', mid, w)
  {
    assert w[..|w|] == w;
    if ready != [] {
      assert ready[|ready| - 1] in ready;
    }
    LinkedFrame(tcb, tcb', mid, w);
    hide NoDup;
    if ready == [] {
      assert ready + w == w;
    } else {
      var last := ready[|ready| - 1];
      assert last in ready;
      LinkedJoin(tcb, tcb', head, ready, mid, w);
    }
  }

  /** Lines 464-474: the first sleeper goes to the end of the ready queue. */
  lemma WakeOneLinked(tcb: seq<Thread>, tcb': seq<Thread>, head: int, ready: seq<int>, mid: int, w: seq<int>)
    requires Linked(tcb, head, ready) && Linked(tcb, mid, w) && w != [] && NoDup(ready) && NoDup(w) && |tcb'| == |tcb|
    requires forall t | t in ready :: t !in w
    requires 0 <= mid < |tcb| && mid == w[0] && tcb'[mid].next == NULL
    requires ready != [] ==> 0 <= ready[|ready| - 1] < |tcb| && tcb'[ready[|ready| - 1]].next == mid
    requires forall t | 0 <= t < |tcb| && t != mid && !(ready != [] && t == ready[|ready| - 1]) ::
               tcb'[t].next == tcb[t].next
    ensures Linked(tcb', if ready == [] then mid else head, ready + w[..1]) && Linked(tcb', tcb[mid].next, w[1..])
  {
    assert w[..1] == [mid];
    assert mid in w && mid !in ready;
    PopNoDup(w);
    LinkedPop(tcb, mid, w);
    forall t | t in w[1..] && 0 <= t < |tcb| ensures tcb'[t].next == tcb[t].next {
      assert t in w;
    }
    LinkedFrame(tcb, tcb', tcb[mid].next, w[1..]);
    if ready == [] {
      LinkedOne(tcb', mid);
      assert ready + w[..1] == [mid];
    } else {
      LinkedAppend(tcb, tcb', head, ready, mid);
    }
  }

  lemma WakeFacts(s: Sched, q: nat, n: nat)
    requires Partition(s) && q in s.waits && n <= |s.waits[q]|
    ensures var t := Wake(s, q, n);
      && t.current == s.current && t.doomed == s.doomed && t.made == s.made && t.freed == s.freed
      && s.current in s.threads && s.current in t.threads
      && t.threads[t.current].enabled == s.threads[s.current].enabled
  {
  }

  lemma Apart(s: Sched, q: nat)
    requires Partition(s) && q in s.waits
    ensures forall t | t in s.ready :: t !in s.waits[q]
  {
  }

  /** The entry of the running thread holds no flag until it is suspended. */
  lemma InterruptsRep(tcb: seq<Thread>, head: int, tail: int, queues: map<nat, WaitQueue>, s: Sched, enabled: bool)
    requires Rep(tcb, head, tail, queues, s)
    ensures Rep(tcb, head, tail, queues, DoInterrupts(s, enabled).0)
  {
    hide Linked, NoDup;
    InterruptsPartition(s, enabled);
  }

  class Scheduler {
    const TCB: array<Thread>
    var current: int
    var head: int
    var tail: int
    var doomed: nat
    var queues: map<nat, WaitQueue>
    var interrupts: bool
    var mallocs: nat
    /** What free has been called with, null pointers apart. */
    var freed: seq<nat>
    ghost var s: Sched

    /** Everything but the interrupt flag, which is off inside the library. */
    ghost predicate Inside()
      reads this, TCB
    {
      && TCB.Length == THREAD_MAX_THREADS && Rep(TCB[..], head, tail, queues, s)
      && current == s.current && doomed == s.doomed && mallocs == s.made && freed == s.freed
    }

    ghost predicate Valid()
      reads this, TCB
    {
      Inside() && interrupts == s.threads[s.current].enabled
    }

    /** thread_init */
    constructor (enabled: bool)
      ensures Valid() && s == Initial(enabled)
    {
      TCB := new Thread[THREAD_MAX_THREADS](i => Thread(i == 0, 0, 0, false, NULL));
      current, head, tail := 0, NULL, NULL;
      doomed, mallocs, freed := 0, 0, [];
      queues := map[];
      interrupts := enabled;
      s := Initial(enabled);
    }

    method InterruptsSet(enabled: bool) returns (was: bool)
      modifies this`interrupts
      ensures was == old(interrupts) && interrupts == enabled
    {
      was := interrupts;
      interrupts := enabled;
    }

    /** interrupts_set, as the running thread calls it between the calls of the library. */
    method SetInterrupts(enabled: bool) returns (was: bool)
      requires Valid()
      modifies this`interrupts, this`s
      ensures Valid() && s == DoInterrupts(old(s), enabled).0 && was == old(interrupts)
    {
      hide Linked, NoDup, Tail, Waiters;
      was := InterruptsSet(enabled);
      InterruptsRep(TCB[..], head, tail, queues, s, enabled);
      s := DoInterrupts(s, enabled).0;
    }

    /** Lines 80-87: the scan for an unused entry. */
    method FirstInvalid() returns (i: int)
      requires TCB.Length == THREAD_MAX_THREADS && Rep(TCB[..], head, tail, queues, s)
      ensures i == FreeSlot(s, 0)
    {
      i := 0;
      while TCB[i].isValid
        invariant 0 <= i < THREAD_MAX_THREADS && FreeSlot(s, 0) == FreeSlot(s, i)
        decreases THREAD_MAX_THREADS - i
      {
        if i == THREAD_MAX_THREADS - 1 {
          return THREAD_MAX_THREADS;
        }
        i := i + 1;
      }
    }

    /** Lines 88-108: the entry is filled in, with the stack malloc returns. */
    method FillEntry(i: nat, memory: bool)
      requires i < TCB.Length
      modifies this`mallocs, TCB
      ensures mallocs == old(mallocs) + if memory then 1 else 0
      ensures TCB[i] == Thread(true, i, if memory then mallocs else 0, true, NULL)
      ensures forall j | 0 <= j < TCB.Length && j != i :: TCB[j] == old(TCB[j])
    {
      TCB[i] := TCB[i].(isValid := true, index := i, next := NULL, enabled := true);
      if memory {
        mallocs := mallocs + 1;
      }
      TCB[i] := TCB[i].(stack := if memory then mallocs else 0);
    }

    /** Lines 111-121: entry i goes to the end of the ready queue, as its tail says. */
    method LinkNew(i: nat)
      requires i < TCB.Length && (tail == NULL || (0 <= tail < TCB.Length && tail != i))
      modifies this`head, this`tail, TCB
      ensures tail == i && head == if old(head) == NULL then i else old(head)
      ensures old(tail) != NULL ==> TCB[old(tail)] == old(TCB[tail]).(next := i)
      ensures forall j | 0 <= j < TCB.Length && j != old(tail) :: TCB[j] == old(TCB[j])
    {
      if tail == NULL {
        tail := i;
      } else {
        TCB[tail] := TCB[tail].(next := i);
        tail := TCB[tail].next;
      }
      if head == NULL {
        head := tail;
      }
    }

    method ThreadCreate(memory: bool) returns (ret: int)
      requires Valid()
      modifies this, TCB
      ensures Valid() && (s, ret) == DoCreate(old(s), memory)
    {
      hide Rep, Partition, FreeSlot, Linked, Tail, NoDup, Table, DoCreate;
      CreateEffect(s, memory);
      var enable := InterruptsSet(false);
      var i := FirstInvalid();
      if i == THREAD_MAX_THREADS {
        interrupts := enable;
        return THREAD_NOMORE;
      }
      FreshNotReady(s, i);
      TailValid(TCB[..], tail, s);
      ghost var tcb0, head0, tail0 := TCB[..], head, tail;
      FillEntry(i, memory);
      if TCB[i].stack == 0 {
        interrupts := enable;
        CreateFailedRep(tcb0, TCB[..], head, tail, queues, s, i);
        s := DoCreate(s, memory).0;
        return THREAD_NOMEMORY;
      }
      LinkNew(i);
      interrupts := enable;
      ret := i;
      CreateRep(tcb0, TCB[..], head0, tail0, queues, s, i);
      s := DoCreate(s, memory).0;
    }

    /** Lines 203-241 and 297-322: the search of the ready queue, with the predecessor. */
    method Search(tid: int) returns (temp: int, pre: int)
      requires Inside()
      ensures var k := Index(s.ready, tid);
        && temp == (if k < |s.ready| then s.ready[k] else NULL)
        && pre == (if k > 0 then s.ready[k - 1] else NULL)
    {
      hide Rep, Index, Partition, Linked, Tail, NoDup;
      HeadIs(TCB[..], head, tail, queues, s);
      NoNull(s);
      temp, pre := head, NULL;
      ghost var k: nat := 0;
      while temp != NULL
        invariant k <= |s.ready| && temp == (if k < |s.ready| then s.ready[k] else NULL)
        invariant pre == (if k > 0 then s.ready[k - 1] else NULL)
        invariant forall i: nat | i < k :: s.ready[i] != tid
        decreases |s.ready| - k
      {
        ReadyAt(TCB[..], head, tail, queues, s, k);
        if TCB[temp].index == tid {
          IndexIs(s.ready, tid, k);
          return;
        }
        pre := temp;
        temp := TCB[temp].next;
        k := k + 1;
      }
      IndexIs(s.ready, tid, k);
    }

    /** free(stack_mem_to_be_deleted) on entry to thread_yield and thread_exit. */
    method FreeDoomed()
      requires Inside()
      modifies this`doomed, this`freed, this`s
      ensures Inside() && s == Reap(old(s))
    {
      ReapRep(TCB[..], head, tail, queues, s);
      hide Rep;
      s := Reap(s);
      if doomed != 0 {
        freed := freed + [doomed];
        doomed := 0;
      }
    }

    /** Lines 172-183 and 212-223: getcontext, then the running thread goes to the end of the ready queue. */
    method Enqueue(enable: bool)
      requires Inside() && s.ready != [] && enable == s.threads[s.current].enabled
      modifies this`tail, TCB
      ensures Linked(TCB[..], head, s.ready + [s.current]) && tail == current == s.current
      ensures Saved(old(TCB[..]), TCB[..], s, s.ready)
    {
      hide Rep, Partition, Linked, NoDup;
      NotQueued(s);
      HeadIs(TCB[..], head, tail, queues, s);
      ghost var tcb0 := TCB[..];
      assert tail in s.ready;
      TCB[current] := TCB[current].(enabled := enable);
      TCB[tail] := TCB[tail].(next := current);
      tail := TCB[tail].next;
      TCB[tail] := TCB[tail].(next := NULL);
      LinkedAppend(tcb0, TCB[..], head, s.ready, current);
    }

    /** setcontext to thread t: it runs, and restores the flag it had saved. */
    method SetContext(t: int)
      requires TCB.Length == THREAD_MAX_THREADS && Rep(TCB[..], head, tail, queues, s)
      requires doomed == s.doomed && mallocs == s.made && freed == s.freed
      requires 0 <= t < TCB.Length && TCB[t].index == t == s.current && t in s.threads
      requires TCB[t].enabled == s.threads[t].enabled
      modifies this`current, this`interrupts
      ensures Valid()
    {
      hide Rep;
      current := TCB[t].index;
      interrupts := TCB[current].enabled;
    }

    /** Lines 172-195: the head of the ready queue runs. */
    method YieldAny(enable: bool) returns (ret: int)
      requires Inside() && s.ready != [] && enable == s.threads[s.current].enabled
      modifies this, TCB
      ensures Valid() && s == SwitchTo(old(s), 0) && ret == s.current
    {
      hide Rep, Linked, Partition, NoDup, Saved, Rotated, SwitchTo, Tail;
      ghost var tcb0, tail0, head0, s0 := TCB[..], tail, head, s;
      NotQueued(s);
      ReadyAt(TCB[..], head, tail, queues, s, 0);
      HeadIs(TCB[..], head, tail, queues, s);
      SwitchFacts(s, 0);
      Enqueue(enable);
      SavedAt(tcb0, TCB[..], s, s.ready, head);
      Unlink(TCB[..], TCB[..], head, s.ready, s.current, 0);
      var tempHead := head;
      head := TCB[head].next;
      s := SwitchTo(s, 0);
      SwitchRep(tcb0, TCB[..], head0, head, tail0, queues, s0, 0);
      SetContext(tempHead);
      ret := TCB[tempHead].index;
    }

    /** Lines 224-229: the k-th thread is unlinked from the ready queue. */
    method UnlinkReady(temp: int, pre: int, ghost k: nat, ghost tcb0: seq<Thread>)
      requires k < |s.ready| && NoDup(s.ready) && s.current !in s.ready && Linked(TCB[..], head, s.ready + [s.current])
      requires temp == s.ready[k] && pre == (if k > 0 then s.ready[k - 1] else NULL) && Saved(tcb0, TCB[..], s, s.ready)
      requires 0 <= temp < TCB.Length && (k > 0 ==> 0 <= pre < TCB.Length)
      modifies this`head, TCB
      ensures Linked(TCB[..], head, Rotated(s.ready, k, s.current)) && Saved(tcb0, TCB[..], s, s.ready)
    {
      ghost var tcb1, head1 := TCB[..], head;
      hide Linked, NoDup, Saved, Rotated;
      LinkedHead(tcb1, head, s.ready + [s.current]);
      if pre == NULL {
        head := TCB[head].next;
      } else {
        TCB[pre] := TCB[pre].(next := TCB[temp].next);
        SavedNext(tcb0, tcb1, TCB[..], s, pre);
      }
      Unlink(tcb1, TCB[..], head1, s.ready, s.current, k);
    }

    /** Lines 209-237: the k-th ready thread runs. */
    method YieldTo(temp: int, pre: int, enable: bool, ghost k: nat) returns (ret: int)
      requires Inside() && k < |s.ready| && enable == s.threads[s.current].enabled
      requires temp == s.ready[k] && pre == (if k > 0 then s.ready[k - 1] else NULL)
      modifies this, TCB
      ensures Valid() && s == SwitchTo(old(s), k) && ret == s.current
    {
      hide Rep, Linked, Partition, NoDup, Saved, Rotated, SwitchTo, Tail;
      ghost var tcb0, tail0, head0, s0 := TCB[..], tail, head, s;
      NotQueued(s);
      ReadyAt(TCB[..], head, tail, queues, s, k);
      if k > 0 {
        ReadyAt(TCB[..], head, tail, queues, s, k - 1);
      }
      SwitchFacts(s, k);
      Enqueue(enable);
      UnlinkReady(temp, pre, k, tcb0);
      SavedAt(tcb0, TCB[..], s, s.ready, temp);
      s := SwitchTo(s, k);
      SwitchRep(tcb0, TCB[..], head0, head, tail0, queues, s0, k);
      SetContext(temp);
      ret := temp;
    }

    method ThreadYield(want: int) returns (ret: int)
      requires Valid() && want != THREAD_MAX_THREADS
      modifies this, TCB
      ensures Valid() && (s, ret) == DoYield(old(s), want)
    {
      hide Rep, Partition, Tail, Index, SwitchTo, NoDup, Linked;
      NotQueued(s);
      var enable := InterruptsSet(false);
      FreeDoomed();
      HeadIs(TCB[..], head, tail, queues, s);
      if want == THREAD_SELF {
        interrupts := enable;
        return current;
      }
      if want == current {
        interrupts := enable;
        return current;
      }
      if want == THREAD_ANY {
        if head == NULL {
          interrupts := enable;
          return THREAD_NONE;
        }
        TCB[current] := TCB[current].(next := NULL);
        HiddenNext(old(TCB[..]), TCB[..], head, tail, queues, s);
        SwitchFacts(s, 0);
        ret := YieldAny(enable);
        return;
      }
      TableOf(TCB[..], head, tail, queues, s);
      if !(want >= 0) || want > THREAD_MAX_THREADS || !TCB[want].isValid {
        interrupts := enable;
        return THREAD_INVALID;
      }
      var temp, pre := Search(want);
      if temp != NULL {
        SwitchFacts(s, Index(s.ready, want));
        ret := YieldTo(temp, pre, enable, Index(s.ready, want));
        return;
      }
      interrupts := enable;
      ret := if head == NULL then THREAD_NONE else THREAD_INVALID;
    }

    method ThreadExit() returns (ret: int)
      requires Valid()
      modifies this, TCB
      ensures Valid() && (s, ret) == DoExit(old(s))
    {
      hide Rep, Partition, Tail, NoDup, Linked;
      NotQueued(s);
      var enable := InterruptsSet(false);
      FreeDoomed();
      HeadIs(TCB[..], head, tail, queues, s);
      if head == NULL {
        interrupts := enable;
        return THREAD_NONE;
      }
      ReadyAt(TCB[..], head, tail, queues, s, 0);
      ghost var tcb0, head0, s0 := TCB[..], head, s;
      CurrentAt(TCB[..], head, tail, queues, s);
      TCB[current] := TCB[current].(isValid := false);
      var tempHead := head;
      head := TCB[head].next;
      doomed := TCB[current].stack;
      s := DoExit(s).0;
      ExitRep(tcb0, TCB[..], head0, tail, queues, s0);
      SetContext(tempHead);
      ret := current;
    }

    method ThreadKill(tid: int) returns (ret: int)
      requires Valid()
      modifies this, TCB
      ensures Valid() && (s, ret) == DoKill(old(s), tid)
    {
      hide Rep, Partition, Tail, NoDup, Linked, Index;
      NotQueued(s);
      var enable := InterruptsSet(false);
      HeadIs(TCB[..], head, tail, queues, s);
      TableOf(TCB[..], head, tail, queues, s);
      NotReady(s, tid);
      if tid == current || !(0 <= tid < THREAD_MAX_THREADS) || !TCB[tid].isValid {
        interrupts := enable;
        return THREAD_INVALID;
      }
      if head == NULL {
        interrupts := enable;
        return THREAD_INVALID;
      }
      var temp, pre := Search(tid);
      if temp != NULL {
        KillAt(temp, pre, Index(s.ready, tid));
        interrupts := enable;
        return tid;
      }
      interrupts := enable;
      ret := THREAD_INVALID;
    }

    /** Lines 310-315: the entry of a killed thread is given up, and its stack freed unless it is thread 0. */
    method FreeEntry(t: int)
      requires 0 <= t < TCB.Length
      modifies this`freed, TCB
      ensures freed == if t == 0 || old(TCB[t].stack) == 0 then old(freed) else old(freed) + [old(TCB[t].stack)]
      ensures !TCB[t].isValid && TCB[t].next == old(TCB[t].next)
      ensures forall i | 0 <= i < TCB.Length && i != t :: TCB[i] == old(TCB[i])
    {
      TCB[t] := TCB[t].(isValid := false);
      if t != 0 {
        if TCB[t].stack != 0 {
          freed := freed + [TCB[t].stack];
        }
        TCB[t] := TCB[t].(stack := 0);
      }
    }

    /** Lines 301-308: the k-th thread is unlinked from the ready queue. */
    method UnlinkKilled(temp: int, pre: int, ghost k: nat)
      requires Inside() && k < |s.ready| && temp == s.ready[k] && pre == (if k > 0 then s.ready[k - 1] else NULL)
      requires 0 <= temp < TCB.Length
      modifies this`head, this`tail, TCB
      ensures Linked(TCB[..], head, Removed(s.ready, k))
      ensures tail == if k + 1 == |s.ready| then (if k == 0 then NULL else s.ready[k - 1]) else old(tail)
      ensures forall t | 0 <= t < TCB.Length :: TCB[t].(next := NULL) == old(TCB[t]).(next := NULL)
      ensures forall t | 0 <= t < TCB.Length && TCB[t].next != old(TCB[t]).next :: t in s.ready
    {
      hide Rep, Partition, Tail, NoDup, Linked, Removed;
      ghost var tcb0, head0 := TCB[..], head;
      NotQueued(s);
      HeadIs(TCB[..], head, tail, queues, s);
      ReadyAt(TCB[..], head, tail, queues, s, k);
      if pre == NULL {
        head := TCB[head].next;
      } else {
        ReadyAt(TCB[..], head, tail, queues, s, k - 1);
        TCB[pre] := TCB[pre].(next := TCB[temp].next);
      }
      KillLinked(tcb0, TCB[..], head0, s.ready, k);
      if TCB[temp].next == NULL {
        tail := pre;
      }
    }

    /** Lines 301-315 */
    method KillAt(temp: int, pre: int, ghost k: nat)
      requires Inside() && k < |s.ready| && temp == s.ready[k] && pre == (if k > 0 then s.ready[k - 1] else NULL)
      modifies this, TCB
      ensures Inside() && s == DoKill(old(s), temp).0
    {
      hide Rep, Partition, Tail, NoDup, Linked, Removed, DoKill, Index;
      ghost var tcb0, head0, tail0, s0 := TCB[..], head, tail, s;
      ReadyAt(TCB[..], head, tail, queues, s, k);
      UnlinkKilled(temp, pre, k);
      ghost var tcb1 := TCB[..];
      FreeEntry(temp);
      s := DoKill(s, temp).0;
      SameNext(tcb1, TCB[..], head, Removed(s0.ready, k));
      KillFacts(s0, k);
      KillRep(tcb0, TCB[..], head0, head, tail0, tail, queues, s0, k);
    }

    /** wait_queue_create: q is the address malloc returns. */
    method WaitQueueCreate(q: nat)
      requires Valid() && q != 0 && q !in s.waits
      modifies this`queues, this`s
      ensures Valid() && s == DoNewQueue(old(s), q)
    {
      hide Rep;
      NewQueueRep(TCB[..], head, tail, queues, s, q);
      queues := queues[q := WaitQueue(NULL, NULL)];
      s := DoNewQueue(s, q);
    }

    /** wait_queue_destroy, which does not look into the queue: all is well exactly when nobody sleeps there. */
    method WaitQueueDestroy(q: nat)
      requires Valid() && q in s.waits
      modifies this`queues, this`s
      ensures s == DoFreeQueue(old(s), q) && queues == old(queues) - {q}
      ensures Valid() <==> old(s.waits[q]) == []
    {
      hide Rep, Partition;
      FreeQueueRep(TCB[..], head, tail, queues, s, q);
      queues := queues - {q};
      s := DoFreeQueue(s, q);
    }

    /** Lines 401-409: the running thread goes to the end of the wait queue. */
    method EnqueueWaiting(q: nat, enable: bool)
      requires Inside() && q in s.waits && enable == s.threads[s.current].enabled
      modifies this`queues, TCB
      ensures Saved(old(TCB[..]), TCB[..], s, s.waits[q])
      ensures q in queues && queues == old(queues)[q := queues[q]]
      ensures Linked(TCB[..], queues[q].head, s.waits[q] + [s.current]) && queues[q].tail == s.current
    {
      hide Rep, Partition, Linked, NoDup;
      NotQueued(s);
      PlaceOf(s, q);
      QueueIs(TCB[..], head, tail, queues, s, q);
      ghost var tcb0 := TCB[..];
      TCB[current] := TCB[current].(enabled := enable);
      var wq := queues[q];
      if wq.head == NULL {
        wq := WaitQueue(current, current);
        TCB[wq.tail] := TCB[wq.tail].(next := NULL);
        LinkedOne(TCB[..], current);
        assert s.waits[q] + [s.current] == [current];
      } else {
        assert wq.tail in s.waits[q];
        TCB[wq.tail] := TCB[wq.tail].(next := current);
        wq := wq.(tail := TCB[wq.tail].next);
        TCB[wq.tail] := TCB[wq.tail].(next := NULL);
        LinkedAppend(tcb0, TCB[..], wq.head, s.waits[q], current);
      }
      queues := queues[q := wq];
    }

    method ThreadSleep(q: nat) returns (ret: int)
      requires Valid() && (q == 0 || q in s.waits)
      modifies this, TCB
      ensures Valid() && (s, ret) == DoSleep(old(s), q)
    {
      hide Rep, Partition, Linked, NoDup, Tail, Saved;
      NotQueued(s);
      HeadIs(TCB[..], head, tail, queues, s);
      var enable := InterruptsSet(false);
      if q == 0 {
        interrupts := enable;
        return THREAD_INVALID;
      }
      if head == NULL {
        interrupts := enable;
        return THREAD_NONE;
      }
      ReadyAt(TCB[..], head, tail, queues, s, 0);
      ghost var tcb0, queues0, head0, s0 := TCB[..], queues, head, s;
      var tempHead := head;
      EnqueueWaiting(q, enable);
      SavedAt(tcb0, TCB[..], s, s.waits[q], tempHead);
      head := TCB[head].next;
      s := DoSleep(s, q).0;
      SleepRep(tcb0, TCB[..], head0, tail, queues0, s0, q, queues[q]);
      SetContext(tempHead);
      ret := TCB[tempHead].index;
    }

    /** Lines 452-457: how many threads follow from head. */
    method Count(start: int, ghost list: seq<int>) returns (c: nat)
      requires Linked(TCB[..], start, list)
      ensures c == |list|
    {
      hide NoDup, Rep, Partition;
      LinkedNotNull(TCB[..], start, list);
      var temp := start;
      c := 0;
      while temp != NULL
        invariant c <= |list| && temp == (if c < |list| then list[c] else NULL)
        decreases |list| - c
      {
        assert TCB[list[c]].next == Next(list, c);
        c := c + 1;
        temp := TCB[temp].next;
      }
    }

    /** Lines 440-462: every sleeper wakes. */
    method WakeAll(q: nat) returns (c: int)
      requires Inside() && q in s.waits && s.waits[q] != []
      modifies this, TCB
      ensures Inside() && interrupts == old(interrupts)
      ensures c == |old(s).waits[q]| && s == Wake(old(s), q, c)
    {
      hide Rep, Partition, NoDup, Linked, Tail, Wake;
      ghost var tcb0, head0, tail0, s0, queues0 := TCB[..], head, tail, s, queues;
      NotQueued(s);
      HeadIs(TCB[..], head, tail, queues, s);
      QueueIs(TCB[..], head, tail, queues, s, q);
      Apart(s, q);
      PlaceOf(s, q);
      ghost var w := s.waits[q];
      var wq := queues[q];
      if head == NULL {
        head := wq.head;
        tail := wq.tail;
        TCB[tail] := TCB[tail].(next := NULL);
      } else {
        TCB[tail] := TCB[tail].(next := wq.head);
        tail := wq.tail;
        TCB[tail] := TCB[tail].(next := NULL);
      }
      wq := wq.(tail := NULL);
      LinkedLast(tcb0, wq.head, w);
      assert s.ready != [] ==> tail0 in s.ready && w[|w| - 1] in w;
      assert TCB[..] == if s.ready == [] then tcb0 else SetNext(tcb0, tail0, wq.head);
      WakeAllLinked(tcb0, TCB[..], head0, s.ready, wq.head, w);
      c := Count(wq.head, w);
      wq := wq.(head := NULL);
      queues := queues[q := wq];
      s := Wake(s, q, |w|);
      assert w[|w|..] == [];
      WakeRep(tcb0, TCB[..], head0, head, tail0, tail, queues0, s0, q, |w|, wq);
      WakeFacts(s0, q, |w|);
    }

    /** Lines 464-476: the first sleeper wakes. */
    method WakeOne(q: nat)
      requires Inside() && q in s.waits && s.waits[q] != []
      modifies this, TCB
      ensures Inside() && interrupts == old(interrupts) && s == Wake(old(s), q, 1)
    {
      hide Rep, Partition, NoDup, Linked, Tail, Wake;
      ghost var tcb0, head0, tail0, s0, queues0 := TCB[..], head, tail, s, queues;
      NotQueued(s);
      HeadIs(TCB[..], head, tail, queues, s);
      QueueIs(TCB[..], head, tail, queues, s, q);
      Apart(s, q);
      PlaceOf(s, q);
      ghost var w := s.waits[q];
      var wq := queues[q];
      assert wq.head in w;
      if head == NULL {
        head := wq.head;
        tail := head;
        wq := wq.(head := TCB[wq.head].next);
        TCB[tail] := TCB[tail].(next := NULL);
      } else {
        assert tail in s.ready;
        TCB[tail] := TCB[tail].(next := wq.head);
        tail := TCB[tail].next;
        wq := wq.(head := TCB[wq.head].next);
        TCB[tail] := TCB[tail].(next := NULL);
      }
      queues := queues[q := wq];
      WakeOneLinked(tcb0, TCB[..], head0, s.ready, w[0], w);
      s := Wake(s, q, 1);
      WakeRep(tcb0, TCB[..], head0, head, tail0, tail, queues0, s0, q, 1, wq);
      WakeFacts(s0, q, 1);
    }

    method ThreadWakeup(q: nat, all: bool) returns (ret: int)
      requires Valid() && (q == 0 || q in s.waits)
      modifies this, TCB
      ensures Valid() && (s, ret) == DoWakeup(old(s), q, all)
    {
      hide Rep, Partition, NoDup, Linked, Tail, Wake;
      NotQueued(s);
      var enable := InterruptsSet(false);
      if q == 0 {
        interrupts := enable;
        return 0;
      }
      QueueIs(TCB[..], head, tail, queues, s, q);
      if queues[q].head == NULL {
        interrupts := enable;
        return 0;
      }
      WakeFacts(s, q, if all then |s.waits[q]| else 1);
      if all {
        ret := WakeAll(q);
      } else {
        WakeOne(q);
        ret := 1;
      }
      interrupts := enable;
    }
  }
}
