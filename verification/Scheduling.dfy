/** What the thread library does (threads/thread.c), as functions on a plain value: one running
    thread, one ready queue, any number of wait queues. */
module Scheduling {
  import opened Lists

  const THREAD_MAX_THREADS := 1024

  const THREAD_ANY := -1
  const THREAD_SELF := -2
  const THREAD_INVALID := -3
  const THREAD_NONE := -4
  const THREAD_NOMORE := -5
  const THREAD_NOMEMORY := -6

  /** The null pointer, for threads; stacks and wait queues use 0. */
  const NULL := -1

  /** Where a valid thread is. One whose stack could not be allocated is nowhere. */
  datatype Place = Running | Ready | Waiting(queue: nat) | Nowhere

  /** A valid thread: its stack, and the interrupt flag it runs under when it runs. */
  datatype Info = Info(place: Place, stack: nat, enabled: bool)

  /** Stacks are numbered in the order they are allocated; 0 is the null pointer, and what the main
      thread has. doomed is stack_mem_to_be_deleted, freed lists the stacks freed so far. */
  datatype Sched = Sched(current: int, ready: seq<int>, waits: map<nat, seq<int>>, threads: map<int, Info>,
                         doomed: nat, made: nat, freed: seq<nat>)

  datatype Event = Create(memory: bool) | Yield(want: int) | Exit | Kill(tid: int)
                 | NewQueue(queue: nat) | FreeQueue(queue: nat) | Sleep(on: nat) | Wakeup(of: nat, all: bool)
                 | Interrupts(enabled: bool)

  /** After thread_init. */
  function Initial(enabled: bool): Sched {
    Sched(0, [], map[], map[0 := Info(Running, 0, enabled)], 0, 0, [])
  }

  /** Every valid thread but those nowhere is in exactly one of {running, ready queue, one wait queue},
      once. */
  predicate Partition(s: Sched) {
    && s.current in s.threads && s.threads[s.current].place == Running
    && (forall t | t in s.threads ::
          && 0 <= t < THREAD_MAX_THREADS
          && match s.threads[t].place
             case Running => t == s.current
             case Ready => t in s.ready
             case Waiting(q) => q in s.waits && t in s.waits[q]
             case Nowhere => true)
    && (forall t | t in s.ready :: t in s.threads && s.threads[t].place == Ready)
    && (forall q, t | q in s.waits && t in s.waits[q] :: t in s.threads && s.threads[t].place == Waiting(q))
    && NoDup(s.ready) && 0 !in s.waits
    && (forall q | q in s.waits :: NoDup(s.waits[q]))
  }

  function Move(s: Sched, t: int, place: Place): map<int, Info>
    requires t in s.threads
  {
    s.threads[t := s.threads[t].(place := place)]
  }

  /** The stack of the last thread to exit is freed by the next one to yield or exit. */
  function Reap(s: Sched): Sched {
    if s.doomed == 0 then s else s.(doomed := 0, freed := s.freed + [s.doomed])
  }

  /** The k-th thread leaves the queue and c joins it at the end. */
  function Rotated(ready: seq<int>, k: nat, c: int): seq<int>
    requires k < |ready|
  {
    Removed(ready, k) + [c]
  }

  /** The k-th ready thread runs, and the running one goes to the back of the queue. */
  function SwitchTo(s: Sched, k: nat): Sched
    requires Partition(s) && k < |s.ready|
  {
    var t := s.ready[k];
    s.(current := t, ready := Rotated(s.ready, k, s.current),
       threads := Move(s, s.current, Ready)[t := s.threads[t].(place := Running)])
  }

  function DoYield(s: Sched, want: int): (Sched, int)
    requires Partition(s)
  {
    var r := Reap(s);
    var k := Index(s.ready, want);
    if want == THREAD_SELF || want == s.current then (r, s.current)
    else if want == THREAD_ANY then
      if s.ready == [] then (r, THREAD_NONE) else (SwitchTo(r, 0), s.ready[0])
    else if want !in s.threads then (r, THREAD_INVALID)
    else if k < |s.ready| then (SwitchTo(r, k), want)
    else if s.ready == [] then (r, THREAD_NONE)
    else (r, THREAD_INVALID)
  }

  function DoExit(s: Sched): (Sched, int)
    requires Partition(s)
  {
    var r := Reap(s);
    if s.ready == [] then (r, THREAD_NONE)
    else
      var t := s.ready[0];
      (r.(current := t, ready := s.ready[1..], doomed := s.threads[s.current].stack,
          threads := Move(s, t, Running) - {s.current}), t)
  }

  function DoKill(s: Sched, tid: int): (Sched, int)
    requires Partition(s)
  {
    var k := Index(s.ready, tid);
    if k == |s.ready| then (s, THREAD_INVALID)
    else
      var stack := s.threads[tid].stack;
      (s.(ready := Removed(s.ready, k), threads := s.threads - {tid},
          freed := if tid == 0 || stack == 0 then s.freed else s.freed + [stack]), tid)
  }

  /** The least number that no valid thread has. */
  function FreeSlot(s: Sched, i: nat): (r: nat)
    requires i <= THREAD_MAX_THREADS
    ensures i <= r <= THREAD_MAX_THREADS && (forall t | i <= t < r :: t in s.threads)
    ensures r < THREAD_MAX_THREADS ==> r !in s.threads
    decreases THREAD_MAX_THREADS - i
  {
    if i == THREAD_MAX_THREADS || i !in s.threads then i else FreeSlot(s, i + 1)
  }

  /** A new thread starts in thread_stub, which turns interrupts on. */
  function DoCreate(s: Sched, memory: bool): (Sched, int)
    requires Partition(s)
  {
    var i := FreeSlot(s, 0);
    if i == THREAD_MAX_THREADS then (s, THREAD_NOMORE)
    else if !memory then (s.(threads := s.threads[i := Info(Nowhere, 0, true)]), THREAD_NOMEMORY)
    else (s.(ready := s.ready + [i], threads := s.threads[i := Info(Ready, s.made + 1, true)], made := s.made + 1), i)
  }

  function DoNewQueue(s: Sched, q: nat): Sched {
    s.(waits := s.waits[q := []])
  }

  function DoFreeQueue(s: Sched, q: nat): Sched {
    s.(waits := s.waits - {q})
  }

  function DoSleep(s: Sched, q: nat): (Sched, int)
    requires Partition(s) && (q == 0 || q in s.waits)
  {
    if q == 0 then (s, THREAD_INVALID)
    else if s.ready == [] then (s, THREAD_NONE)
    else
      var t := s.ready[0];
      (s.(current := t, ready := s.ready[1..], waits := s.waits[q := s.waits[q] + [s.current]],
          threads := Move(s, s.current, Waiting(q))[t := s.threads[t].(place := Running)]), t)
  }

  /** The first n threads asleep on q become ready, in the order they went to sleep. */
  function Wake(s: Sched, q: nat, n: nat): Sched
    requires q in s.waits && n <= |s.waits[q]|
  {
    var up := s.waits[q][..n];
    s.(ready := s.ready + up, waits := s.waits[q := s.waits[q][n..]],
       threads := map t | t in s.threads :: if t in up then s.threads[t].(place := Ready) else s.threads[t])
  }

  function DoWakeup(s: Sched, q: nat, all: bool): (Sched, int)
    requires q == 0 || q in s.waits
  {
    if q == 0 || s.waits[q] == [] then (s, 0)
    else
      var n := if all then |s.waits[q]| else 1;
      (Wake(s, q, n), n)
  }

  /** interrupts_set, by the running thread itself. */
  function DoInterrupts(s: Sched, enabled: bool): (Sched, int)
    requires s.current in s.threads
  {
    var was := s.threads[s.current];
    (s.(threads := s.threads[s.current := was.(enabled := enabled)]), if was.enabled then 1 else 0)
  }

  /** What a caller has to respect: the address of a live wait queue, or null; a queue is freed only
      when it is empty; and a thread number that does not read past the end of the table
      (threads/thread.c:198). */
  predicate Enabled(s: Sched, e: Event) {
    match e
    case Yield(want) => want != THREAD_MAX_THREADS
    case Sleep(q) => q == 0 || q in s.waits
    case Wakeup(q, _) => q == 0 || q in s.waits
    case NewQueue(q) => q != 0 && q !in s.waits
    case FreeQueue(q) => q in s.waits && s.waits[q] == []
    case _ => true
  }

  function Apply(s: Sched, e: Event): (Sched, int)
    requires Partition(s) && Enabled(s, e)
  {
    match e
    case Create(memory) => DoCreate(s, memory)
    case Yield(want) => DoYield(s, want)
    case Exit => DoExit(s)
    case Kill(tid) => DoKill(s, tid)
    case NewQueue(q) => (DoNewQueue(s, q), 0)
    case FreeQueue(q) => (DoFreeQueue(s, q), 0)
    case Sleep(q) => DoSleep(s, q)
    case Wakeup(q, all) => DoWakeup(s, q, all)
    case Interrupts(enabled) => DoInterrupts(s, enabled)
  }

  lemma SwitchPartition(s: Sched, k: nat)
    requires Partition(s) && k < |s.ready|
    ensures Partition(SwitchTo(s, k))
  {
    RemoveNoDup(s.ready, k);
    hide NoDup;
    var t := s.ready[k];
    AppendNoDup(s.ready[..k] + s.ready[k + 1..], s.current);
    assert t in s.ready;
  }

  lemma ExitPartition(s: Sched)
    requires Partition(s)
    ensures Partition(DoExit(s).0)
  {
    if s.ready != [] {
      PopNoDup(s.ready);
      hide NoDup;
    }
  }

  lemma KillPartition(s: Sched, tid: int)
    requires Partition(s)
    ensures Partition(DoKill(s, tid).0)
  {
    hide NoDup;
    var k := Index(s.ready, tid);
    if k < |s.ready| {
      RemoveNoDup(s.ready, k);
    }
  }

  lemma CreatePartition(s: Sched, memory: bool)
    requires Partition(s)
    ensures Partition(DoCreate(s, memory).0)
  {
    var i := FreeSlot(s, 0);
    if i < THREAD_MAX_THREADS && memory {
      AppendNoDup(s.ready, i);
      hide NoDup, FreeSlot;
    } else {
      hide NoDup, FreeSlot;
    }
  }

  lemma SleepPartition(s: Sched, q: nat)
    requires Partition(s) && (q == 0 || q in s.waits)
    ensures Partition(DoSleep(s, q).0)
  {
    if q != 0 && s.ready != [] {
      PopNoDup(s.ready);
      AppendNoDup(s.waits[q], s.current);
      hide NoDup;
    }
  }

  lemma NewQueuePartition(s: Sched, q: nat)
    requires Partition(s) && q != 0 && q !in s.waits
    ensures Partition(DoNewQueue(s, q))
  {
    assert NoDup<int>([]);
    hide NoDup;
  }

  /** wait_queue_destroy does not look into the queue, and whoever sleeps there is lost. */
  lemma FreeQueuePartition(s: Sched, q: nat)
    requires Partition(s) && q in s.waits
    ensures Partition(DoFreeQueue(s, q)) <==> s.waits[q] == []
  {
    var after := DoFreeQueue(s, q);
    if s.waits[q] != [] {
      var t := s.waits[q][0];
      assert t in s.waits[q] && t in after.threads;
    } else {
      hide NoDup;
      forall t | t in s.threads && s.threads[t].place.Waiting?
        ensures s.threads[t].place.queue in after.waits && t in after.waits[s.threads[t].place.queue]
      {
        assert t in s.waits[s.threads[t].place.queue];
      }
    }
  }

  lemma WakePartition(s: Sched, q: nat, n: nat)
    requires Partition(s) && q in s.waits && n <= |s.waits[q]|
    ensures Partition(Wake(s, q, n))
  {
    var w := s.waits[q];
    assert w == w[..n] + w[n..];
    forall t | t in w ensures t in w[..n] <==> t !in w[n..] {
    }
    assert forall t | t in s.ready :: t !in w;
    JoinNoDup(s.ready, w[..n]);
    assert NoDup(w[n..]);
    hide NoDup;
  }

  lemma ReapPartition(s: Sched)
    requires Partition(s)
    ensures Partition(Reap(s)) && Reap(s).threads == s.threads && Reap(s).waits == s.waits
    ensures Reap(s).current == s.current && Reap(s).ready == s.ready
  {
    hide NoDup;
  }

  /** No event takes a thread out of its one place, or puts it in two. */
  lemma ApplyPartition(s: Sched, e: Event)
    requires Partition(s) && Enabled(s, e)
    ensures Partition(Apply(s, e).0)
  {
    match e
    case Create(memory) => CreatePartition(s, memory);
    case Yield(want) =>
      assert Partition(Reap(s));
      if s.ready != [] {
        SwitchPartition(Reap(s), 0);
      }
      if Index(s.ready, want) < |s.ready| {
        SwitchPartition(Reap(s), Index(s.ready, want));
      }
    case Exit => ExitPartition(s);
    case Kill(tid) => KillPartition(s, tid);
    case NewQueue(q) => NewQueuePartition(s, q);
    case FreeQueue(q) => FreeQueuePartition(s, q);
    case Sleep(q) => SleepPartition(s, q);
    case Wakeup(q, all) =>
      if q != 0 && s.waits[q] != [] {
        WakePartition(s, q, if all then |s.waits[q]| else 1);
      }
    case Interrupts(enabled) => InterruptsPartition(s, enabled);
  }

  lemma InterruptsPartition(s: Sched, enabled: bool)
    requires Partition(s)
    ensures Partition(DoInterrupts(s, enabled).0)
  {
    hide NoDup;
  }
}
