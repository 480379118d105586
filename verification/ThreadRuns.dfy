/** What holds over whole runs of the thread library: where threads are, how long a ready thread
    waits, and when stacks are freed. */
module ThreadRuns {
  import opened Lists
  import opened Scheduling
  import Threads

  function After(s: Sched, e: Event): Sched
    requires Partition(s) && Enabled(s, e)
  {
    Apply(s, e).0
  }

  /** Every event of the run is one its caller may issue at that point. */
  predicate Legal(s: Sched, es: seq<Event>)
    requires Partition(s)
    decreases |es|
  {
    es == [] || (Enabled(s, es[0]) && (ApplyPartition(s, es[0]); Legal(After(s, es[0]), es[1..])))
  }

  function Run(s: Sched, es: seq<Event>): (r: Sched)
    requires Partition(s) && Legal(s, es)
    ensures Partition(r)
    decreases |es|
  {
    if es == [] then s else (ApplyPartition(s, es[0]); Run(After(s, es[0]), es[1..]))
  }

  lemma InitialState(enabled: bool)
    ensures var s := Initial(enabled); Partition(s) && AllPlaced(s) && Stacks(s) && Accounted(s)
  {
  }

  predicate AllPlaced(s: Sched) {
    forall t | t in s.threads :: s.threads[t].place != Nowhere
  }

  /** Exactly a create that finds a number but no memory leaves a valid thread in no queue. */
  lemma LostThread(s: Sched, e: Event)
    requires Partition(s) && Enabled(s, e) && AllPlaced(s)
    ensures AllPlaced(After(s, e)) <==> !(e == Create(false) && FreeSlot(s, 0) < THREAD_MAX_THREADS)
  {
    if e.Create? {
      hide NoDup;
      if FreeSlot(s, 0) < THREAD_MAX_THREADS && !e.memory {
        assert FreeSlot(s, 0) in After(s, e).threads;
      }
    } else {
      hide AllPlaced;
      PlacedStays(s, e);
    }
  }

  lemma PlacedStays(s: Sched, e: Event)
    requires Partition(s) && Enabled(s, e) && AllPlaced(s) && !e.Create?
    ensures AllPlaced(After(s, e))
  {
    NotReady(s, s.current);
    if s.ready != [] {
      assert s.ready[0] in s.ready;
    }
    if e.Yield? {
      NotReady(s, e.want);
    }
    hide NoDup, Removed, Rotated, Index;
  }

  /** The flag that thread t runs under after an event: the one it had, or the one it sets itself. */
  function FlagAfter(s: Sched, e: Event, t: int, flag: bool): bool {
    if e.Interrupts? && t == s.current then e.enabled else flag
  }

  /** An event changes the interrupt flag of no thread that survives it but the one that sets its own. */
  lemma FlagKept(s: Sched, e: Event, t: int)
    requires Partition(s) && Enabled(s, e) && t in s.threads && t in After(s, e).threads
    ensures After(s, e).threads[t].enabled == FlagAfter(s, e, t, s.threads[t].enabled)
  {
    NotReady(s, s.current);
    if s.ready != [] {
      assert s.ready[0] in s.ready;
    }
    if e.Yield? {
      NotReady(s, e.want);
    }
    hide NoDup, Removed, Rotated;
  }

  /** Thread t is there all through the run. */
  predicate Survives(s: Sched, es: seq<Event>, t: int)
    requires Partition(s) && Legal(s, es)
    decreases |es|
  {
    t in s.threads && (es == [] || (ApplyPartition(s, es[0]); Survives(After(s, es[0]), es[1..], t)))
  }

  /** The flag that thread t was the last to set for itself, or the one it started the run with. */
  function LastSet(s: Sched, es: seq<Event>, t: int, flag: bool): bool
    requires Partition(s) && Legal(s, es)
    decreases |es|
  {
    if es == [] then flag
    else (ApplyPartition(s, es[0]); LastSet(After(s, es[0]), es[1..], t, FlagAfter(s, es[0], t, flag)))
  }

  lemma {:induction false} FlagRun(s: Sched, es: seq<Event>, t: int)
    requires Partition(s) && Legal(s, es) && Survives(s, es, t)
    ensures t in Run(s, es).threads
    ensures Run(s, es).threads[t].enabled == LastSet(s, es, t, s.threads[t].enabled)
    decreases |es|
  {
    if es != [] {
      assert t in After(s, es[0]).threads by {
        ApplyPartition(s, es[0]);
        assert Survives(After(s, es[0]), es[1..], t);
      }
      FlagKept(s, es[0], t);
      ApplyPartition(s, es[0]);
      hide Partition, Apply;
      FlagRun(After(s, es[0]), es[1..], t);
    }
  }

  /** Whenever a thread runs again, and has been there all the time, the interrupt flag of the machine is what it
      last set it to itself, whatever the threads that ran in between have set it to. */
  twostate lemma FlagRestored(library: Threads.Scheduler, es: seq<Event>)
    requires old(library.Valid()) && library.Valid()
    requires Partition(old(library.s)) && Legal(old(library.s), es) && library.s == Run(old(library.s), es)
    requires library.s.current == old(library.s.current) && Survives(old(library.s), es, library.s.current)
    ensures library.interrupts == LastSet(old(library.s), es, library.s.current, old(library.interrupts))
  {
    FlagRun(old(library.s), es, library.s.current);
  }

  /** The head of the ready queue gets the processor, if there is one. */
  predicate Front(e: Event) {
    e == Yield(THREAD_ANY) || e == Exit || (e.Sleep? && e.on != 0)
  }

  /** Besides asking for it by its number, these are the events by which the head comes to run. */
  lemma FrontIff(s: Sched, e: Event)
    requires Partition(s) && Enabled(s, e) && s.ready != [] && e != Yield(s.ready[0])
    ensures Front(e) <==> After(s, e).current == s.ready[0]
  {
    assert s.ready[0] in s.ready;
    hide NoDup, Rotated, Removed, Move;
  }

  lemma IndexRemoved(list: seq<int>, t: int, k: nat)
    requires NoDup(list) && t in list && k < |list| && list[k] != t
    ensures var i := Index(list, t);
      t in Removed(list, k) && Index(Removed(list, k), t) == if k < i then i - 1 else i
  {
    IndexIn(list, t);
    var i := Index(list, t);
    IndexIs(Removed(list, k), t, if k < i then i - 1 else i);
  }

  lemma IndexAppend(list: seq<int>, more: seq<int>, t: int)
    requires t in list
    ensures t in list + more && Index(list + more, t) == Index(list, t)
  {
    IndexIn(list, t);
    IndexIs(list + more, t, Index(list, t));
  }

  /** t is running, or at most k places from the head of the ready queue. */
  predicate Within(s: Sched, t: int, k: int) {
    s.current == t || (t in s.ready && Index(s.ready, t) <= k)
  }

  lemma AdvanceYield(s: Sched, want: int, t: int)
    requires Partition(s) && Enabled(s, Yield(want)) && t in s.ready
    ensures Within(After(s, Yield(want)), t, Index(s.ready, t) - if want == THREAD_ANY then 1 else 0)
  {
    hide NoDup, Removed, Index, Move;
    IndexIn(s.ready, t);
    var k := if want == THREAD_ANY then 0 else Index(s.ready, want);
    if want != THREAD_SELF && want != s.current && k < |s.ready| && s.ready[k] != t {
      IndexRemoved(s.ready, t, k);
      IndexAppend(Removed(s.ready, k), [s.current], t);
    }
  }

  lemma AdvanceKill(s: Sched, tid: int, t: int)
    requires Partition(s) && t in s.ready && tid != t
    ensures Within(After(s, Kill(tid)), t, Index(s.ready, t))
  {
    hide NoDup, Removed;
    var k := Index(s.ready, tid);
    if k < |s.ready| {
      IndexRemoved(s.ready, t, k);
    }
  }

  lemma AdvanceWakeup(s: Sched, q: nat, all: bool, t: int)
    requires Partition(s) && (q == 0 || q in s.waits) && t in s.ready
    ensures Within(After(s, Wakeup(q, all)), t, Index(s.ready, t))
  {
    hide NoDup;
    if q != 0 && s.waits[q] != [] {
      IndexAppend(s.ready, s.waits[q][..if all then |s.waits[q]| else 1], t);
    }
  }

  lemma AdvancePop(s: Sched, e: Event, t: int)
    requires Partition(s) && Enabled(s, e) && t in s.ready && (e.Exit? || e.Sleep?)
    ensures Within(After(s, e), t, Index(s.ready, t) - if Front(e) then 1 else 0)
  {
    hide NoDup, Removed;
    if s.ready[0] != t {
      IndexRemoved(s.ready, t, 0);
      PopRemoved(s.ready);
    }
  }

  lemma AdvanceCreate(s: Sched, memory: bool, t: int)
    requires Partition(s) && t in s.ready
    ensures Within(After(s, Create(memory)), t, Index(s.ready, t))
  {
    hide NoDup, FreeSlot;
    IndexAppend(s.ready, [FreeSlot(s, 0)], t);
  }

  /** No event moves a ready thread back, and one that dispatches the head moves it forward. */
  lemma Advance(s: Sched, e: Event, t: int)
    requires Partition(s) && Enabled(s, e) && t in s.ready && e != Kill(t)
    ensures Within(After(s, e), t, Index(s.ready, t) - if Front(e) then 1 else 0)
  {
    match e
    case Create(memory) =>
      hide Partition, After, Within, Index;
      AdvanceCreate(s, memory, t);
    case Yield(want) =>
      hide Partition, After, Within, Index;
      AdvanceYield(s, want, t);
    case Kill(tid) =>
      hide Partition, After, Within, Index;
      AdvanceKill(s, tid, t);
    case NewQueue(q) => hide Partition, NoDup;
    case FreeQueue(q) => hide Partition, NoDup;
    case Interrupts(_) => hide Partition, NoDup;
    case Wakeup(q, all) =>
      hide Partition, After, Within, Index;
      AdvanceWakeup(s, q, all, t);
    case _ =>
      hide Partition, After, Within, Index;
      AdvancePop(s, e, t);
  }

  lemma PopRemoved(list: seq<int>)
    requires list != []
    ensures Removed(list, 0) == list[1..]
  {
  }

  function Fronts(es: seq<Event>): nat {
    if es == [] then 0 else (if Front(es[0]) then 1 else 0) + Fronts(es[1..])
  }

  /** Thread t has the processor at the end of the run or at some point in it. */
  predicate RunsIn(s: Sched, es: seq<Event>, t: int)
    requires Partition(s) && Legal(s, es)
    decreases |es|
  {
    s.current == t || (es != [] && (ApplyPartition(s, es[0]); RunsIn(After(s, es[0]), es[1..], t)))
  }

  /** A ready thread that is not killed either runs, or has moved up by one for every dispatch. */
  lemma {:induction false} Progress(s: Sched, es: seq<Event>, t: int)
    requires Partition(s) && Legal(s, es) && t in s.ready && Kill(t) !in es
    ensures RunsIn(s, es, t) || (t in Run(s, es).ready && Index(Run(s, es).ready, t) + Fronts(es) <= Index(s.ready, t))
    decreases |es|
  {
    if es != [] {
      Advance(s, es[0], t);
      ApplyPartition(s, es[0]);
      hide Partition, Index, Apply;
      assert es == [es[0]] + es[1..];
      if After(s, es[0]).current == t {
        assert RunsIn(After(s, es[0]), es[1..], t);
      } else {
        Progress(After(s, es[0]), es[1..], t);
      }
    }
  }

  /** A thread with k others before it runs before k + 1 dispatches are over, whatever else happens. */
  lemma BoundedWaiting(s: Sched, es: seq<Event>, t: int)
    requires Partition(s) && Legal(s, es) && t in s.ready && Kill(t) !in es
    requires Fronts(es) > Index(s.ready, t)
    ensures RunsIn(s, es, t)
  {
    Progress(s, es, t);
  }

  /** Every live stack belongs to one thread, or waits to be freed; a freed one does neither. */
  predicate Stacks(s: Sched) {
    && s.doomed <= s.made && s.doomed !in s.freed && NoDup(s.freed)
    && (forall p | p in s.freed :: 1 <= p <= s.made)
    && (forall t | t in s.threads ::
          var p := s.threads[t].stack;
          p <= s.made && p !in s.freed && (p != 0 ==> p != s.doomed))
    && (forall t, u | t in s.threads && u in s.threads && t != u ::
          s.threads[t].stack == s.threads[u].stack ==> s.threads[t].stack == 0)
  }

  lemma ReapStacks(s: Sched)
    requires Stacks(s)
    ensures Stacks(Reap(s))
  {
    if s.doomed != 0 {
      AppendNoDup(s.freed, s.doomed);
      hide NoDup;
    }
  }

  lemma KillStacks(s: Sched, tid: int)
    requires Partition(s) && Stacks(s)
    ensures Stacks(DoKill(s, tid).0)
  {
    NotReady(s, tid);
    hide NoDup, Removed, Partition;
    if Index(s.ready, tid) < |s.ready| && s.threads[tid].stack != 0 {
      AppendNoDup(s.freed, s.threads[tid].stack);
    }
  }

  lemma ExitStacks(s: Sched)
    requires Partition(s) && Stacks(s)
    ensures Stacks(DoExit(s).0)
  {
    ReapStacks(s);
    NotReady(s, s.current);
    hide NoDup;
    if s.ready != [] {
      assert s.ready[0] in s.ready;
    }
    hide Partition;
  }

  lemma NotReady(s: Sched, t: int)
    requires Partition(s)
    ensures s.current in s.threads && (Index(s.ready, t) < |s.ready| ==> t in s.threads && t != s.current)
  {
    hide NoDup;
    if Index(s.ready, t) < |s.ready| {
      assert t in s.ready;
    }
  }

  lemma StacksSame(s: Sched, s': Sched)
    requires Stacks(s) && s'.made == s.made && s'.doomed == s.doomed && s'.freed == s.freed
    requires s'.threads.Keys == s.threads.Keys && forall t | t in s.threads :: s'.threads[t].stack == s.threads[t].stack
    ensures Stacks(s')
  {
    hide NoDup;
  }

  lemma CreateStacks(s: Sched, memory: bool)
    requires Partition(s) && Stacks(s)
    ensures Stacks(DoCreate(s, memory).0)
  {
    hide NoDup, Partition;
  }

  /** Events that neither make, end nor kill a thread leave every stack with its owner. */
  lemma SameStacks(s: Sched, e: Event)
    requires Partition(s) && Enabled(s, e) && !e.Create? && !e.Exit? && !e.Kill?
    ensures var r, s' := if e.Yield? then Reap(s) else s, After(s, e);
      && s'.made == r.made && s'.doomed == r.doomed && s'.freed == r.freed
      && s'.threads.Keys == r.threads.Keys && forall t | t in r.threads :: s'.threads[t].stack == r.threads[t].stack
  {
    hide NoDup, Removed;
    NotReady(s, s.current);
    if s.ready != [] {
      assert s.ready[0] in s.ready;
    }
    if e.Yield? {
      NotReady(s, e.want);
    }
    hide Partition, Rotated;
  }

  /** A stack is freed at most once, and not while a thread that has it is running or queued. */
  lemma StacksStep(s: Sched, e: Event)
    requires Partition(s) && Enabled(s, e) && Stacks(s)
    ensures Stacks(After(s, e))
  {
    hide Stacks, Apply;
    match e
    case Create(memory) => CreateStacks(s, memory); Unfold(s, e);
    case Exit => ExitStacks(s); Unfold(s, e);
    case Kill(tid) => KillStacks(s, tid); Unfold(s, e);
    case _ =>
      ReapStacks(s);
      SameStacks(s, e);
      StacksSame(if e.Yield? then Reap(s) else s, After(s, e));
  }

  lemma Unfold(s: Sched, e: Event)
    requires Partition(s) && Enabled(s, e)
    ensures e.Create? ==> Apply(s, e) == DoCreate(s, e.memory)
    ensures e.Exit? ==> Apply(s, e) == DoExit(s)
    ensures e.Kill? ==> Apply(s, e) == DoKill(s, e.tid)
  {
  }

  lemma {:induction false} StacksRun(s: Sched, es: seq<Event>)
    requires Partition(s) && Legal(s, es) && Stacks(s)
    ensures Stacks(Run(s, es)) && s.freed <= Run(s, es).freed
    decreases |es|
  {
    if es != [] {
      StacksStep(s, es[0]);
      ApplyPartition(s, es[0]);
      assert s.freed <= After(s, es[0]).freed;
      hide Partition, Stacks, Apply;
      StacksRun(After(s, es[0]), es[1..]);
    }
  }

  /** So the library itself calls free at most once for each stack, and for none that a valid thread has. */
  twostate lemma FreedOnce(library: Threads.Scheduler, es: seq<Event>)
    requires old(library.Valid()) && library.Valid()
    requires Partition(old(library.s)) && Legal(old(library.s), es) && library.s == Run(old(library.s), es)
    requires Stacks(old(library.s))
    ensures NoDup(library.freed) && old(library.freed) <= library.freed
    ensures forall t | 0 <= t < library.TCB.Length && library.TCB[t].isValid :: library.TCB[t].stack !in library.freed
  {
    StacksRun(old(library.s), es);
    hide Partition, NoDup;
  }

  predicate Owned(s: Sched, p: nat) {
    exists t :: t in s.threads && s.threads[t].stack == p
  }

  /** No stack is lost: each one made has been freed, is about to be, or belongs to a thread. */
  predicate Accounted(s: Sched) {
    forall p | 1 <= p <= s.made :: p in s.freed || p == s.doomed || Owned(s, p)
  }

  lemma AccountedSame(s: Sched, s': Sched)
    requires Accounted(s) && s'.made == s.made && s'.doomed == s.doomed && s'.freed == s.freed
    requires s'.threads.Keys == s.threads.Keys && forall t | t in s.threads :: s'.threads[t].stack == s.threads[t].stack
    ensures Accounted(s')
  {
    forall p | 1 <= p <= s.made && Owned(s, p) ensures Owned(s', p) {
      var t :| t in s.threads && s.threads[t].stack == p;
      assert t in s'.threads;
    }
  }

  lemma ReapAccounted(s: Sched)
    requires Accounted(s)
    ensures Accounted(Reap(s))
  {
    var r := Reap(s);
    forall p | 1 <= p <= s.made ensures p in r.freed || p == r.doomed || Owned(r, p) {
      assert Owned(s, p) ==> Owned(r, p);
    }
  }

  lemma CreateAccounted(s: Sched, memory: bool)
    requires Partition(s) && Accounted(s)
    ensures Accounted(DoCreate(s, memory).0)
  {
    hide Partition;
    var s' := DoCreate(s, memory).0;
    forall p | 1 <= p <= s'.made ensures p in s'.freed || p == s'.doomed || Owned(s', p) {
      if p > s.made {
        assert FreeSlot(s, 0) in s'.threads;
      } else if Owned(s, p) {
        var t :| t in s.threads && s.threads[t].stack == p;
        assert t in s'.threads && s'.threads[t].stack == p;
      }
    }
  }

  lemma ExitAccounted(s: Sched)
    requires Partition(s) && Accounted(s)
    ensures Accounted(DoExit(s).0)
  {
    NotReady(s, s.current);
    if s.ready != [] {
      assert s.ready[0] in s.ready;
    }
    hide Partition;
    ReapAccounted(s);
    var r, s' := Reap(s), DoExit(s).0;
    forall p | 1 <= p <= s'.made ensures p in s'.freed || p == s'.doomed || Owned(s', p) {
      if p !in r.freed && Owned(r, p) {
        var t :| t in r.threads && r.threads[t].stack == p;
        assert t != s.current && s.ready != [] ==> t in s'.threads && s'.threads[t].stack == p;
      }
    }
  }

  lemma KillAccounted(s: Sched, tid: int)
    requires Partition(s) && Accounted(s) && Stacks(s)
    ensures Accounted(DoKill(s, tid).0) <==> !(tid == 0 && 0 in s.ready && s.threads[0].stack != 0)
  {
    NotReady(s, tid);
    IndexIn(s.ready, tid);
    hide Partition, Removed, NoDup;
    var s' := DoKill(s, tid).0;
    if tid in s.ready {
      var stack := s.threads[tid].stack;
      if tid == 0 && stack != 0 {
        assert stack !in s'.freed && stack != s'.doomed && !Owned(s', stack);
      }
      forall p | 1 <= p <= s'.made && (p == stack ==> tid != 0)
        ensures p in s'.freed || p == s'.doomed || Owned(s', p)
      {
        if p !in s.freed && p != stack && Owned(s, p) {
          var t :| t in s.threads && s.threads[t].stack == p;
          assert t in s'.threads && s'.threads[t].stack == p;
        }
      }
    }
  }

  /** Exactly killing a later thread that took number 0 loses a stack (threads/thread.c:312). */
  lemma LostStack(s: Sched, e: Event)
    requires Partition(s) && Enabled(s, e) && Stacks(s) && Accounted(s)
    ensures Accounted(After(s, e)) <==> !(e == Kill(0) && 0 in s.ready && s.threads[0].stack != 0)
  {
    hide Stacks, Accounted, Apply;
    match e
    case Create(memory) => CreateAccounted(s, memory); Unfold(s, e);
    case Exit => ExitAccounted(s); Unfold(s, e);
    case Kill(tid) => KillAccounted(s, tid); Unfold(s, e);
    case _ =>
      ReapAccounted(s);
      SameStacks(s, e);
      AccountedSame(if e.Yield? then Reap(s) else s, After(s, e));
  }
}
