/** Locks and condition variables (threads/thread.c:481-614) as a machine whose steps are the stretches of
    code between two changes of the interrupt flag or of the running thread. A timer interrupt may
    preempt the running thread whenever the flag is on, wherever it is. */
module Locks {
  import opened Lists
  import opened Scheduling

  /** Where a thread is, with the interrupt flags that the calls it is in have saved: outer lists those
      to be restored by lock_acquire and, if it was called there, cv_wait. */
  datatype Pc =
    | User
    | Starting
    | Yielding(e: bool)
    | Sleeping(e: bool)
    | Preempted(at: Pc)
    | Testing(l: nat, outer: seq<bool>)
    | LockSleeping(l: nat, i: bool, outer: seq<bool>)
    | Returning(outer: seq<bool>)
    | Releasing(c: nat, l: nat, e: bool)
    | Unlocked(c: nat, l: nat, e: bool)
    | CvSleeping(c: nat, l: nat, i: bool, e: bool)
    | Reacquiring(l: nat, e: bool)

  datatype Lock = Lock(queue: nat, available: bool)

  /** What a wait queue is for. */
  datatype Use = OfLock(lock: nat) | OfCv(cv: nat) | OfUser

  /** held is not in the code: who is past lock_acquire and has not released. */
  datatype State = State(s: Sched, flag: bool, pc: map<int, Pc>, locks: map<nat, Lock>, cvs: map<nat, nat>,
                         uses: map<nat, Use>, held: map<nat, set<int>>)

  datatype Action = Preempt | Continue | Acquire(l: nat) | Release(l: nat) | Wait(c: nat, l: nat)
                  | Signal(c: nat, l: nat) | Broadcast(c: nat, l: nat) | Plain(e: Event) | SetFlag(on: bool)
                  | NewLock(l: nat, q: nat) | DestroyLock(l: nat) | NewCv(c: nat, q: nat)

  predicate Shape(st: State) {
    && Partition(st.s) && st.pc.Keys == st.s.threads.Keys
    && st.uses.Keys == st.s.waits.Keys && st.held.Keys == st.locks.Keys
    && (forall l | l in st.locks :: st.locks[l].queue in st.uses && st.uses[st.locks[l].queue] == OfLock(l))
    && (forall c | c in st.cvs :: st.cvs[c] in st.uses && st.uses[st.cvs[c]] == OfCv(c))
    && (forall t | t in st.pc :: Mentions(st, st.pc[t]))
  }

  /** The locks and condition variables a thread is about to use are there. */
  predicate Mentions(st: State, p: Pc) {
    match p
    case Testing(l, outer) => l in st.locks && outer != []
    case LockSleeping(l, _, outer) => l in st.locks && outer != []
    case Returning(outer) => outer != []
    case Releasing(c, l, _) => c in st.cvs && l in st.locks
    case Unlocked(c, l, _) => c in st.cvs && l in st.locks
    case CvSleeping(_, l, _, _) => l in st.locks
    case Reacquiring(l, _) => l in st.locks
    case Preempted(at) => at == User
    case _ => true
  }

  predicate Uses(p: Pc, l: nat) {
    (p.Testing? || p.LockSleeping? || p.Releasing? || p.Unlocked? || p.CvSleeping? || p.Reacquiring?) && p.l == l
  }

  function At(st: State): Pc
    requires Shape(st)
  {
    st.pc[st.s.current]
  }

  /** Only the holder releases a lock, or waits with it; a lock is destroyed only when nobody is in a
      call that will still use it; other calls use queues that belong to neither locks nor conditions, and
      SetFlag stands for interrupts_set. */
  predicate Enabled(st: State, a: Action)
    requires Shape(st)
  {
    match a
    case Preempt => st.flag
    case Continue => At(st) != User
    case _ =>
      At(st) == User &&
      match a
      case Acquire(l) => l in st.locks
      case Release(l) => l in st.locks && (st.locks[l].available || st.held[l] <= {st.s.current})
      case Wait(c, l) => c in st.cvs && l in st.locks && (st.locks[l].available || st.held[l] <= {st.s.current})
      case Signal(c, l) => c in st.cvs && l in st.locks
      case Broadcast(c, l) => c in st.cvs && l in st.locks
      case NewLock(l, q) => l !in st.locks && q != 0 && q !in st.s.waits
      case DestroyLock(l) => l in st.locks && (st.locks[l].available ==> forall t | t in st.pc :: !Uses(st.pc[t], l))
      case NewCv(c, q) => c !in st.cvs && q != 0 && q !in st.s.waits
      case Plain(e) => Scheduling.Enabled(st.s, e) && OwnQueue(st, e)
      case _ => true
  }

  predicate OwnQueue(st: State, e: Event)
    requires Shape(st)
  {
    match e
    case Sleep(q) => q in st.uses ==> st.uses[q] == OfUser
    case Wakeup(q, _) => q in st.uses ==> st.uses[q] == OfUser
    case FreeQueue(q) => q in st.uses ==> st.uses[q] == OfUser
    case Interrupts(_) => false
    case _ => true
  }

  /** The running thread goes on at p, with the flag at f. */
  function Goto(st: State, p: Pc, f: bool): State {
    st.(pc := st.pc[st.s.current := p], flag := f)
  }

  /** The running thread is suspended at p; the next one finds interrupts off. */
  function Suspend(st: State, s: Sched, p: Pc): State {
    st.(s := s, pc := st.pc[st.s.current := p], flag := false)
  }

  /** thread_sleep on q: suspended at p, or, when no thread is ready, straight on to otherwise. */
  function SleepOn(st: State, q: nat, p: Pc, otherwise: Pc): State
    requires Shape(st) && q in st.s.waits && q != 0
  {
    if st.s.ready == [] then Goto(st, otherwise, st.flag) else Suspend(st, DoSleep(st.s, q).0, p)
  }

  /** lock_release, which keeps the flag. */
  function Unlock(st: State, l: nat): State
    requires Shape(st) && l in st.locks
  {
    var lock := st.locks[l];
    if lock.available then st
    else st.(s := DoWakeup(st.s, lock.queue, true).0, locks := st.locks[l := lock.(available := true)],
             held := st.held[l := st.held[l] - {st.s.current}])
  }

  function Resume(st: State): State
    requires Shape(st)
  {
    match At(st)
    case User => st
    case Starting => Goto(st, User, true)
    case Yielding(e) => Goto(st, User, e)
    case Sleeping(e) => Goto(st, User, e)
    case Preempted(at) => Goto(st, at, true)
    case Testing(l, outer) =>
      var lock := st.locks[l];
      if lock.available then
        Goto(st.(locks := st.locks[l := lock.(available := false)], held := st.held[l := st.held[l] + {st.s.current}]),
             Returning(outer), st.flag)
      else
        SleepOn(st, lock.queue, LockSleeping(l, st.flag, outer), Testing(l, outer))
    case LockSleeping(l, i, outer) => Goto(st, Testing(l, outer), i)
    case Returning(outer) => Goto(st, if |outer| == 1 then User else Returning(outer[1..]), outer[0])
    case Releasing(c, l, e) => Goto(Unlock(st, l), Unlocked(c, l, e), st.flag)
    case Unlocked(c, l, e) => SleepOn(st, st.cvs[c], CvSleeping(c, l, st.flag, e), Reacquiring(l, e))
    case CvSleeping(c, l, i, e) => Goto(st, Reacquiring(l, e), i)
    case Reacquiring(l, e) => Goto(st, Testing(l, [st.flag, e]), false)
  }

  /** Who is gone holds nothing. */
  function Drop(held: map<nat, set<int>>, t: int): map<nat, set<int>> {
    map l | l in held :: held[l] - {t}
  }

  function Call(st: State, e: Event): State
    requires Shape(st) && Scheduling.Enabled(st.s, e)
  {
    var (s, r) := Apply(st.s, e);
    match e
    case Create(_) =>
      if r == THREAD_NOMORE then st else st.(s := s, pc := st.pc[FreeSlot(st.s, 0) := Starting])
    case Yield(_) => if s.current == st.s.current then st.(s := s) else Suspend(st, s, Yielding(st.flag))
    case Exit =>
      if r == THREAD_NONE then st.(s := s)
      else st.(s := s, pc := st.pc - {st.s.current}, flag := false, held := Drop(st.held, st.s.current))
    case Kill(tid) => if r == THREAD_INVALID then st else st.(s := s, pc := st.pc - {tid}, held := Drop(st.held, tid))
    case NewQueue(q) => st.(s := s, uses := st.uses[q := OfUser])
    case FreeQueue(q) => st.(s := s, uses := st.uses - {q})
    case Sleep(_) => if s.current == st.s.current then st else Suspend(st, s, Sleeping(st.flag))
    case Wakeup(_, _) => st.(s := s)
    case Interrupts(_) => st
  }

  function Next(st: State, a: Action): State
    requires Shape(st) && Enabled(st, a)
  {
    match a
    case Preempt =>
      var s := DoYield(st.s, THREAD_ANY).0;
      if st.s.ready == [] then st.(s := s) else Suspend(st, s, Preempted(At(st)))
    case Continue => Resume(st)
    case Acquire(l) => Goto(st, Testing(l, [st.flag]), false)
    case Release(l) => Unlock(st, l)
    case Wait(c, l) => if st.locks[l].available then st else Goto(st, Releasing(c, l, st.flag), false)
    case Signal(c, l) => if st.locks[l].available then st else st.(s := DoWakeup(st.s, st.cvs[c], false).0)
    case Broadcast(c, l) => if st.locks[l].available then st else st.(s := DoWakeup(st.s, st.cvs[c], true).0)
    case Plain(e) => Call(st, e)
    case SetFlag(on) => st.(flag := on)
    case NewLock(l, q) =>
      st.(s := DoNewQueue(st.s, q), uses := st.uses[q := OfLock(l)], locks := st.locks[l := Lock(q, true)],
          held := st.held[l := {}])
    case DestroyLock(l) =>
      if !st.locks[l].available then st
      else st.(s := DoFreeQueue(st.s, st.locks[l].queue), uses := st.uses - {st.locks[l].queue},
               locks := st.locks - {l}, held := st.held - {l})
    case NewCv(c, q) =>
      st.(s := DoNewQueue(st.s, q), uses := st.uses[q := OfCv(c)], cvs := st.cvs[c := q])
  }

  /** Where a thread can be while it is not running: never between two steps of cv_wait. */
  predicate Suspended(p: Pc) {
    p.Starting? || p.Yielding? || p.Sleeping? || p.Preempted? || p.LockSleeping? || p.CvSleeping?
  }

  /** Flags saved by nested calls are off; only the outermost can be on. */
  predicate Nested(outer: seq<bool>) {
    forall i | 0 <= i < |outer| - 1 :: !outer[i]
  }

  predicate Saved(p: Pc) {
    match p
    case Testing(_, outer) => Nested(outer)
    case LockSleeping(_, i, outer) => !i && Nested(outer)
    case Returning(outer) => Nested(outer)
    case CvSleeping(_, _, i, _) => !i
    case _ => true
  }

  predicate Flags(st: State)
    requires Shape(st)
  {
    && (st.flag ==> At(st) == User)
    && forall t | t in st.pc :: Saved(st.pc[t]) && (t != st.s.current ==> Suspended(st.pc[t]))
  }

  /** A thread asleep on a queue is in the call that the queue belongs to. */
  predicate Asleep(p: Pc, u: Use) {
    match u
    case OfLock(l) => p.LockSleeping? && p.l == l
    case OfCv(c) => p.CvSleeping? && p.c == c
    case OfUser => p.Sleeping?
  }

  predicate Queues(st: State)
    requires Shape(st)
  {
    forall q, t | q in st.s.waits && t in st.s.waits[q] :: t in st.pc && Asleep(st.pc[t], st.uses[q])
  }

  /** At most one thread is past lock_acquire; nobody sleeps on a lock that is free. */
  predicate Guarded(st: State, l: nat)
    requires Shape(st) && l in st.locks
  {
    && (st.locks[l].available ==> st.s.waits[st.locks[l].queue] == [] && st.held[l] == {})
    && (forall t | t in st.held[l] :: t in st.pc)
    && (forall t, u | t in st.held[l] && u in st.held[l] :: t == u)
  }

  predicate Exclusion(st: State)
    requires Shape(st)
  {
    forall l | l in st.locks :: Guarded(st, l)
  }

  /** Whoever is about to release a lock in cv_wait still holds it. */
  predicate Owner(st: State)
    requires Shape(st)
  {
    At(st).Releasing? ==> st.locks[At(st).l].available || st.held[At(st).l] <= {st.s.current}
  }

  predicate Inv(st: State)
    ensures Inv(st) ==> Shape(st)
  {
    Shape(st) && Flags(st) && Queues(st) && Exclusion(st) && Owner(st)
  }

  lemma CurrentFacts(s: Sched)
    requires Partition(s)
    ensures s.current in s.threads && 0 !in s.waits
    ensures forall q | q in s.waits :: s.current !in s.waits[q]
    ensures s.ready != [] ==> s.ready[0] in s.threads && s.ready[0] != s.current
  {
    hide NoDup;
    if s.ready != [] {
      var t := s.ready[0];
      assert t in s.ready;
    }
  }

  lemma SuspendedAt(st: State, t: int)
    requires Shape(st) && Flags(st) && t in st.pc && t != st.s.current
    ensures Suspended(st.pc[t]) && !st.pc[t].Releasing?
  {
  }

  /** Queues, locks and conditions keep their names; threads may come and go, and move. */
  lemma ShapeKept(st: State, to: State)
    requires Shape(st) && Partition(to.s) && to.pc.Keys == to.s.threads.Keys && to.s.waits.Keys == st.s.waits.Keys
    requires to.uses == st.uses && to.cvs == st.cvs && to.held.Keys == to.locks.Keys == st.locks.Keys
    requires forall l | l in st.locks :: to.locks[l].queue == st.locks[l].queue
    requires forall t | t in to.pc :: Mentions(st, to.pc[t])
    ensures Shape(to)
  {
    hide Partition;
    forall t | t in to.pc ensures Mentions(to, to.pc[t]) {
      assert Mentions(st, to.pc[t]);
    }
  }

  /** What is asleep in the new state was asleep there before, or belongs there. */
  lemma QueuesKept(st: State, to: State)
    requires Shape(st) && Queues(st) && Shape(to) && to.uses == st.uses
    requires forall q, t | q in to.s.waits && t in to.s.waits[q] ::
               t in to.pc && ((t in st.s.waits[q] && to.pc[t] == st.pc[t]) || Asleep(to.pc[t], to.uses[q]))
    ensures Queues(to)
  {
    hide Asleep, Partition, Mentions;
  }

  /** A suspended thread takes over, or the running one stays. */
  lemma FlagsKept(st: State, to: State)
    requires Shape(st) && Flags(st) && Shape(to) && (to.flag ==> At(to) == User)
    requires forall t | t in to.pc ::
               || (t in st.pc && to.pc[t] == st.pc[t] && t != st.s.current)
               || (Saved(to.pc[t]) && (Suspended(to.pc[t]) || t == to.s.current))
    ensures Flags(to)
  {
    hide Partition, Mentions, Saved, Suspended;
  }

  lemma OwnerKept(st: State, to: State)
    requires Shape(st) && Flags(st) && Shape(to) && to.s.current in st.pc
    requires At(to) == st.pc[to.s.current] && to.s.current != st.s.current
    ensures Owner(to)
  {
    hide Partition, Mentions;
  }

  /** Locks that are free still have no sleeper, and holders are still there. */
  lemma ExclusionKept(st: State, to: State)
    requires Shape(st) && Exclusion(st) && Shape(to) && to.locks == st.locks && to.held == st.held && to.uses == st.uses
    requires to.pc.Keys == st.pc.Keys
    requires forall l | l in st.locks && st.locks[l].available && st.s.waits[st.locks[l].queue] == [] ::
               to.s.waits[st.locks[l].queue] == []
    ensures Exclusion(to)
  {
    hide Asleep, Partition, Mentions;
    forall l | l in to.locks ensures Guarded(to, l) {
      assert Guarded(st, l);
    }
  }

  /** The running thread stays where it is, and so do the others; new ones are suspended. */
  lemma FlagsGrow(st: State, to: State)
    requires Shape(st) && Flags(st) && Shape(to) && to.flag == st.flag && to.s.current == st.s.current
    requires st.s.current in st.pc && st.s.current in to.pc && At(to) == At(st)
    requires forall t | t in to.pc :: (t in st.pc && to.pc[t] == st.pc[t]) || (Saved(to.pc[t]) && Suspended(to.pc[t]))
    ensures Flags(to)
  {
    hide Partition, Mentions, Saved, Suspended;
  }

  /** The running thread goes on elsewhere. */
  lemma FlagsMove(st: State, to: State)
    requires Shape(st) && Flags(st) && Shape(to) && to.s.current == st.s.current && (to.flag ==> At(to) == User)
    requires forall t | t in to.pc && t != to.s.current :: t in st.pc && to.pc[t] == st.pc[t]
    requires Saved(At(to))
    ensures Flags(to)
  {
    hide Partition, Mentions, Saved, Suspended;
  }

  lemma OwnerSame(st: State, to: State)
    requires Shape(st) && Owner(st) && Shape(to) && to.s.current == st.s.current && st.s.current in st.pc
    requires At(to) == At(st)
    requires At(st).Releasing? && At(st).l in st.locks ==>
               && At(st).l in to.locks && to.locks[At(st).l] == st.locks[At(st).l]
               && to.held[At(st).l] == st.held[At(st).l]
    ensures Owner(to)
  {
    hide Partition, Mentions;
    MentionsLock(st, At(st));
  }

  /** Nothing has happened to lock l, though threads may have come. */
  lemma GuardedSame(st: State, to: State, l: nat)
    requires Shape(st) && Shape(to) && l in st.locks && l in to.locks && Guarded(st, l) && st.pc.Keys <= to.pc.Keys
    requires to.locks[l] == st.locks[l] && to.held[l] == st.held[l]
    requires to.s.waits[st.locks[l].queue] == st.s.waits[st.locks[l].queue]
    ensures Guarded(to, l)
  {
    hide Partition, Mentions;
  }

  lemma LockGuarded(st: State, to: State, l: nat)
    requires Shape(to) && l in to.locks
    requires to.pc.Keys == st.pc.Keys && (forall t | t in to.held[l] :: t in st.pc)
    requires forall t, u | t in to.held[l] && u in to.held[l] :: t == u
    requires to.locks[l].available ==> to.held[l] == {} && to.s.waits[to.locks[l].queue] == []
    ensures Guarded(to, l)
  {
    hide Partition, Mentions;
  }

  lemma GotoInv(st: State, p: Pc, f: bool)
    requires Inv(st) && Mentions(st, p) && Saved(p) && (f ==> p == User)
    requires p.Releasing? ==> st.locks[p.l].available || st.held[p.l] <= {st.s.current}
    ensures Inv(Goto(st, p, f))
  {
    CurrentFacts(st.s);
    hide Partition, Saved, Suspended, Asleep, Mentions;
    var to := Goto(st, p, f);
    ShapeKept(st, to);
    QueuesKept(st, to);
    ExclusionKept(st, to);
    FlagsMove(st, to);
    hide Queues, Exclusion, Flags, Shape;
  }

  /** The running thread is suspended at p and the next one takes over; no queue changes. */
  lemma SuspendInv(st: State, s: Sched, p: Pc)
    requires Inv(st) && Mentions(st, p) && Saved(p) && Suspended(p)
    requires Partition(s) && s.threads.Keys == st.s.threads.Keys && s.waits == st.s.waits && s.current != st.s.current
    ensures Inv(Suspend(st, s, p))
  {
    hide Partition, Saved, Asleep, Mentions;
    assert !p.Releasing?;
    hide Suspended;
    CurrentFacts(st.s);
    CurrentFacts(s);
    SuspendedAt(st, s.current);
    var to := Suspend(st, s, p);
    ShapeKept(st, to);
    QueuesKept(st, to);
    ExclusionKept(st, to);
    FlagsKept(st, to);
    OwnerKept(st, to);
    hide Queues, Exclusion, Flags, Shape, Owner;
  }

  /** The running thread goes to sleep on q. */
  lemma SleepInv(st: State, q: nat, p: Pc)
    requires Inv(st) && q in st.s.waits && q != 0 && Mentions(st, p) && Saved(p) && Suspended(p)
    requires Asleep(p, st.uses[q])
    requires st.uses[q].OfLock? ==> st.uses[q].lock in st.locks ==> !st.locks[st.uses[q].lock].available
    requires st.s.ready != []
    ensures Inv(Suspend(st, DoSleep(st.s, q).0, p))
  {
    hide Partition, Saved, Suspended, Asleep, Mentions;
    SleepPartition(st.s, q);
    CurrentFacts(st.s);
    var s' := DoSleep(st.s, q).0;
    CurrentFacts(s');
    SuspendedAt(st, s'.current);
    var to := Suspend(st, s', p);
    ShapeKept(st, to);
    QueuesKept(st, to);
    ExclusionKept(st, to);
    FlagsKept(st, to);
    OwnerKept(st, to);
    hide Queues, Exclusion, Flags, Shape, Owner;
  }

  lemma SleepOnInv(st: State, q: nat, p: Pc, otherwise: Pc)
    requires Inv(st) && q in st.s.waits && q != 0 && Mentions(st, p) && Saved(p) && Suspended(p)
    requires Asleep(p, st.uses[q])
    requires Mentions(st, otherwise) && Saved(otherwise) && (st.flag ==> otherwise == User) && !otherwise.Releasing?
    requires st.uses[q].OfLock? ==> st.uses[q].lock in st.locks ==> !st.locks[st.uses[q].lock].available
    ensures Inv(SleepOn(st, q, p, otherwise))
  {
    hide Partition, Saved, Suspended, Asleep, Mentions, Queues, Exclusion, Flags, Owner;
    if st.s.ready == [] {
      GotoInv(st, otherwise, st.flag);
    } else {
      SleepInv(st, q, p);
    }
  }

  /** Threads on one queue wake up. */
  lemma WakeInv(st: State, q: nat, n: nat)
    requires Inv(st) && q in st.s.waits && n <= |st.s.waits[q]|
    ensures Inv(st.(s := Wake(st.s, q, n)))
  {
    hide Partition, Saved, Suspended, Asleep, Mentions;
    WakePartition(st.s, q, n);
    CurrentFacts(st.s);
    var to := st.(s := Wake(st.s, q, n));
    forall t | t in st.s.waits[q][n..] ensures t in st.s.waits[q] {
    }
    ShapeKept(st, to);
    QueuesKept(st, to);
    ExclusionKept(st, to);
    hide Queues, Exclusion;
  }

  /** lock_release by the holder, or when nobody holds the lock: everyone asleep on it wakes. */
  lemma UnlockInv(st: State, l: nat)
    requires Inv(st) && l in st.locks && (st.locks[l].available || st.held[l] <= {st.s.current})
    requires !At(st).Releasing? || At(st).l == l
    ensures Inv(Unlock(st, l)) && Unlock(st, l).s.current == st.s.current && Unlock(st, l).pc == st.pc
    ensures Unlock(st, l).cvs == st.cvs && Unlock(st, l).locks.Keys == st.locks.Keys && Unlock(st, l).flag == st.flag
  {
    hide Inv, Wake, Partition, Queues, Exclusion, Flags, Owner, Mentions;
    LockFacts(st, l);
    if !st.locks[l].available {
      var q := st.locks[l].queue;
      WakeInv(st, q, |st.s.waits[q]|);
      WakeNone(st.s, q);
      var woken := st.(s := Wake(st.s, q, |st.s.waits[q]|));
      FreeLock(woken, l);
    }
  }

  lemma WakeNone(s: Sched, q: nat)
    requires Partition(s) && q in s.waits && q != 0
    ensures DoWakeup(s, q, true).0 == Wake(s, q, |s.waits[q]|) && Wake(s, q, |s.waits[q]|).waits[q] == []
    ensures Wake(s, q, |s.waits[q]|).current == s.current
  {
    if s.waits[q] == [] {
      var w := Wake(s, q, 0);
      assert w.ready == s.ready && w.waits == s.waits && w.threads == s.threads;
    }
  }

  /** A lock with no sleeper, held by nobody else, becomes available. */
  lemma FreeLock(st: State, l: nat)
    requires Inv(st) && l in st.locks && st.held[l] <= {st.s.current} && st.s.waits[st.locks[l].queue] == []
    requires !At(st).Releasing? || At(st).l == l
    ensures Inv(st.(locks := st.locks[l := st.locks[l].(available := true)],
                    held := st.held[l := st.held[l] - {st.s.current}]))
  {
    LockInv(st, l, true, st.held[l] - {st.s.current});
  }

  /** One lock changes hands. */
  lemma LockInv(st: State, l: nat, free: bool, held: set<int>)
    requires Inv(st) && l in st.locks && (forall t | t in held :: t in st.pc)
    requires forall t, u | t in held && u in held :: t == u
    requires free ==> held == {} && st.s.waits[st.locks[l].queue] == []
    requires !At(st).Releasing? || (free && At(st).l == l)
    ensures Inv(st.(locks := st.locks[l := st.locks[l].(available := free)], held := st.held[l := held]))
  {
    hide Partition, Saved, Suspended, Asleep, Mentions;
    var to := st.(locks := st.locks[l := st.locks[l].(available := free)], held := st.held[l := held]);
    CurrentFacts(st.s);
    ShapeKept(st, to);
    QueuesKept(st, to);
    FlagsGrow(st, to);
    hide Flags, Queues, Guarded;
    forall k | k in to.locks ensures Guarded(to, k) {
      if k == l {
        LockGuarded(st, to, l);
      } else {
        GuardedSame(st, to, k);
      }
    }
    hide Exclusion, Shape;
  }

  lemma AtFacts(st: State)
    requires Inv(st)
    ensures Mentions(st, At(st)) && Saved(At(st)) && (At(st) != User ==> !st.flag)
    ensures At(st).Releasing? ==> st.locks[At(st).l].available || st.held[At(st).l] <= {st.s.current}
  {
  }

  lemma LockCalls(st: State, l: nat, outer: seq<bool>)
    requires Mentions(st, Testing(l, outer)) && Saved(Testing(l, outer))
    ensures Mentions(st, Returning(outer)) && Saved(Returning(outer))
    ensures var p := LockSleeping(l, false, outer); Mentions(st, p) && Saved(p) && Suspended(p) && Asleep(p, OfLock(l))
  {
  }

  /** The loop test of lock_acquire: take the lock, or sleep on it. */
  lemma TestInv(st: State, l: nat, outer: seq<bool>)
    requires Inv(st) && At(st) == Testing(l, outer)
    ensures Inv(Resume(st))
  {
    AtFacts(st);
    assert l in st.locks;
    var lock := st.locks[l];
    hide Partition, Inv, Shape, Suspended, Mentions, Saved, Asleep, SleepOn, Goto, Unlock, Queues, Exclusion, Flags,
         Owner;
    LockFacts(st, l);
    LockCalls(st, l, outer);
    if lock.available {
      LockInv(st, l, false, st.held[l] + {st.s.current});
      var to := st.(locks := st.locks[l := lock.(available := false)],
                    held := st.held[l := st.held[l] + {st.s.current}]);
      LockCalls(to, l, outer);
      GotoInv(to, Returning(outer), st.flag);
    } else {
      SleepOnInv(st, lock.queue, LockSleeping(l, st.flag, outer), Testing(l, outer));
    }
  }

  /** The ways of going on that move only the running thread. */
  lemma ResumeGoto(st: State)
    requires Inv(st) && At(st) != User && !At(st).Testing? && !At(st).Releasing? && !At(st).Unlocked?
    ensures Inv(Resume(st))
  {
    AtFacts(st);
    hide Partition, Inv, Suspended, Goto, Queues, Exclusion, Flags, Owner;
    match At(st)
    case Returning(outer) => GotoInv(st, if |outer| == 1 then User else Returning(outer[1..]), outer[0]);
    case Starting => GotoInv(st, User, true);
    case Yielding(e) => GotoInv(st, User, e);
    case Sleeping(e) => GotoInv(st, User, e);
    case Preempted(at) => GotoInv(st, at, true);
    case LockSleeping(l, i, outer) => GotoInv(st, Testing(l, outer), i);
    case CvSleeping(c, l, i, e) => GotoInv(st, Reacquiring(l, e), i);
    case Reacquiring(l, e) => GotoInv(st, Testing(l, [st.flag, e]), false);
  }

  lemma ReleasingInv(st: State, c: nat, l: nat, e: bool)
    requires Inv(st) && At(st) == Releasing(c, l, e)
    ensures Inv(Resume(st))
  {
    hide Inv, Shape, Goto, Unlock, Resume, Suspended;
    AtFacts(st);
    UnlockInv(st, l);
    ResumeReleasing(st, c, l, e);
    GotoInv(Unlock(st, l), Unlocked(c, l, e), st.flag);
  }

  lemma ResumeReleasing(st: State, c: nat, l: nat, e: bool)
    requires Shape(st) && At(st) == Releasing(c, l, e) && l in st.locks
    ensures Resume(st) == Goto(Unlock(st, l), Unlocked(c, l, e), st.flag)
  {
    hide Partition, Unlock, Goto, Shape;
  }

  lemma UnlockedInv(st: State, c: nat, l: nat, e: bool)
    requires Inv(st) && At(st) == Unlocked(c, l, e)
    ensures Inv(Resume(st))
  {
    AtFacts(st);
    CurrentFacts(st.s);
    hide Partition, Inv, SleepOn, Queues, Exclusion, Flags, Owner;
    SleepOnInv(st, st.cvs[c], CvSleeping(c, l, st.flag, e), Reacquiring(l, e));
  }

  lemma ResumeInv(st: State)
    requires Inv(st) && At(st) != User
    ensures Inv(Resume(st))
  {
    hide Inv, Resume, Shape;
    var p := At(st);
    if p.Testing? {
      TestInv(st, p.l, p.outer);
    } else if p.Releasing? {
      ReleasingInv(st, p.c, p.l, p.e);
    } else if p.Unlocked? {
      UnlockedInv(st, p.c, p.l, p.e);
    } else {
      ResumeGoto(st);
    }
  }

  lemma LockFacts(st: State, l: nat)
    requires Inv(st) && l in st.locks
    ensures var lock := st.locks[l];
      && lock.queue in st.s.waits && lock.queue != 0 && st.uses[lock.queue] == OfLock(l)
      && (lock.available ==> st.held[l] == {} && st.s.waits[lock.queue] == [])
      && (forall t | t in st.held[l] :: t in st.pc) && st.s.current in st.pc
  {
    CurrentFacts(st.s);
    assert Guarded(st, l);
  }

  lemma ReapInv(st: State)
    requires Inv(st)
    ensures Inv(st.(s := Reap(st.s)))
  {
    hide Saved, Suspended, Asleep, Mentions, Partition;
    ReapPartition(st.s);
    var to := st.(s := Reap(st.s));
    ShapeKept(st, to);
    QueuesKept(st, to);
    ExclusionKept(st, to);
    hide Queues, Exclusion, Shape;
  }

  lemma YieldFacts(s: Sched, want: int)
    requires Partition(s) && want != THREAD_MAX_THREADS
    ensures var s' := DoYield(s, want).0;
      && Partition(s') && s'.threads.Keys == s.threads.Keys && s'.waits == s.waits
      && (s'.current == s.current ==> s' == Reap(s))
      && (want == THREAD_ANY && s.ready != [] ==> s'.current != s.current)
      && (want == THREAD_ANY && s.ready == [] ==> s' == Reap(s))
  {
    ReapPartition(s);
    NotCurrent(s, 0);
    hide Partition, NoDup, SwitchTo;
    if s.ready != [] {
      SwitchKeeps(Reap(s), 0);
    }
    if Index(s.ready, want) < |s.ready| {
      SwitchKeeps(Reap(s), Index(s.ready, want));
    }
  }

  lemma SwitchKeeps(s: Sched, k: nat)
    requires Partition(s) && k < |s.ready|
    ensures var t := SwitchTo(s, k);
      Partition(t) && t.threads.Keys == s.threads.Keys && t.waits == s.waits && t.current != s.current
  {
    SwitchPartition(s, k);
    NotCurrent(s, k);
    hide Partition, NoDup, Rotated;
  }

  lemma NotCurrent(s: Sched, k: nat)
    requires Partition(s)
    ensures s.current in s.threads && (k < |s.ready| ==> s.ready[k] != s.current && s.ready[k] in s.threads)
    ensures s.current >= 0
  {
    hide NoDup;
    if k < |s.ready| {
      var t := s.ready[k];
      assert t in s.ready;
    }
  }

  lemma YieldInv(st: State, want: int, p: Pc)
    requires Inv(st) && want != THREAD_MAX_THREADS && Mentions(st, p) && Saved(p) && Suspended(p)
    ensures var s := DoYield(st.s, want).0;
      Inv(if s.current == st.s.current then st.(s := s) else Suspend(st, s, p))
  {
    hide Saved, Suspended, Asleep, Mentions, Partition, Queues, Exclusion, Flags, Owner, DoYield;
    YieldFacts(st.s, want);
    var s := DoYield(st.s, want).0;
    if s.current == st.s.current {
      ReapInv(st);
    } else {
      SuspendInv(st, s, p);
    }
  }

  /** Thread t, which is in no wait queue, is gone, and with it whatever it held. */
  function Gone(st: State, s: Sched, t: int, flag: bool): State {
    st.(s := s, pc := st.pc - {t}, flag := flag, held := Drop(st.held, t))
  }

  lemma GoneInv(st: State, s: Sched, t: int, flag: bool)
    requires Inv(st) && Partition(s) && s.waits == st.s.waits && s.threads.Keys == st.s.threads.Keys - {t}
    requires forall q | q in s.waits :: t !in s.waits[q]
    requires if t == st.s.current then !flag && s.current != t else s.current == st.s.current && flag == st.flag
    ensures Inv(Gone(st, s, t, flag))
  {
    hide Saved, Suspended, Asleep, Mentions, Partition;
    CurrentFacts(s);
    CurrentFacts(st.s);
    var to := Gone(st, s, t, flag);
    assert to.pc.Keys == st.pc.Keys - {t};
    assert to.held.Keys == st.held.Keys;
    ShapeKept(st, to);
    QueuesKept(st, to);
    GoneExclusion(st, to, t);
    if t == st.s.current {
      SuspendedAt(st, s.current);
      OwnerKept(st, to);
    } else {
      GoneOwner(st, to, t);
    }
    hide Queues, Exclusion, Shape, Owner;
  }

  lemma GoneExclusion(st: State, to: State, t: int)
    requires Shape(st) && Exclusion(st) && Shape(to) && to.locks == st.locks && to.held == Drop(st.held, t)
    requires to.pc == st.pc - {t} && to.s.waits == st.s.waits
    ensures Exclusion(to)
  {
    hide Asleep, Partition, Mentions;
    forall l | l in to.locks ensures Guarded(to, l) {
      assert Guarded(st, l);
      assert to.held[l] == st.held[l] - {t};
    }
  }

  lemma GoneOwner(st: State, to: State, t: int)
    requires Shape(st) && Owner(st) && Shape(to) && to.locks == st.locks && to.held == Drop(st.held, t)
    requires to.pc == st.pc - {t} && to.s.current == st.s.current && t != st.s.current && st.s.current in st.pc
    ensures Owner(to)
  {
    hide Asleep, Partition;
    assert Mentions(st, At(st));
  }

  lemma ExitFacts(s: Sched)
    requires Partition(s)
    ensures var (s', r) := DoExit(s);
      && Partition(s') && (r == THREAD_NONE <==> s.ready == [])
      && (s.ready == [] ==> s' == Reap(s))
      && (s.ready != [] ==>
            s'.threads.Keys == s.threads.Keys - {s.current} && s'.waits == s.waits && s'.current != s.current)
  {
    ExitPartition(s);
    NotCurrent(s, 0);
    if s.ready != [] {
      InRange(s, 0);
    }
    hide Partition, NoDup;
  }

  lemma InRange(s: Sched, k: nat)
    requires Partition(s) && k < |s.ready|
    ensures s.ready[k] >= 0 && forall q | q in s.waits :: s.ready[k] !in s.waits[q]
  {
    hide NoDup;
    var t := s.ready[k];
    assert t in s.ready;
  }

  lemma KillFacts(s: Sched, tid: int)
    requires Partition(s)
    ensures var (s', r) := DoKill(s, tid);
      && Partition(s') && s'.waits == s.waits && s'.current == s.current
      && (r == THREAD_INVALID ==> s' == s)
      && (r != THREAD_INVALID ==>
            && s'.threads.Keys == s.threads.Keys - {tid} && tid != s.current
            && forall q | q in s.waits :: tid !in s.waits[q])
  {
    var k := Index(s.ready, tid);
    KillPartition(s, tid);
    NotCurrent(s, k);
    if k < |s.ready| {
      InRange(s, k);
    }
    hide Partition, NoDup, Removed;
  }

  lemma CreateFacts(s: Sched, memory: bool)
    requires Partition(s)
    ensures var (s', r) := DoCreate(s, memory);
      && Partition(s') && s'.waits == s.waits && s'.current == s.current
      && (r == THREAD_NOMORE <==> FreeSlot(s, 0) == THREAD_MAX_THREADS)
      && (r == THREAD_NOMORE ==> s' == s)
      && (r != THREAD_NOMORE ==> FreeSlot(s, 0) !in s.threads && s'.threads.Keys == s.threads.Keys + {FreeSlot(s, 0)})
  {
    CreatePartition(s, memory);
    hide Partition;
  }

  lemma CreateInv(st: State, s: Sched, i: int)
    requires Inv(st) && i !in st.pc && Partition(s) && s.threads.Keys == st.s.threads.Keys + {i}
    requires s.waits == st.s.waits && s.current == st.s.current
    ensures Inv(st.(s := s, pc := st.pc[i := Starting]))
  {
    assert Mentions(st, Starting) && Saved(Starting) && Suspended(Starting);
    hide Saved, Suspended, Asleep, Mentions, Partition;
    CurrentFacts(st.s);
    var to := st.(s := s, pc := st.pc[i := Starting]);
    ShapeKept(st, to);
    QueuesKept(st, to);
    FlagsGrow(st, to);
    OwnerSame(st, to);
    hide Queues, Shape, Flags, Owner, Guarded;
    forall l | l in to.locks ensures Guarded(to, l) {
      GuardedSame(st, to, l);
    }
  }

  lemma WakeupInv(st: State, q: nat, all: bool)
    requires Inv(st) && (q == 0 || q in st.s.waits)
    ensures Inv(st.(s := DoWakeup(st.s, q, all).0))
  {
    if q != 0 && st.s.waits[q] != [] {
      WakeInv(st, q, if all then |st.s.waits[q]| else 1);
    }
  }

  /** A new wait queue, whatever it is for. */
  lemma NewQueueInv(st: State, q: nat, use: Use)
    requires Inv(st) && q != 0 && q !in st.s.waits
    ensures Inv(st.(s := DoNewQueue(st.s, q), uses := st.uses[q := use]))
  {
    hide Saved, Suspended, Asleep, Partition, Mentions;
    CurrentFacts(st.s);
    var to := st.(s := DoNewQueue(st.s, q), uses := st.uses[q := use]);
    NewQueueShape(st, q, use);
    FlagsGrow(st, to);
    OwnerSame(st, to);
    hide Flags, Owner, Guarded;
    forall l | l in to.locks ensures Guarded(to, l) {
      GuardedSame(st, to, l);
    }
    hide Exclusion;
  }

  lemma NewQueueShape(st: State, q: nat, use: Use)
    requires Shape(st) && q != 0 && q !in st.s.waits
    ensures Shape(st.(s := DoNewQueue(st.s, q), uses := st.uses[q := use]))
  {
    hide Partition, Mentions;
    NewQueuePartition(st.s, q);
    SameMentions(st, st.(s := DoNewQueue(st.s, q), uses := st.uses[q := use]));
  }

  lemma SameMentions(st: State, to: State)
    requires Shape(st) && to.pc == st.pc && st.locks.Keys <= to.locks.Keys && st.cvs.Keys <= to.cvs.Keys
    ensures forall t | t in to.pc :: Mentions(to, to.pc[t])
  {
    hide Partition;
    forall t | t in to.pc ensures Mentions(to, to.pc[t]) {
      assert Mentions(st, st.pc[t]);
    }
  }

  lemma AddLockInv(st: State, l: nat, q: nat)
    requires Inv(st) && q in st.s.waits && st.uses[q] == OfLock(l) && st.s.waits[q] == [] && l !in st.locks
    ensures Inv(st.(locks := st.locks[l := Lock(q, true)], held := st.held[l := {}]))
  {
    hide Saved, Suspended, Asleep, Partition, Mentions;
    AtFacts(st);
    MentionsLock(st, At(st));
    CurrentFacts(st.s);
    var to := st.(locks := st.locks[l := Lock(q, true)], held := st.held[l := {}]);
    AddLockShape(st, l, q);
    QueuesKept(st, to);
    FlagsGrow(st, to);
    OwnerSame(st, to);
    hide Flags, Owner, Queues, Guarded;
    forall k | k in to.locks ensures Guarded(to, k) {
      if k == l {
        LockGuarded(st, to, l);
      } else {
        GuardedSame(st, to, k);
      }
    }
    hide Exclusion, Shape;
  }

  lemma AddLockShape(st: State, l: nat, q: nat)
    requires Shape(st) && q in st.s.waits && st.uses[q] == OfLock(l) && l !in st.locks
    ensures Shape(st.(locks := st.locks[l := Lock(q, true)], held := st.held[l := {}]))
  {
    hide Partition, Mentions;
    SameMentions(st, st.(locks := st.locks[l := Lock(q, true)], held := st.held[l := {}]));
  }

  lemma MentionsLock(st: State, p: Pc)
    requires Mentions(st, p)
    ensures p.Releasing? ==> p.l in st.locks
  {
  }

  lemma AddCvInv(st: State, c: nat, q: nat)
    requires Inv(st) && q in st.s.waits && st.uses[q] == OfCv(c) && c !in st.cvs
    ensures Inv(st.(cvs := st.cvs[c := q]))
  {
    hide Saved, Suspended, Asleep, Partition, Mentions;
    var to := st.(cvs := st.cvs[c := q]);
    SameMentions(st, to);
    assert Shape(to);
    forall k | k in to.locks ensures Guarded(to, k) {
      assert Guarded(st, k);
    }
  }

  lemma RemoveLockInv(st: State, l: nat)
    requires Inv(st) && l in st.locks && forall t | t in st.pc :: !Uses(st.pc[t], l)
    ensures Inv(st.(locks := st.locks - {l}, held := st.held - {l}))
  {
    hide Saved, Suspended, Asleep, Partition, Mentions;
    CurrentFacts(st.s);
    var to := st.(locks := st.locks - {l}, held := st.held - {l});
    forall t | t in to.pc ensures Mentions(to, to.pc[t]) {
      assert Mentions(st, st.pc[t]) && !Uses(st.pc[t], l);
      StillMentions(st, to, st.pc[t], l);
    }
    assert !Uses(At(st), l);
    AtFacts(st);
    MentionsLock(st, At(st));
    assert Shape(to);
    forall k | k in to.locks ensures Guarded(to, k) {
      assert Guarded(st, k);
    }
  }

  lemma StillMentions(st: State, to: State, p: Pc, l: nat)
    requires Mentions(st, p) && !Uses(p, l) && to.locks.Keys == st.locks.Keys - {l} && to.cvs == st.cvs
    ensures Mentions(to, p)
  {
  }

  lemma FreeQueueInv(st: State, q: nat)
    requires Inv(st) && q in st.s.waits && st.s.waits[q] == []
    requires forall l | l in st.locks :: st.locks[l].queue != q
    requires forall c | c in st.cvs :: st.cvs[c] != q
    ensures Inv(st.(s := DoFreeQueue(st.s, q), uses := st.uses - {q}))
  {
    hide Saved, Suspended, Asleep, Partition, Mentions;
    FreeQueuePartition(st.s, q);
    var to := st.(s := DoFreeQueue(st.s, q), uses := st.uses - {q});
    SameMentions(st, to);
    assert Shape(to);
    forall l | l in to.locks ensures Guarded(to, l) {
      assert Guarded(st, l);
    }
  }

  lemma DestroyLockInv(st: State, l: nat)
    requires Inv(st) && Enabled(st, DestroyLock(l))
    ensures Inv(Next(st, DestroyLock(l)))
  {
    if st.locks[l].available {
      hide Partition;
      LockFacts(st, l);
      RemoveLockInv(st, l);
      var mid := st.(locks := st.locks - {l}, held := st.held - {l});
      hide Mentions, Saved, Suspended, Asleep;
      FreeQueueInv(mid, st.locks[l].queue);
    }
  }

  lemma UserCalls(st: State, e: bool)
    ensures Mentions(st, Yielding(e)) && Saved(Yielding(e)) && Suspended(Yielding(e))
    ensures Mentions(st, Sleeping(e)) && Saved(Sleeping(e)) && Suspended(Sleeping(e)) && Asleep(Sleeping(e), OfUser)
    ensures Mentions(st, Preempted(User)) && Saved(Preempted(User)) && Suspended(Preempted(User))
  {
  }

  lemma CallInv(st: State, e: Event)
    requires Inv(st) && At(st) == User && Scheduling.Enabled(st.s, e) && OwnQueue(st, e)
    ensures Inv(Call(st, e))
  {
    hide Partition, Saved, Suspended, Asleep, Mentions, Queues, Exclusion, Owner, Flags, DoYield, DoExit, DoKill,
         DoCreate, DoWakeup;
    UserCalls(st, st.flag);
    match e
    case Create(memory) =>
      CreateFacts(st.s, memory);
      if FreeSlot(st.s, 0) < THREAD_MAX_THREADS {
        CreateInv(st, DoCreate(st.s, memory).0, FreeSlot(st.s, 0));
      }
    case Yield(want) =>
      YieldInv(st, want, Yielding(st.flag));
    case Exit =>
      ExitFacts(st.s);
      if st.s.ready == [] {
        ReapInv(st);
      } else {
        CurrentFacts(st.s);
        GoneInv(st, DoExit(st.s).0, st.s.current, false);
      }
    case Kill(tid) =>
      KillFacts(st.s, tid);
      if DoKill(st.s, tid).1 != THREAD_INVALID {
        GoneInv(st, DoKill(st.s, tid).0, tid, st.flag);
      }
    case NewQueue(q) => NewQueueInv(st, q, OfUser);
    case FreeQueue(q) => FreeQueueInv(st, q);
    case Sleep(q) =>
      CurrentFacts(st.s);
      if q != 0 && st.s.ready != [] {
        SleepInv(st, q, Sleeping(st.flag));
      }
    case Wakeup(q, all) => WakeupInv(st, q, all);
    case Interrupts(_) =>
  }

  lemma NextSignal(st: State, a: Action)
    requires Inv(st) && Enabled(st, a) && (a.Signal? || a.Broadcast?)
    ensures a.c in st.cvs && a.l in st.locks
    ensures st.cvs[a.c] in st.s.waits
    ensures Next(st, a) == if st.locks[a.l].available then st else st.(s := DoWakeup(st.s, st.cvs[a.c], a.Broadcast?).0)
  {
    hide Inv, DoWakeup, Partition, Flags, Queues, Exclusion, Owner, Mentions;
  }

  lemma SignalInv(st: State, a: Action)
    requires Inv(st) && Enabled(st, a) && (a.Signal? || a.Broadcast?)
    ensures Inv(Next(st, a))
  {
    NextSignal(st, a);
    hide Inv, Shape, Next, Enabled, DoWakeup;
    if !st.locks[a.l].available {
      WakeupInv(st, st.cvs[a.c], a.Broadcast?);
    }
  }

  /** A call of the user on a lock that is there. */
  lemma UseInv(st: State, a: Action)
    requires Inv(st) && Enabled(st, a) && (a.Acquire? || a.Release? || a.Wait?)
    ensures Inv(Next(st, a))
  {
    hide Partition, Queues, Exclusion, Flags, Owner, Suspended, Asleep, DoWakeup, Unlock, Goto;
    AtFacts(st);
    CurrentFacts(st.s);
    match a
    case Acquire(l) => GotoInv(st, Testing(l, [st.flag]), false);
    case Release(l) => UnlockInv(st, l);
    case Wait(c, l) => if !st.locks[l].available { GotoInv(st, Releasing(c, l, st.flag), false); }
  }

  /** A lock or a condition is made. */
  lemma MakeInv(st: State, a: Action)
    requires Inv(st) && Enabled(st, a) && (a.NewLock? || a.NewCv?)
    ensures Inv(Next(st, a))
  {
    hide Inv, Shape;
    NewQueueInv(st, a.q, if a.NewLock? then OfLock(a.l) else OfCv(a.c));
    var mid := st.(s := DoNewQueue(st.s, a.q), uses := st.uses[a.q := if a.NewLock? then OfLock(a.l) else OfCv(a.c)]);
    if a.NewLock? {
      AddLockInv(mid, a.l, a.q);
    } else {
      AddCvInv(mid, a.c, a.q);
    }
  }

  lemma PreemptInv(st: State)
    requires Inv(st) && Enabled(st, Preempt)
    ensures Inv(Next(st, Preempt))
  {
    AtFacts(st);
    UserCalls(st, st.flag);
    hide Partition, Queues, Exclusion, Flags, Owner, Suspended, Asleep, DoYield;
    YieldFacts(st.s, THREAD_ANY);
    YieldInv(st, THREAD_ANY, Preempted(User));
  }

  /** Every step keeps the invariant. */
  lemma NextInv(st: State, a: Action)
    requires Inv(st) && Enabled(st, a)
    ensures Inv(Next(st, a))
  {
    hide Inv, Shape, Call, Resume;
    match a
    case Preempt => PreemptInv(st);
    case Continue => ResumeInv(st);
    case Plain(e) => CallInv(st, e);
    case SetFlag(on) => SetFlagInv(st, on);
    case NewLock(_, _) => MakeInv(st, a);
    case DestroyLock(l) => DestroyLockInv(st, l);
    case NewCv(_, _) => MakeInv(st, a);
    case Signal(_, _) => SignalInv(st, a);
    case Broadcast(_, _) => SignalInv(st, a);
    case _ => UseInv(st, a);
  }

  lemma SetFlagInv(st: State, on: bool)
    requires Inv(st) && At(st) == User
    ensures Inv(st.(flag := on))
  {
    CurrentFacts(st.s);
    hide Inv, Partition, Goto, Queues, Exclusion, Flags, Owner;
    GotoInv(st, User, on);
    assert st.pc[st.s.current := User] == st.pc;
    GotoSame(st, on);
  }

  lemma GotoSame(st: State, on: bool)
    requires st.pc[st.s.current := User] == st.pc
    ensures Goto(st, User, on) == st.(flag := on)
  {
  }

  /** After thread_init, with no lock or condition yet. */
  function Start(enabled: bool): State {
    State(Initial(enabled), enabled, map[0 := User], map[], map[], map[], map[])
  }

  predicate Legal(st: State, run: seq<Action>)
    requires Inv(st)
    decreases |run|
  {
    run == [] || (Enabled(st, run[0]) && (NextInv(st, run[0]); Legal(Next(st, run[0]), run[1..])))
  }

  function Run(st: State, run: seq<Action>): (r: State)
    requires Inv(st) && Legal(st, run)
    ensures Inv(r)
    decreases |run|
  {
    if run == [] then st else (NextInv(st, run[0]); Run(Next(st, run[0]), run[1..]))
  }

  /** Over every run: a lock is held by at most one thread, and nobody sleeps on a free lock. */
  lemma LockSafety(st: State, run: seq<Action>, l: nat)
    requires Inv(st) && Legal(st, run) && l in Run(st, run).locks
    ensures var to := Run(st, run);
      && (forall t, u | t in to.held[l] && u in to.held[l] :: t == u)
      && (to.locks[l].available ==> to.held[l] == {} && to.s.waits[to.locks[l].queue] == [])
  {
    assert Guarded(Run(st, run), l);
    hide Run, Legal, Inv;
  }

  lemma StartInv(enabled: bool)
    ensures Inv(Start(enabled))
  {
  }

  /** While the running thread is inside a call the flag is off, so nothing but the call itself can
      happen; in particular nothing comes between the release and the sleep in cv_wait. */
  lemma Atomic(st: State, a: Action)
    requires Inv(st) && At(st) != User && Enabled(st, a)
    ensures a == Continue
  {
    AtFacts(st);
  }

  lemma Another(holders: set<int>, c: int) returns (t: int)
    requires !(holders <= {c})
    ensures t in holders && t != c
  {
    assert (forall x | x in holders :: x == c) ==> holders <= {c};
    t :| t in holders && t != c;
  }

  /** The code does not check who releases (threads/thread.c:533): exactly when somebody else holds
      the lock does a release leave it free and held. */
  lemma ForeignRelease(st: State, l: nat)
    requires Inv(st) && At(st) == User && l in st.locks
    ensures Inv(Unlock(st, l)) <==> st.locks[l].available || st.held[l] <= {st.s.current}
  {
    if st.locks[l].available || st.held[l] <= {st.s.current} {
      UnlockInv(st, l);
    } else {
      var t := Another(st.held[l], st.s.current);
      var to := Unlock(st, l);
      assert t in to.held[l] && to.locks[l].available;
      assert Inv(to) ==> Guarded(to, l);
    }
  }

  /** cv_wait releases the lock and wakes all who wait for it, with the flag still off. */
  lemma WaitReleases(st: State, c: nat, l: nat, e: bool)
    requires Inv(st) && At(st) == Releasing(c, l, e) && !st.locks[l].available
    ensures var to := Next(st, Continue);
      && Inv(to) && At(to) == Unlocked(c, l, e) && !to.flag && to.locks[l].available
      && to.s.current == st.s.current && to.s.waits == st.s.waits[st.locks[l].queue := []]
      && to.s.ready == st.s.ready + st.s.waits[st.locks[l].queue]
  {
    hide Partition, Flags, Queues, Exclusion, Owner, Saved, Suspended, Asleep, Unlock;
    NextInv(st, Continue);
    AtFacts(st);
    LockFacts(st, l);
    UnlockEffect(st, l);
    hide Inv;
  }

  /** Then the caller is put last in the condition's queue; only when no thread is ready, so that
      thread_sleep fails, does it go on without waiting. */
  lemma WaitSleeps(st: State, c: nat, l: nat, e: bool)
    requires Inv(st) && At(st) == Unlocked(c, l, e)
    ensures var to, t, q := Next(st, Continue), st.s.current, st.cvs[c];
      && Inv(to) && to.locks == st.locks && to.cvs == st.cvs
      && (st.s.ready == [] ==> to.s == st.s && At(to) == Reacquiring(l, e))
      && (st.s.ready != [] ==>
            to.s.waits == st.s.waits[q := st.s.waits[q] + [t]] && to.pc == st.pc[t := CvSleeping(c, l, false, e)])
  {
    hide Partition, Flags, Queues, Exclusion, Owner, Saved, Suspended, Asleep;
    NextInv(st, Continue);
    AtFacts(st);
    CvFacts(st, c);
    hide Inv, Mentions;
  }

  lemma UnlockEffect(st: State, l: nat)
    requires Inv(st) && l in st.locks && !st.locks[l].available
    ensures var to, q := Unlock(st, l), st.locks[l].queue;
      && to.locks == st.locks[l := st.locks[l].(available := true)] && to.cvs == st.cvs
      && to.s.current == st.s.current && to.s.ready == st.s.ready + st.s.waits[q]
      && to.s.waits == st.s.waits[q := []] && to.pc == st.pc && to.flag == st.flag
  {
    LockFacts(st, l);
    var q := st.locks[l].queue;
    WakeNone(st.s, q);
    assert st.s.waits[q][..|st.s.waits[q]|] == st.s.waits[q];
  }

  lemma CvFacts(st: State, c: nat)
    requires Inv(st) && c in st.cvs
    ensures st.cvs[c] in st.s.waits && st.cvs[c] != 0 && st.uses[st.cvs[c]] == OfCv(c)
    ensures forall l | l in st.locks :: st.locks[l].queue != st.cvs[c]
    ensures forall d | d in st.cvs && d != c :: st.cvs[d] != st.cvs[c]
  {
    CurrentFacts(st.s);
  }

  /** The action wakes threads on c: they signal under a lock that is held. */
  predicate Signals(st: State, a: Action, c: nat)
    requires Shape(st) && Enabled(st, a)
  {
    a.Signal? && a.c == c && !st.locks[a.l].available
  }

  predicate Broadcasts(st: State, a: Action, c: nat)
    requires Shape(st) && Enabled(st, a)
  {
    a.Broadcast? && a.c == c && !st.locks[a.l].available
  }

  /** A signal on c makes the first thread of its queue ready, a broadcast all of them in the order of the
      queue; nothing else takes a thread from the queue. */
  lemma CvStep(st: State, a: Action, c: nat)
    requires Inv(st) && Enabled(st, a) && c in st.cvs && st.s.waits[st.cvs[c]] != []
    ensures var to, q := Next(st, a), st.cvs[c];
      var w := st.s.waits[q];
      && c in to.cvs && to.cvs[c] == q && q in to.s.waits
      && (Signals(st, a, c) ==> to.s.waits[q] == w[1..] && to.s.ready == st.s.ready + [w[0]])
      && (Broadcasts(st, a, c) ==> to.s.waits[q] == [] && to.s.ready == st.s.ready + w)
      && (!Signals(st, a, c) && !Broadcasts(st, a, c) ==> w <= to.s.waits[q])
  {
    if a.Signal? || a.Broadcast? {
      SignalStep(st, a, c);
    } else {
      CvFacts(st, c);
      OtherWaits(st, a, c);
    }
    hide Next, Inv, Partition, Flags, Queues, Exclusion, Owner, Saved, Suspended, Asleep, Mentions;
  }

  lemma SignalStep(st: State, a: Action, c: nat)
    requires Inv(st) && Enabled(st, a) && c in st.cvs && st.s.waits[st.cvs[c]] != []
    requires a.Signal? || a.Broadcast?
    ensures var to, q := Next(st, a), st.cvs[c];
      var w := st.s.waits[q];
      && to.cvs == st.cvs && q in to.s.waits
      && if Signals(st, a, c) then to.s.waits[q] == w[1..] && to.s.ready == st.s.ready + [w[0]]
         else if Broadcasts(st, a, c) then to.s.waits[q] == [] && to.s.ready == st.s.ready + w
         else to.s.waits[q] == w
  {
    hide Partition, Flags, Queues, Exclusion, Owner, DoWakeup, Next;
    CvFacts(st, c);
    CurrentFacts(st.s);
    NextSignal(st, a);
    SignalWaits(st.s, st.cvs[a.c], a.Broadcast?);
    hide Inv;
  }

  /** The queue of c has at most grown. */
  predicate QueueKept(st: State, to: State, c: nat)
    requires c in st.cvs && st.cvs[c] in st.s.waits
  {
    c in to.cvs && to.cvs[c] == st.cvs[c] && st.cvs[c] in to.s.waits && st.s.waits[st.cvs[c]] <= to.s.waits[st.cvs[c]]
  }

  lemma OtherWaits(st: State, a: Action, c: nat)
    requires Inv(st) && Enabled(st, a) && c in st.cvs && !a.Signal? && !a.Broadcast?
    requires st.cvs[c] in st.s.waits && st.s.waits[st.cvs[c]] != []
    ensures QueueKept(st, Next(st, a), c)
  {
    hide Inv, Shape, Partition, Resume, Call, QueueKept, Unlock;
    match a
    case Continue => ResumeWaits(st, c);
    case Release(l) => UnlockWaits(st, l, c);
    case Preempt => PreemptWaits(st, c);
    case Plain(e) => CallWaits(st, e, c);
    case DestroyLock(l) => DestroyWaits(st, l, c);
    case _ => QuietWaits(st, a, c);
  }

  lemma QuietWaits(st: State, a: Action, c: nat)
    requires Inv(st) && Enabled(st, a) && c in st.cvs && st.cvs[c] in st.s.waits
    requires a.Acquire? || a.Wait? || a.SetFlag? || a.NewLock? || a.NewCv?
    ensures QueueKept(st, Next(st, a), c)
  {
    hide Inv;
  }

  lemma PreemptWaits(st: State, c: nat)
    requires Inv(st) && Enabled(st, Preempt) && c in st.cvs && st.cvs[c] in st.s.waits
    ensures QueueKept(st, Next(st, Preempt), c)
  {
    YieldFacts(st.s, THREAD_ANY);
    hide Inv, DoYield;
  }

  lemma DestroyWaits(st: State, l: nat, c: nat)
    requires Inv(st) && Enabled(st, DestroyLock(l)) && c in st.cvs && st.cvs[c] in st.s.waits
    ensures QueueKept(st, Next(st, DestroyLock(l)), c)
  {
    CvFacts(st, c);
    hide Inv;
  }

  lemma SignalWaits(s: Sched, q: nat, all: bool)
    requires Partition(s) && q in s.waits && q != 0
    ensures var (to, w) := (DoWakeup(s, q, all).0, s.waits[q]);
      && to.waits.Keys == s.waits.Keys && (forall p | p in s.waits && p != q :: to.waits[p] == s.waits[p])
      && (w != [] ==> to.ready == s.ready + if all then w else [w[0]])
      && (w != [] ==> to.waits[q] == if all then [] else w[1..])
  {
    var w := s.waits[q];
    if w != [] {
      assert w[..1] == [w[0]] && w[..|w|] == w && w[|w|..] == [];
    }
  }

  lemma UnlockWaits(st: State, l: nat, c: nat)
    requires Inv(st) && l in st.locks && c in st.cvs && st.cvs[c] in st.s.waits
    ensures QueueKept(st, Unlock(st, l), c)
  {
    CvFacts(st, c);
    if !st.locks[l].available {
      UnlockEffect(st, l);
    }
    hide Inv;
  }

  lemma ResumeWaits(st: State, c: nat)
    requires Inv(st) && At(st) != User && c in st.cvs && st.cvs[c] in st.s.waits
    ensures QueueKept(st, Resume(st), c)
  {
    AtFacts(st);
    hide Inv, Shape, Partition, Unlock, SleepOn, QueueKept;
    var p := At(st);
    if p.Releasing? {
      UnlockWaits(st, p.l, c);
      ResumeReleasing(st, p.c, p.l, p.e);
      SameQueues(st, Unlock(st, p.l), Resume(st), c);
    } else if p.Testing? {
      TestWaits(st, p.l, p.outer, c);
    } else if p.Unlocked? {
      CvFacts(st, p.c);
      SleepOnWaits(st, st.cvs[p.c], CvSleeping(p.c, p.l, st.flag, p.e), Reacquiring(p.l, p.e), c);
    } else {
      SameQueues(st, st, Resume(st), c);
    }
  }

  lemma TestWaits(st: State, l: nat, outer: seq<bool>, c: nat)
    requires Inv(st) && At(st) == Testing(l, outer) && c in st.cvs && st.cvs[c] in st.s.waits && l in st.locks
    ensures QueueKept(st, Resume(st), c)
  {
    LockFacts(st, l);
    hide Inv, SleepOn;
    if !st.locks[l].available {
      SleepOnWaits(st, st.locks[l].queue, LockSleeping(l, st.flag, outer), Testing(l, outer), c);
    }
  }

  lemma SameQueues(st: State, mid: State, to: State, c: nat)
    requires c in st.cvs && st.cvs[c] in st.s.waits && to.cvs == mid.cvs && to.s.waits == mid.s.waits
    requires mid == st || QueueKept(st, mid, c)
    ensures QueueKept(st, to, c)
  {
  }

  lemma SleepOnWaits(st: State, q: nat, p: Pc, otherwise: Pc, c: nat)
    requires Shape(st) && q in st.s.waits && q != 0 && c in st.cvs && st.cvs[c] in st.s.waits
    ensures QueueKept(st, SleepOn(st, q, p, otherwise), c)
  {
    hide Partition, Shape, Mentions;
    var to := SleepOn(st, q, p, otherwise);
    assert to.s.waits == if st.s.ready == [] then st.s.waits else st.s.waits[q := st.s.waits[q] + [st.s.current]];
  }

  lemma CallWaits(st: State, e: Event, c: nat)
    requires Inv(st) && Scheduling.Enabled(st.s, e) && OwnQueue(st, e) && c in st.cvs
    requires st.cvs[c] in st.s.waits && st.s.waits[st.cvs[c]] != []
    ensures QueueKept(st, Call(st, e), c)
  {
    hide Inv, Partition, Flags, Queues, Exclusion, Owner, Saved, Suspended, Asleep, Mentions, DoYield, DoExit, DoKill,
         DoCreate, DoWakeup;
    CvFacts(st, c);
    match e
    case Create(memory) => CreateFacts(st.s, memory);
    case Exit => ExitFacts(st.s);
    case Yield(want) => YieldFacts(st.s, want);
    case Kill(tid) => KillFacts(st.s, tid);
    case Wakeup(q, all) => WakeupWaits(st.s, q, all, st.cvs[c]);
    case _ =>
  }

  lemma WakeupWaits(s: Sched, q: nat, all: bool, p: nat)
    requires Partition(s) && (q == 0 || q in s.waits) && p in s.waits && p != q
    ensures p in DoWakeup(s, q, all).0.waits && DoWakeup(s, q, all).0.waits[p] == s.waits[p]
  {
  }

  /** How many signals on c of the run come under a lock that is held. */
  function SignalCount(st: State, run: seq<Action>, c: nat): nat
    requires Inv(st) && Legal(st, run)
    decreases |run|
  {
    if run == [] then 0
    else
      NextInv(st, run[0]);
      (if Signals(st, run[0], c) then 1 else 0) + SignalCount(Next(st, run[0]), run[1..], c)
  }

  /** Some broadcast on c of the run comes under a lock that is held. */
  predicate SomeBroadcast(st: State, run: seq<Action>, c: nat)
    requires Inv(st) && Legal(st, run)
    decreases |run|
  {
    run != [] && (Broadcasts(st, run[0], c) || (NextInv(st, run[0]); SomeBroadcast(Next(st, run[0]), run[1..], c)))
  }

  /** Thread t is ready at some point of the run. */
  predicate BecomesReady(st: State, run: seq<Action>, t: int)
    requires Inv(st) && Legal(st, run)
    decreases |run|
  {
    t in st.s.ready || (run != [] && (NextInv(st, run[0]); BecomesReady(Next(st, run[0]), run[1..], t)))
  }

  /** Thread t is at place i in the queue q of condition c. */
  predicate WaitsAt(st: State, c: nat, q: nat, i: int, t: int) {
    && c in st.cvs && st.cvs[c] == q && q in st.s.waits
    && 0 <= i < |st.s.waits[q]| && st.s.waits[q][i] == t
  }

  lemma WaitingNotReady(st: State, c: nat, q: nat, k: nat, t: int)
    requires Inv(st) && WaitsAt(st, c, q, k, t)
    ensures t !in st.s.ready
  {
    hide Flags, Queues, Exclusion, Owner, NoDup, Mentions;
    assert t in st.s.waits[q];
  }

  lemma Moves(st: State, a: Action, c: nat, q: nat, k: nat, t: int)
    requires Inv(st) && Enabled(st, a) && WaitsAt(st, c, q, k, t)
    ensures var to := Next(st, a);
      if Broadcasts(st, a, c) || (Signals(st, a, c) && k == 0) then t in to.s.ready
      else WaitsAt(to, c, q, if Signals(st, a, c) then k - 1 else k, t)
  {
    CvStep(st, a, c);
    hide Inv, Next, Signals, Broadcasts;
    var w := st.s.waits[q];
    assert w[k] == t && (Next(st, a).s.ready == st.s.ready + w ==> Next(st, a).s.ready[|st.s.ready| + k] == t);
    assert Next(st, a).s.ready == st.s.ready + [w[0]] ==> Next(st, a).s.ready[|st.s.ready|] == w[0];
  }

  /** A run seen from its first step. */
  lemma FirstStep(st: State, run: seq<Action>, c: nat, t: int)
    requires Inv(st) && Legal(st, run) && run != []
    ensures Enabled(st, run[0]) && Inv(Next(st, run[0])) && Legal(Next(st, run[0]), run[1..])
    ensures var a, to, rest := run[0], Next(st, run[0]), run[1..];
      && Run(st, run) == Run(to, rest)
      && SignalCount(st, run, c) == (if Signals(st, a, c) then 1 else 0) + SignalCount(to, rest, c)
      && (SomeBroadcast(st, run, c) <==> Broadcasts(st, a, c) || SomeBroadcast(to, rest, c))
      && (BecomesReady(st, run, t) <==> t in st.s.ready || BecomesReady(to, rest, t))
  {
    hide Inv, Shape, Next, Signals, Broadcasts, Enabled;
    NextInv(st, run[0]);
  }

  lemma NoSteps(st: State, c: nat, t: int)
    requires Inv(st)
    ensures Legal(st, []) && Run(st, []) == st && SignalCount(st, [], c) == 0 && !SomeBroadcast(st, [], c)
    ensures BecomesReady(st, [], t) <==> t in st.s.ready
  {
    hide Inv;
  }

  lemma AlreadyReady(st: State, run: seq<Action>, t: int)
    requires Inv(st) && Legal(st, run) && t in st.s.ready
    ensures BecomesReady(st, run, t)
  {
    hide Inv, Legal;
  }

  /** No wakeup is lost, and none is out of turn: the thread with k others before it in the queue of a
      condition is made ready in a run exactly when there are more than k signals on the condition, or a
      broadcast, whatever else the run does; until then it waits, and each signal moves it up by one. */
  lemma {:induction false} SignalsInOrder(st: State, run: seq<Action>, c: nat, q: nat, k: nat, t: int)
    requires Inv(st) && Legal(st, run) && WaitsAt(st, c, q, k, t)
    ensures BecomesReady(st, run, t) <==> SignalCount(st, run, c) > k || SomeBroadcast(st, run, c)
    ensures !BecomesReady(st, run, t) ==> WaitsAt(Run(st, run), c, q, k - SignalCount(st, run, c), t)
    decreases |run|
  {
    hide Inv, Shape, Next, Signals, Broadcasts, WaitsAt, Enabled, Run, Legal, SignalCount, SomeBroadcast, BecomesReady;
    WaitingNotReady(st, c, q, k, t);
    if run == [] {
      NoSteps(st, c, t);
    } else {
      FirstStep(st, run, c, t);
      Moves(st, run[0], c, q, k, t);
      var to := Next(st, run[0]);
      if Broadcasts(st, run[0], c) || (Signals(st, run[0], c) && k == 0) {
        AlreadyReady(to, run[1..], t);
      } else {
        SignalsInOrder(to, run[1..], c, q, if Signals(st, run[0], c) then k - 1 else k, t);
      }
    }
  }
}
