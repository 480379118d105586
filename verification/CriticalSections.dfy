/** What the callers of lock_acquire and cv_wait get (threads/thread.c:515-614): when such a call returns,
    over all runs, its thread has the lock and the interrupt flag it came with, and nobody else gets the
    lock until that thread has given it up. */
module CriticalSections {
  import S = Scheduling
  import T = ThreadRuns
  import opened Locks

  predicate Has(st: State, t: int, l: nat) {
    l in st.locks && !st.locks[l].available && l in st.held && t in st.held[l]
  }

  predicate LastIs(outer: seq<bool>, f: bool) {
    outer != [] && outer[|outer| - 1] == f
  }

  /** Thread t is inside a call from which it is to return with the locks ls and with the flag at f. */
  predicate Inside(st: State, t: int, ls: set<nat>, f: bool) {
    t in st.pc &&
    match st.pc[t]
    case User => false
    case Starting => ls == {} && f
    case Yielding(e) => ls == {} && f == e
    case Sleeping(e) => ls == {} && f == e
    case Preempted(_) => ls == {} && f
    case Testing(l, outer) => ls == {l} && LastIs(outer, f)
    case LockSleeping(l, _, outer) => ls == {l} && LastIs(outer, f)
    case Returning(outer) => LastIs(outer, f) && st.s.current == t && forall l | l in ls :: Has(st, t, l)
    case Releasing(_, l, e) => ls == {l} && f == e
    case Unlocked(_, l, e) => ls == {l} && f == e
    case CvSleeping(_, l, _, e) => ls == {l} && f == e
    case Reacquiring(l, e) => ls == {l} && f == e
  }

  /** Thread t runs, outside of any call, with the locks ls and with the flag at f. */
  predicate Outside(st: State, t: int, ls: set<nat>, f: bool) {
    t in st.pc && st.pc[t] == User && st.s.current == t && st.flag == f && forall l | l in ls :: Has(st, t, l)
  }

  /** A thread that is not running stays where it is, if it stays at all. */
  lemma OthersStay(st: State, a: Action, t: int)
    requires Inv(st) && Enabled(st, a) && t in st.pc && t != st.s.current && t in Next(st, a).pc
    ensures Next(st, a).pc[t] == st.pc[t]
  {
    hide Inv, Shape, Resume, Call, Unlock;
    match a
    case Continue => ResumeStays(st, t);
    case Plain(e) => CallStays(st, e, t);
    case Release(l) => UnlockStays(st, l);
    case _ => hide S.DoYield, S.DoWakeup;
  }

  lemma UnlockStays(st: State, l: nat)
    requires Shape(st) && l in st.locks
    ensures Unlock(st, l).pc == st.pc && Unlock(st, l).flag == st.flag && Unlock(st, l).s.current == st.s.current
  {
    hide Shape;
  }

  lemma ResumeStays(st: State, t: int)
    requires Inv(st) && t in st.pc && t != st.s.current
    ensures t in Resume(st).pc && Resume(st).pc[t] == st.pc[t]
  {
    AtFacts(st);
    var p := At(st);
    hide Inv, S.DoSleep, Unlock, S.Partition;
    if p.Releasing? {
      UnlockStays(st, p.l);
    }
  }

  lemma CallStays(st: State, e: S.Event, t: int)
    requires Inv(st) && S.Enabled(st.s, e) && t in st.pc && t != st.s.current && t in Call(st, e).pc
    ensures Call(st, e).pc[t] == st.pc[t]
  {
    if e.Create? {
      CreateFacts(st.s, e.memory);
    }
    assert st.pc.Keys == st.s.threads.Keys;
    hide Inv, S.Partition, S.FreeSlot, S.DoCreate, S.DoYield, S.DoExit, S.DoKill, S.DoSleep, S.DoWakeup;
  }

  // ---------- one step of the thread inside a call ----------

  /** The thread that goes on inside its call: it is still inside, or it returns. */
  lemma GoesOn(st: State, ls: set<nat>, f: bool)
    requires Inv(st) && At(st) != User && Inside(st, st.s.current, ls, f)
    ensures var to, t := Resume(st), st.s.current;
      t in to.pc && (Inside(to, t, ls, f) || Outside(to, t, ls, f))
  {
    hide Inv, Shape, Resume, Inside, Outside;
    var p := At(st);
    if p.Testing? {
      Tests(st, p.l, p.outer, ls, f);
    } else if p.Releasing? {
      Releases(st, p.c, p.l, p.e, ls, f);
    } else if p.Unlocked? {
      FallsAsleep(st, p.c, p.l, p.e, ls, f);
    } else {
      Moves(st, ls, f);
    }
  }

  lemma Releases(st: State, c: nat, l: nat, e: bool, ls: set<nat>, f: bool)
    requires Inv(st) && At(st) == Releasing(c, l, e) && Inside(st, st.s.current, ls, f)
    ensures st.s.current in Resume(st).pc && Inside(Resume(st), st.s.current, ls, f)
  {
    hide Inv, Resume, Unlock;
    AtFacts(st);
    UnlockStays(st, l);
    ResumeReleasing(st, c, l, e);
  }

  lemma FallsAsleep(st: State, c: nat, l: nat, e: bool, ls: set<nat>, f: bool)
    requires Inv(st) && At(st) == Unlocked(c, l, e) && Inside(st, st.s.current, ls, f)
    ensures st.s.current in Resume(st).pc && Inside(Resume(st), st.s.current, ls, f)
  {
    hide Inv, S.Partition, S.DoSleep;
    AtFacts(st);
  }

  lemma Moves(st: State, ls: set<nat>, f: bool)
    requires Inv(st) && At(st) != User && Inside(st, st.s.current, ls, f)
    requires !At(st).Testing? && !At(st).Releasing? && !At(st).Unlocked?
    ensures var to, t := Resume(st), st.s.current; t in to.pc && (Inside(to, t, ls, f) || Outside(to, t, ls, f))
  {
    hide Inv, Shape, Unlock, SleepOn;
    AtFacts(st);
  }

  /** The loop test of lock_acquire does not let the thread out unless it has the lock. */
  lemma Tests(st: State, l: nat, outer: seq<bool>, ls: set<nat>, f: bool)
    requires Inv(st) && At(st) == Testing(l, outer) && Inside(st, st.s.current, ls, f)
    ensures st.s.current in Resume(st).pc && Inside(Resume(st), st.s.current, ls, f)
  {
    hide Inv, S.Partition, S.DoSleep;
    AtFacts(st);
  }

  // ---------- the first step of a call ----------

  /** The locks that a thread is to have when it comes back from a call. cv_wait does nothing when the lock
      is free. */
  function Wanted(st: State, a: Action): set<nat>
    requires Shape(st) && Enabled(st, a)
  {
    match a
    case Acquire(l) => {l}
    case Wait(c, l) => if st.locks[l].available then {} else {l}
    case _ => {}
  }

  /** The flag it is to have then; only interrupts_set changes it. */
  function FlagDue(st: State, a: Action): bool {
    if a.SetFlag? then a.on else st.flag
  }

  lemma Enters(st: State, a: Action)
    requires Inv(st) && Enabled(st, a) && At(st) == User && st.s.current in Next(st, a).pc
    ensures var to, t := Next(st, a), st.s.current;
      Inside(to, t, Wanted(st, a), FlagDue(st, a)) || Outside(to, t, Wanted(st, a), FlagDue(st, a))
  {
    hide Inv, Shape, Next, Inside, Outside;
    assert a != Continue;
    hide Enabled;
    match a
    case Plain(e) => EntersPlain(st, e);
    case Acquire(l) => EntersLock(st, a);
    case Wait(c, l) => EntersLock(st, a);
    case Preempt => EntersPreempt(st);
    case _ => EntersNothing(st, a);
  }

  lemma EntersLock(st: State, a: Action)
    requires Inv(st) && Enabled(st, a) && At(st) == User && (a.Acquire? || a.Wait?)
    ensures var to, t := Next(st, a), st.s.current;
      Inside(to, t, Wanted(st, a), st.flag) || Outside(to, t, Wanted(st, a), st.flag)
  {
    hide Inv;
  }

  lemma EntersPreempt(st: State)
    requires Inv(st) && Enabled(st, Preempt) && At(st) == User
    ensures var to, t := Next(st, Preempt), st.s.current; Inside(to, t, {}, true) || Outside(to, t, {}, true)
    ensures st.flag
  {
    hide Inv, S.Partition, S.DoYield;
    CurrentFacts(st.s);
    YieldFacts(st.s, -1);
  }

  lemma EntersNothing(st: State, a: Action)
    requires Inv(st) && Enabled(st, a) && At(st) == User
    requires a.Release? || a.Signal? || a.Broadcast? || a.SetFlag? || a.NewLock? || a.DestroyLock? || a.NewCv?
    ensures Outside(Next(st, a), st.s.current, {}, FlagDue(st, a))
  {
    hide Inv, Unlock;
    if a.Release? {
      UnlockStays(st, a.l);
    }
  }

  lemma EntersPlain(st: State, e: S.Event)
    requires Inv(st) && Enabled(st, Plain(e)) && At(st) == User && st.s.current in Next(st, Plain(e)).pc
    ensures var to, t := Next(st, Plain(e)), st.s.current; Inside(to, t, {}, st.flag) || Outside(to, t, {}, st.flag)
  {
    hide Inv, Shape, Enabled, Next, Inside;
    if e.Yield? || e.Sleep? {
      EntersSwitch(st, e);
    } else {
      PlainStays(st, e);
    }
  }

  lemma EntersSwitch(st: State, e: S.Event)
    requires Inv(st) && Enabled(st, Plain(e)) && At(st) == User && (e.Yield? || e.Sleep?)
    ensures var to, t := Next(st, Plain(e)), st.s.current; Inside(to, t, {}, st.flag) || Outside(to, t, {}, st.flag)
  {
    hide Inv, S.Partition, S.DoYield, S.DoSleep;
    CurrentFacts(st.s);
    assert st.s.current in st.pc;
    hide Shape;
  }

  lemma PlainStays(st: State, e: S.Event)
    requires Inv(st) && Enabled(st, Plain(e)) && At(st) == User && !e.Yield? && !e.Sleep?
    requires st.s.current in Next(st, Plain(e)).pc
    ensures var to := Next(st, Plain(e));
      to.s.current == st.s.current && to.pc[st.s.current] == At(st) && to.flag == st.flag
  {
    CurrentFacts(st.s);
    assert st.pc.Keys == st.s.threads.Keys;
    if e.Create? {
      CreateFacts(st.s, e.memory);
    } else if e.Exit? {
      ExitFacts(st.s);
    } else if e.Kill? {
      KillFacts(st.s, e.tid);
    }
    hide Inv, Shape, S.Partition, S.FreeSlot, S.DoCreate, S.DoExit, S.DoKill;
  }

  // ---------- whole runs ----------

  /** What becomes of a thread inside a call in one step: it is gone, still inside, or back. */
  lemma StepInside(st: State, a: Action, t: int, ls: set<nat>, f: bool)
    requires Inv(st) && Enabled(st, a) && Inside(st, t, ls, f) && t in Next(st, a).pc
    ensures Inside(Next(st, a), t, ls, f) || Outside(Next(st, a), t, ls, f)
  {
    if t == st.s.current {
      Atomic(st, a);
      GoesOn(st, ls, f);
    } else {
      OthersStay(st, a, t);
      SuspendedAt(st, t);
    }
    hide Inv, Next, Shape, Resume;
  }

  /** Thread t is inside a call in all states of the run but the last, and outside of it there. */
  predicate Returns(st: State, run: seq<Action>, t: int)
    requires Inv(st) && Legal(st, run)
    decreases |run|
  {
    t in st.pc &&
    if run == [] then st.pc[t] == User
    else st.pc[t] != User && (NextInv(st, run[0]); Returns(Next(st, run[0]), run[1..], t))
  }

  lemma {:induction false} ReturnsAs(st: State, run: seq<Action>, t: int, ls: set<nat>, f: bool)
    requires Inv(st) && Legal(st, run) && (Inside(st, t, ls, f) || Outside(st, t, ls, f)) && Returns(st, run, t)
    ensures Outside(Run(st, run), t, ls, f)
    decreases |run|
  {
    hide Inv, Next, Shape, Enabled;
    if run != [] {
      NextInv(st, run[0]);
      assert t in Next(st, run[0]).pc;
      StepInside(st, run[0], t, ls, f);
      ReturnsAs(Next(st, run[0]), run[1..], t, ls, f);
    }
  }

  /** A new thread begins with interrupts on, in thread_stub. */
  lemma StartsOn(st: State, run: seq<Action>, t: int)
    requires Inv(st) && Legal(st, run) && t in st.pc && st.pc[t] == Starting && Returns(st, run, t)
    ensures var to := Run(st, run); to.s.current == t && t in to.pc && to.pc[t] == User && to.flag
  {
    hide Inv, Legal, Run, Returns;
    ReturnsAs(st, run, t, {}, true);
  }

  /** The run is a call of the running thread, from its first step to its return. */
  predicate WholeCall(st: State, run: seq<Action>)
    requires Inv(st) && Legal(st, run)
  {
    run != [] && At(st) == User && (NextInv(st, run[0]); Returns(Next(st, run[0]), run[1..], st.s.current))
  }

  /** However a call was interleaved with other threads, its thread comes back from it with the flag it had
      before, unless it was interrupts_set, and with the lock if it was lock_acquire or cv_wait. */
  lemma CallReturns(st: State, run: seq<Action>)
    requires Inv(st) && Legal(st, run) && WholeCall(st, run)
    ensures Outside(Run(st, run), st.s.current, Wanted(st, run[0]), FlagDue(st, run[0]))
  {
    hide Inv, Next, Shape, Enabled;
    NextInv(st, run[0]);
    assert st.s.current in Next(st, run[0]).pc;
    Enters(st, run[0]);
    ReturnsAs(Next(st, run[0]), run[1..], st.s.current, Wanted(st, run[0]), FlagDue(st, run[0]));
  }

  /** lock_acquire, and cv_wait under a lock that is held, from the call to the return. */
  lemma AcquireReturns(st: State, run: seq<Action>, l: nat)
    requires Inv(st) && Legal(st, run) && WholeCall(st, run)
    requires run[0] == Acquire(l) || (run[0].Wait? && run[0].l == l && l in st.locks && !st.locks[l].available)
    ensures var to, t := Run(st, run), st.s.current;
      && to.s.current == t && t in to.pc && to.pc[t] == User && to.flag == st.flag
      && l in to.locks && !to.locks[l].available && to.held[l] == {t}
  {
    assert run != [];
    hide Inv, Next, Enabled, Legal, Run, WholeCall;
    CallReturns(st, run);
    WantsLock(st, run, l);
    OneHolder(Run(st, run), st.s.current, l);
  }

  lemma WantsLock(st: State, run: seq<Action>, l: nat)
    requires Inv(st) && Legal(st, run) && run != []
    requires run[0] == Acquire(l) || (run[0].Wait? && run[0].l == l && l in st.locks && !st.locks[l].available)
    ensures Wanted(st, run[0]) == {l}
  {
    hide Inv, Shape, Next;
  }

  lemma OneHolder(st: State, t: int, l: nat)
    requires Inv(st) && Has(st, t, l)
    ensures st.held[l] == {t}
  {
    assert Guarded(st, l);
    hide Inv;
    assert forall u | u in st.held[l] :: u == t;
  }

  // ---------- the critical section ----------

  /** By this step thread t gives up lock l: it releases it, waits with it, or is no more. */
  predicate GivesUp(st: State, a: Action, t: int, l: nat)
    requires Shape(st)
  {
    || (st.s.current == t &&
        (a == Release(l) || a == Plain(S.Exit) || (a == Continue && At(st).Releasing? && At(st).l == l)))
    || a == Plain(S.Kill(t))
  }

  lemma HoldsOn(st: State, a: Action, t: int, l: nat)
    requires Inv(st) && Enabled(st, a) && Has(st, t, l) && !GivesUp(st, a, t, l)
    ensures Has(Next(st, a), t, l)
  {
    hide Inv, Shape, Resume, Call, S.Partition, S.DoYield, S.DoWakeup;
    AtFacts(st);
    OneHolder(st, t, l);
    match a {
      case Continue => HoldsResume(st, t, l);
      case Plain(e) => HoldsCall(st, e, t, l);
      case _ =>
    }
  }

  lemma HoldsResume(st: State, t: int, l: nat)
    requires Inv(st) && At(st) != User && Has(st, t, l) && st.held[l] == {t}
    requires At(st).Releasing? && At(st).l == l ==> st.s.current != t
    ensures Has(Resume(st), t, l)
  {
    hide Inv, S.Partition, S.DoSleep, S.DoWakeup;
    AtFacts(st);
  }

  lemma HoldsCall(st: State, e: S.Event, t: int, l: nat)
    requires Inv(st) && S.Enabled(st.s, e) && Has(st, t, l) && (e == S.Exit ==> st.s.current != t) && e != S.Kill(t)
    ensures Has(Call(st, e), t, l)
  {
    hide Inv, S.Partition, S.Apply;
  }

  /** No step of the run gives up the lock. */
  predicate Keeps(st: State, run: seq<Action>, t: int, l: nat)
    requires Inv(st) && Legal(st, run)
    decreases |run|
  {
    run == [] || (!GivesUp(st, run[0], t, l) && (NextInv(st, run[0]); Keeps(Next(st, run[0]), run[1..], t, l)))
  }

  /** As long as the holder keeps the lock it has it, and no other thread that is in lock_acquire or cv_wait
      with it comes back. */
  lemma {:induction false} NobodyElse(st: State, run: seq<Action>, t: int, l: nat)
    requires Inv(st) && Legal(st, run) && Has(st, t, l) && Keeps(st, run, t, l)
    ensures Has(Run(st, run), t, l)
    ensures forall u, f | u != t && Inside(st, u, {l}, f) :: !Returns(st, run, u)
    decreases |run|
  {
    hide Inv, Next, Shape, Enabled, Has, GivesUp, Inside;
    if run != [] {
      NextInv(st, run[0]);
      HoldsOn(st, run[0], t, l);
      NobodyElse(Next(st, run[0]), run[1..], t, l);
    }
    forall u, f | u != t && Inside(st, u, {l}, f) ensures !Returns(st, run, u) {
      if Returns(st, run, u) {
        ReturnsAs(st, run, u, {l}, f);
        assert Has(Run(st, run), u, l);
        OneHolder(Run(st, run), t, l);
        OneHolder(Run(st, run), u, l);
      }
    }
  }

  // ---------- that calls do return ----------

  /** How many steps of its own a thread needs until its call returns, if the lock it wants is free when it
      looks; not counting the two steps by which cv_wait gets to sleep. */
  function StepsLeft(p: Pc): nat {
    match p
    case User => 0
    case Testing(_, outer) => |outer| + 1
    case LockSleeping(_, _, outer) => |outer| + 2
    case Returning(outer) => |outer|
    case Reacquiring(_, _) => 4
    case CvSleeping(_, _, _, _) => 5
    case _ => 1
  }

  /** The running thread is in a call, past the sleep of cv_wait, and the lock it looks for is free. */
  predicate WayFree(st: State)
    requires Shape(st)
  {
    var p := At(st);
    && !p.Releasing? && !p.Unlocked?
    && (p.Testing? || p.LockSleeping? || p.Reacquiring? || p.CvSleeping? ==> p.l in st.locks && st.locks[p.l].available)
  }

  lemma StepsDown(st: State)
    requires Inv(st) && At(st) != User && WayFree(st)
    ensures var to := Resume(st);
      && to.s == st.s && st.s.current in to.pc && StepsLeft(to.pc[st.s.current]) == StepsLeft(At(st)) - 1
      && (Shape(to) ==> WayFree(to))
  {
    hide Inv, Shape, SleepOn, Unlock;
    AtFacts(st);
  }

  /** A thread that comes to run inside lock_acquire, or inside cv_wait after its sleep, while the lock is
      free comes back from the call before any other thread runs. */
  lemma {:induction false} ComesBack(st: State) returns (run: seq<Action>)
    requires Inv(st) && WayFree(st)
    ensures |run| == StepsLeft(At(st)) && Legal(st, run) && Returns(st, run, st.s.current) && Run(st, run).s == st.s
    decreases StepsLeft(At(st))
  {
    CurrentFacts(st.s);
    run := [];
    if At(st) != User {
      NextInv(st, Continue);
      StepsDown(st);
      var rest := ComesBack(Next(st, Continue));
      run := [Continue] + rest;
      assert run[1..] == rest;
      hide Inv, Next;
    }
  }

  // ---------- the threads underneath ----------

  /** The call of the thread library that a step makes, if it makes one. */
  function EventsOf(st: State, a: Action): seq<S.Event>
    requires Shape(st) && Enabled(st, a)
  {
    match a
    case Preempt => [S.Yield(-1)]
    case Plain(e) => [e]
    case Release(l) => UnlockEvents(st, l)
    case Signal(c, l) => if st.locks[l].available then [] else [S.Wakeup(st.cvs[c], false)]
    case Broadcast(c, l) => if st.locks[l].available then [] else [S.Wakeup(st.cvs[c], true)]
    case NewLock(_, q) => [S.NewQueue(q)]
    case NewCv(_, q) => [S.NewQueue(q)]
    case DestroyLock(l) => if st.locks[l].available then [S.FreeQueue(st.locks[l].queue)] else []
    case Continue =>
      var p := At(st);
      if p.Testing? && !st.locks[p.l].available then [S.Sleep(st.locks[p.l].queue)]
      else if p.Releasing? then UnlockEvents(st, p.l)
      else if p.Unlocked? then [S.Sleep(st.cvs[p.c])]
      else []
    case _ => []
  }

  function UnlockEvents(st: State, l: nat): seq<S.Event>
    requires l in st.locks
  {
    if st.locks[l].available then [] else [S.Wakeup(st.locks[l].queue, true)]
  }

  function AllEvents(st: State, run: seq<Action>): seq<S.Event>
    requires Inv(st) && Legal(st, run)
    decreases |run|
  {
    if run == [] then []
    else
      NextInv(st, run[0]);
      EventsOf(st, run[0]) + AllEvents(Next(st, run[0]), run[1..])
  }

  /** A step does to the threads and their queues what the call of the library does, and nothing else. */
  lemma StepEvents(st: State, a: Action)
    requires Inv(st) && Enabled(st, a)
    ensures Does(st.s, EventsOf(st, a), Next(st, a).s)
  {
    hide Inv, Shape, Resume, Call, Does, Unlock, UnlockEvents, S.Partition, S.DoYield, S.DoWakeup;
    match a
    case Continue => ResumeEvents(st);
    case Plain(e) => PlainEvents(st, e);
    case Release(l) => UnlocksBy(st, l);
    case Signal(_, _) => SignalEvents(st, a);
    case Broadcast(_, _) => SignalEvents(st, a);
    case _ => OtherEvents(st, a);
  }

  /** At most one event leads from s to the state after it. */
  predicate Does(s: S.Sched, es: seq<S.Event>, to: S.Sched) {
    && S.Partition(s) && |es| <= 1 && (es != [] ==> S.Enabled(s, es[0]))
    && to == if es == [] then s else S.Apply(s, es[0]).0
  }

  lemma UnlocksBy(st: State, l: nat)
    requires Inv(st) && l in st.locks
    ensures Does(st.s, UnlockEvents(st, l), Unlock(st, l).s)
  {
    hide Inv, S.Partition;
    LockFacts(st, l);
  }

  lemma PlainEvents(st: State, e: S.Event)
    requires Inv(st) && Enabled(st, Plain(e))
    ensures Does(st.s, [e], Next(st, Plain(e)).s)
  {
    if e.Create? {
      CreateFacts(st.s, e.memory);
    } else if e.Kill? {
      KillFacts(st.s, e.tid);
    }
    hide Inv, S.Partition, S.FreeSlot, S.DoCreate, S.DoKill, S.DoYield, S.DoExit;
    CurrentFacts(st.s);
  }

  lemma ResumeEvents(st: State)
    requires Inv(st) && At(st) != User
    ensures Does(st.s, EventsOf(st, Continue), Resume(st).s)
  {
    AtFacts(st);
    var p := At(st);
    if p.Testing? {
      LockFacts(st, p.l);
    } else if p.Releasing? {
      UnlocksBy(st, p.l);
    } else if p.Unlocked? {
      CvFacts(st, p.c);
    }
    hide Inv, Shape, S.Partition, UnlockEvents;
  }

  lemma SignalEvents(st: State, a: Action)
    requires Inv(st) && Enabled(st, a) && (a.Signal? || a.Broadcast?)
    ensures Does(st.s, EventsOf(st, a), Next(st, a).s)
  {
    hide Inv, Next, S.Partition, S.DoWakeup;
    NextSignal(st, a);
  }

  lemma OtherEvents(st: State, a: Action)
    requires Inv(st) && Enabled(st, a)
    requires !a.Plain? && !a.Continue? && !a.Release? && !a.Signal? && !a.Broadcast?
    ensures Does(st.s, EventsOf(st, a), Next(st, a).s)
  {
    hide Inv, S.Partition, S.DoYield;
    if a.DestroyLock? {
      LockFacts(st, a.l);
    }
  }

  /** Over a whole run the threads are moved by calls of the library alone, so what holds of all runs of the
      library holds of these. */
  lemma {:induction false} RunEvents(st: State, run: seq<Action>)
    requires Inv(st) && Legal(st, run)
    ensures S.Partition(st.s) && T.Legal(st.s, AllEvents(st, run))
    ensures T.Run(st.s, AllEvents(st, run)) == Run(st, run).s
    decreases |run|
  {
    hide Inv, Shape, Next, Enabled, S.Partition, S.Apply, EventsOf;
    if run == [] {
      assert S.Partition(st.s) by {
        CurrentPartition(st);
      }
    } else {
      NextInv(st, run[0]);
      StepEvents(st, run[0]);
      RunEvents(Next(st, run[0]), run[1..]);
      var es, rest := EventsOf(st, run[0]), AllEvents(Next(st, run[0]), run[1..]);
      if es == [] {
        assert es + rest == rest;
      } else {
        assert (es + rest)[0] == es[0] && (es + rest)[1..] == rest;
      }
    }
  }

  lemma CurrentPartition(st: State)
    requires Inv(st)
    ensures S.Partition(st.s)
  {
  }
}
