/** What each call of the thread library promises (threads/thread.c:75-479): who runs afterwards, what
    is returned, and what becomes of the queues, in terms of the state before and after the call. */
module ThreadCalls {
  import opened Lists
  import opened Scheduling

  /** The stack of a thread that exited earlier has been freed. */
  predicate Reaped(s: Sched, to: Sched) {
    to.freed == s.freed + (if s.doomed == 0 then [] else [s.doomed])
  }

  /** Nobody but the threads named has come, gone, or got another stack or flag. */
  predicate SameThreads(s: Sched, to: Sched, but: set<int>) {
    && to.threads.Keys - but == s.threads.Keys - but
    && forall t | t in s.threads && t in to.threads && t !in but ::
         to.threads[t].stack == s.threads[t].stack && to.threads[t].enabled == s.threads[t].enabled
  }

  /** thread_yield: a ready thread that is asked for runs, and so does the first one when any will do; the
      caller goes to the end of the queue. Otherwise the caller runs on. */
  lemma YieldLaw(s: Sched, want: int)
    requires Partition(s) && Enabled(s, Yield(want))
    ensures var to := Apply(s, Yield(want)).0;
      && to.waits == s.waits && to.made == s.made && SameThreads(s, to, {}) && to.doomed == 0 && Reaped(s, to)
      && to.current == (if want in s.ready then want else if want == -1 && s.ready != [] then s.ready[0] else s.current)
      && (forall k: nat | k < |s.ready| && s.ready[k] == want ::
            to.ready == s.ready[..k] + s.ready[k + 1..] + [s.current])
      && (want == -1 && s.ready != [] ==> to.ready == s.ready[1..] + [s.current])
      && (to.current == s.current ==> to.ready == s.ready && to.threads == s.threads)
  {
    var k := Index(s.ready, want);
    YieldResult(s, want);
    if k < |s.ready| {
      forall j: nat | j < |s.ready| && s.ready[j] == want ensures j == k {
        Once(s, j);
      }
      hide NoDup, Index;
      assert want in s.ready && want != s.current && want != -1 && want in s.threads;
    } else {
      hide NoDup, Index;
      assert want !in s.ready;
    }
  }

  /** It returns who runs, or says why the caller runs on though it asked for another thread. */
  lemma YieldResult(s: Sched, want: int)
    requires Partition(s) && Enabled(s, Yield(want))
    ensures Apply(s, Yield(want)).1 ==
              if want in s.ready then want
              else if want == -2 || want == s.current then s.current
              else if want == -1 then (if s.ready == [] then -4 else s.ready[0])
              else if want in s.threads && s.ready == [] then -4
              else -3
  {
    IndexIn(s.ready, want);
    hide NoDup, Index, SwitchTo;
  }

  lemma Once(s: Sched, k: nat)
    requires Partition(s) && k < |s.ready|
    ensures Index(s.ready, s.ready[k]) == k
  {
    IndexOf(s.ready, k);
  }

  /** thread_exit: the first ready thread runs, the caller is no thread any more, and its stack is the next
      to be freed; the last thread cannot exit this way. */
  lemma ExitLaw(s: Sched)
    requires Partition(s)
    ensures var (to, r) := Apply(s, Exit);
      && to.waits == s.waits && to.made == s.made && Reaped(s, to)
      && if s.ready == [] then
           r == -4 && to.current == s.current && to.ready == [] && to.threads == s.threads && to.doomed == 0
         else
           && s.ready == [r] + to.ready && to.current == r && s.current !in to.threads
           && SameThreads(s, to, {s.current}) && to.doomed == s.threads[s.current].stack
  {
    hide NoDup;
  }

  /** thread_kill: a ready thread is gone, and its stack is freed unless its number is 0; any other number
      is refused. */
  lemma KillLaw(s: Sched, tid: int)
    requires Partition(s)
    ensures var (to, r) := Apply(s, Kill(tid));
      && to.waits == s.waits && to.made == s.made && to.doomed == s.doomed && to.current == s.current
      && (tid !in s.ready ==> r == -3 && to == s)
      && (tid in s.ready ==>
            && r == tid && tid !in to.threads && SameThreads(s, to, {tid}) && |to.ready| == |s.ready| - 1
            && to.freed == s.freed + if tid == 0 || s.threads[tid].stack == 0 then [] else [s.threads[tid].stack])
      && forall k: nat | k < |s.ready| && s.ready[k] == tid :: to.ready == s.ready[..k] + s.ready[k + 1..]
  {
    hide NoDup;
    IndexIn(s.ready, tid);
    forall k: nat | k < |s.ready| && s.ready[k] == tid ensures k == Index(s.ready, tid) {
      Once(s, k);
    }
  }

  /** thread_create: the new thread gets the least free number and joins the queue at its end; without
      memory the number is taken all the same. */
  lemma CreateLaw(s: Sched, memory: bool)
    requires Partition(s)
    ensures var (to, r) := Apply(s, Create(memory));
      && to.waits == s.waits && to.doomed == s.doomed && to.freed == s.freed && to.current == s.current
      && ((forall t | 0 <= t < 1024 :: t in s.threads) ==> r == -5 && to == s)
      && forall i | 0 <= i < 1024 && i !in s.threads && (forall t | 0 <= t < i :: t in s.threads) ::
           && r == (if memory then i else -6) && SameThreads(s, to, {i}) && i in to.threads && to.threads[i].enabled
           && to.ready == s.ready + (if memory then [i] else [])
           && to.threads[i].stack == (if memory then to.made else 0) && to.made == s.made + (if memory then 1 else 0)
  {
    hide NoDup;
    var i := FreeSlot(s, 0);
    hide FreeSlot;
  }

  /** thread_sleep: the first ready thread runs and the caller is the last of the wait queue. */
  lemma SleepLaw(s: Sched, q: nat)
    requires Partition(s) && Enabled(s, Sleep(q))
    ensures var (to, r) := Apply(s, Sleep(q));
      && to.made == s.made && to.doomed == s.doomed && to.freed == s.freed && SameThreads(s, to, {})
      && (q == 0 ==> r == -3 && to == s) && (q != 0 && s.ready == [] ==> r == -4 && to == s)
      && (q != 0 && s.ready != [] ==>
            && s.ready == [r] + to.ready && to.current == r
            && to.waits == s.waits[q := s.waits[q] + [s.current]])
  {
    hide NoDup;
  }

  /** thread_wakeup: the longest asleep, or all of them, join the queue in the order in which they went to
      sleep, and the result is how many there are of them. */
  lemma WakeupLaw(s: Sched, q: nat, all: bool)
    requires Partition(s) && Enabled(s, Wakeup(q, all))
    ensures var (to, r) := Apply(s, Wakeup(q, all));
      && to.made == s.made && to.doomed == s.doomed && to.freed == s.freed && to.current == s.current
      && SameThreads(s, to, {}) && r == |to.ready| - |s.ready| && s.ready <= to.ready
      && (q == 0 ==> to == s)
      && (q != 0 ==>
            && s.waits[q] == to.ready[|s.ready|..] + to.waits[q] && to.waits == s.waits[q := to.waits[q]]
            && (all ==> to.waits[q] == []) && (!all ==> r == if s.waits[q] == [] then 0 else 1))
  {
    hide NoDup;
  }

  /** wait_queue_create and wait_queue_destroy: other queues are as before. */
  lemma QueueLaw(s: Sched, q: nat)
    requires Partition(s) && q != 0
    ensures Enabled(s, NewQueue(q)) ==>
              var to := Apply(s, NewQueue(q)).0; to == s.(waits := to.waits) && to.waits == s.waits[q := []]
    ensures Enabled(s, FreeQueue(q)) ==>
              var to := Apply(s, FreeQueue(q)).0;
              to == s.(waits := to.waits) && q !in to.waits && s.waits == to.waits[q := []]
  {
  }

  /** interrupts_set: the old flag is returned, and the flag of the running thread alone is set. */
  lemma InterruptsLaw(s: Sched, on: bool)
    requires Partition(s)
    ensures var (to, r) := Apply(s, Interrupts(on));
      && to == s.(threads := to.threads) && SameThreads(s, to, {s.current}) && s.current in to.threads
      && to.threads[s.current].enabled == on && to.threads[s.current].stack == s.threads[s.current].stack
      && r == if s.threads[s.current].enabled then 1 else 0
  {
    hide NoDup;
  }
}
