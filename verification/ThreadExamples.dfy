/** Runs from the start in which the thread library falls short of what it is for. */
module ThreadExamples {
  import opened Lists
  import opened Scheduling
  import T = ThreadRuns
  import L = Locks

  /** One event of a run, and the rest of it. */
  lemma Step(s: Sched, e: Event, to: Sched, rest: seq<Event>)
    requires Partition(s) && Enabled(s, e) && T.After(s, e) == to
    requires Partition(to) ==> T.Legal(to, rest)
    ensures Partition(to) && T.Legal(s, [e] + rest) && T.Run(s, [e] + rest) == T.Run(to, rest)
  {
    ApplyPartition(s, e);
    assert ([e] + rest)[1..] == rest;
    hide Partition, Apply;
  }

  /** When there is no memory for a stack, the new thread is valid and nowhere. */
  lemma NoMemory(enabled: bool)
    ensures var s, run := Initial(enabled), [Create(false)];
      Partition(s) && T.Legal(s, run) && !T.AllPlaced(T.Run(s, run))
  {
    var s := Initial(enabled);
    T.InitialState(enabled);
    assert FreeSlot(s, 0) == 1;
    var to := s.(threads := s.threads[1 := Info(Nowhere, 0, true)]);
    Step(s, Create(false), to, []);
    assert 1 in to.threads;
    assert [Create(false)] + [] == [Create(false)];
  }

  /** After the main thread has created thread 1. */
  function Created(enabled: bool): Sched {
    Sched(0, [1], map[], map[0 := Info(Running, 0, enabled), 1 := Info(Ready, 1, true)], 0, 1, [])
  }

  /** After the main thread has exited. */
  function Alone(): Sched {
    Sched(1, [], map[], map[1 := Info(Running, 1, true)], 0, 1, [])
  }

  /** After thread 1 has created another, which gets number 0. */
  function Reused(): Sched {
    Sched(1, [0], map[], map[0 := Info(Ready, 2, true), 1 := Info(Running, 1, true)], 0, 2, [])
  }

  lemma ToCreated(enabled: bool)
    ensures Partition(Initial(enabled)) && T.After(Initial(enabled), Create(true)) == Created(enabled)
  {
    assert FreeSlot(Initial(enabled), 0) == 1;
  }

  lemma ToAlone(enabled: bool)
    ensures Partition(Created(enabled)) && T.After(Created(enabled), Exit) == Alone()
  {
  }

  lemma ToReused()
    ensures Partition(Alone()) && T.After(Alone(), Create(true)) == Reused()
  {
    assert FreeSlot(Alone(), 0) == 0;
  }

  lemma ToLost()
    ensures Partition(Reused()) && T.After(Reused(), Kill(0)) == Alone().(made := 2)
  {
    assert Index([0], 0) == 0 && Removed([0], 0) == [];
    assert Reused().threads - {0} == Alone().threads;
  }

  lemma Unowned()
    ensures !T.Accounted(Alone().(made := 2))
  {
    assert !T.Owned(Alone().(made := 2), 2);
  }

  /** The main thread exits, its number is used again, and the thread that has it is killed: its stack is
      never freed. */
  lemma KillZero(enabled: bool)
    ensures var s, run := Initial(enabled), [Create(true), Exit, Create(true), Kill(0)];
      Partition(s) && T.Legal(s, run) && !T.Accounted(T.Run(s, run))
  {
    hide Partition, T.After, T.Accounted, Initial, Created, Alone, Reused;
    ToCreated(enabled);
    ToAlone(enabled);
    ToReused();
    ToLost();
    Unowned();
    Step(Reused(), Kill(0), Alone().(made := 2), []);
    Step(Alone(), Create(true), Reused(), [Kill(0)]);
    Step(Created(enabled), Exit, Alone(), [Create(true), Kill(0)]);
    Step(Initial(enabled), Create(true), Created(enabled), [Exit, Create(true), Kill(0)]);
    assert [Create(true)] + [Exit, Create(true), Kill(0)] == [Create(true), Exit, Create(true), Kill(0)];
  }

  /** Lock 0 is made, by the one thread there is. */
  function Unlocked(): L.State {
    L.State(Initial(true).(waits := map[1 := []]), true, map[0 := L.User], map[0 := L.Lock(1, true)], map[],
            map[1 := L.OfLock(0)], map[0 := {}])
  }

  /** Thread 1 is ready, and thread 0 is at p. */
  function Two(p: L.Pc, flag: bool): L.State {
    Unlocked().(s := Created(true).(waits := map[1 := []]), flag := flag, pc := map[0 := p, 1 := L.Starting])
  }

  /** Thread 0 holds the lock. */
  function Held(p: L.Pc, flag: bool): L.State {
    Two(p, flag).(locks := map[0 := L.Lock(1, false)], held := map[0 := {0}])
  }

  /** Thread 1 runs, while thread 0 holds the lock. */
  function Switched(p: L.Pc, flag: bool): L.State {
    Held(L.Yielding(true), flag).(
      s := Sched(1, [0], map[1 := []], map[0 := Info(Ready, 0, true), 1 := Info(Running, 1, true)], 0, 1, []),
      pc := map[0 := L.Yielding(true), 1 := p])
  }

  lemma ToUnlocked()
    ensures L.Inv(L.Start(true)) && L.Enabled(L.Start(true), L.NewLock(0, 1))
    ensures L.Next(L.Start(true), L.NewLock(0, 1)) == Unlocked()
  {
    L.StartInv(true);
  }

  lemma ToTwo()
    requires L.Inv(Unlocked())
    ensures L.Enabled(Unlocked(), L.Plain(Create(true)))
    ensures L.Next(Unlocked(), L.Plain(Create(true))) == Two(L.User, true)
  {
    hide L.Inv, L.Shape, Partition, NoDup;
    assert FreeSlot(Unlocked().s, 0) == 1;
  }

  lemma ToTesting()
    requires L.Inv(Two(L.User, true))
    ensures var st := Two(L.User, true);
      L.Enabled(st, L.Acquire(0)) && L.Next(st, L.Acquire(0)) == Two(L.Testing(0, [true]), false)
  {
    hide L.Inv, L.Shape, Partition, NoDup;
  }

  lemma ToTaken()
    requires L.Inv(Two(L.Testing(0, [true]), false))
    ensures var st := Two(L.Testing(0, [true]), false);
      L.Enabled(st, L.Continue) && L.Next(st, L.Continue) == Held(L.Returning([true]), false)
  {
    hide L.Inv, L.Shape, Partition, NoDup;
    var st := Two(L.Testing(0, [true]), false);
    assert L.At(st) == L.Testing(0, [true]) && st.locks[0].available;
    assert st.held[0] + {0} == {0};
    assert L.Resume(st).locks == map[0 := L.Lock(1, false)] && L.Resume(st).held == map[0 := {0 as int}];
  }

  lemma ToHeld()
    requires L.Inv(Held(L.Returning([true]), false))
    ensures var st := Held(L.Returning([true]), false);
      L.Enabled(st, L.Continue) && L.Next(st, L.Continue) == Held(L.User, true)
  {
    hide L.Inv, L.Shape, Partition, NoDup;
  }

  lemma ToYielded()
    requires L.Inv(Held(L.User, true))
    ensures var st := Held(L.User, true);
      L.Enabled(st, L.Plain(Yield(THREAD_ANY))) && L.Next(st, L.Plain(Yield(THREAD_ANY))) == Switched(L.Starting, false)
  {
    hide L.Inv, L.Shape, Partition, NoDup;
    assert Removed([1], 0) == [];
  }

  lemma ToSwitched()
    requires L.Inv(Switched(L.Starting, false))
    ensures var st := Switched(L.Starting, false);
      L.Enabled(st, L.Continue) && L.Next(st, L.Continue) == Switched(L.User, true)
  {
    hide L.Inv, L.Shape, Partition, NoDup;
  }

  /** The run leads to thread 1 running while thread 0 holds the lock. */
  predicate Leads(st: L.State, run: seq<L.Action>) {
    L.Inv(st) && L.Legal(st, run) && L.Run(st, run) == Switched(L.User, true)
  }

  lemma LeadsFirst(st: L.State, a: L.Action, rest: seq<L.Action>)
    requires L.Inv(st) && L.Enabled(st, a) && Leads(L.Next(st, a), rest)
    ensures Leads(st, [a] + rest)
  {
    hide L.Inv, L.Next, L.Enabled, L.Shape, Switched;
    assert ([a] + rest)[0] == a && ([a] + rest)[1..] == rest;
    assert L.Legal(st, [a] + rest);
  }

  lemma FromSwitched()
    requires L.Inv(Switched(L.Starting, false))
    ensures Leads(Switched(L.Starting, false), [L.Continue])
  {
    hide L.Inv, L.Next, L.Enabled, Switched;
    ToSwitched();
    L.NextInv(Switched(L.Starting, false), L.Continue);
    assert Leads(Switched(L.User, true), []);
    hide Leads;
    LeadsFirst(Switched(L.Starting, false), L.Continue, []);
    assert [L.Continue] + [] == [L.Continue];
  }

  lemma FromHeld()
    requires L.Inv(Held(L.User, true))
    ensures Leads(Held(L.User, true), [L.Plain(Yield(THREAD_ANY)), L.Continue])
  {
    hide L.Inv, L.Next, L.Enabled, Switched, Held, Leads;
    ToYielded();
    L.NextInv(Held(L.User, true), L.Plain(Yield(THREAD_ANY)));
    FromSwitched();
    LeadsFirst(Held(L.User, true), L.Plain(Yield(THREAD_ANY)), [L.Continue]);
    assert [L.Plain(Yield(THREAD_ANY))] + [L.Continue] == [L.Plain(Yield(THREAD_ANY)), L.Continue];
  }

  lemma FromTesting()
    requires L.Inv(Two(L.Testing(0, [true]), false))
    ensures Leads(Two(L.Testing(0, [true]), false), [L.Continue, L.Continue, L.Plain(Yield(THREAD_ANY)), L.Continue])
  {
    hide L.Inv, L.Next, L.Enabled, Held, Two, Leads;
    ToTaken();
    L.NextInv(Two(L.Testing(0, [true]), false), L.Continue);
    ToHeld();
    L.NextInv(Held(L.Returning([true]), false), L.Continue);
    FromHeld();
    var rest := [L.Plain(Yield(THREAD_ANY)), L.Continue];
    LeadsFirst(Held(L.Returning([true]), false), L.Continue, rest);
    LeadsFirst(Two(L.Testing(0, [true]), false), L.Continue, [L.Continue] + rest);
    assert [L.Continue] + ([L.Continue] + rest) == [L.Continue, L.Continue, L.Plain(Yield(THREAD_ANY)), L.Continue];
  }

  /** How thread 1 comes to run while thread 0 holds lock 0. */
  function Takeover(): seq<L.Action> {
    [L.NewLock(0, 1)] + ([L.Plain(Create(true))] +
    ([L.Acquire(0)] + [L.Continue, L.Continue, L.Plain(Yield(THREAD_ANY)), L.Continue]))
  }

  lemma FromStart()
    ensures Leads(L.Start(true), Takeover())
  {
    hide L.Inv, L.Next, L.Enabled, L.Start, Unlocked, Two, Leads;
    ToUnlocked();
    L.NextInv(L.Start(true), L.NewLock(0, 1));
    ToTwo();
    L.NextInv(Unlocked(), L.Plain(Create(true)));
    ToTesting();
    L.NextInv(Two(L.User, true), L.Acquire(0));
    FromTesting();
    var rest := [L.Continue, L.Continue, L.Plain(Yield(THREAD_ANY)), L.Continue];
    LeadsFirst(Two(L.User, true), L.Acquire(0), rest);
    LeadsFirst(Unlocked(), L.Plain(Create(true)), [L.Acquire(0)] + rest);
    LeadsFirst(L.Start(true), L.NewLock(0, 1), [L.Plain(Create(true))] + ([L.Acquire(0)] + rest));
  }

  /** Thread 1 releases a lock that thread 0 holds: the lock is free, and thread 0 still thinks it has it. */
  lemma ReleasedByAnother()
    ensures L.Inv(L.Start(true)) && L.Legal(L.Start(true), Takeover())
    ensures var st := L.Run(L.Start(true), Takeover());
      && st.s.current == 1 && 0 in st.locks && !st.locks[0].available && st.held[0] == {0}
      && L.Unlock(st, 0).locks[0].available && L.Unlock(st, 0).held[0] == {0} && !L.Inv(L.Unlock(st, 0))
  {
    hide L.Inv, L.Legal, L.Run, L.Shape, L.Start, Takeover, L.Unlock, Partition;
    FromStart();
    var st := Switched(L.User, true);
    L.ForeignRelease(st, 0);
    ForeignEffect();
  }

  lemma ForeignEffect()
    requires L.Shape(Switched(L.User, true))
    ensures var st := Switched(L.User, true); L.Unlock(st, 0).locks[0].available && L.Unlock(st, 0).held[0] == {0}
  {
    hide L.Shape, Partition;
    assert {0 as int} - {1} == {0};
  }
}
