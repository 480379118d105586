/** The web server's request buffer (webserver/server_thread.c:281-332): the ring, and what happens to
    it and to the threads around it over whole runs. */
module RequestBuffers {

  /** (in - out + max + 1) % (max + 1) */
  function Count(head: nat, tail: nat, max: nat): (n: nat)
    requires head <= max && tail <= max
    ensures n <= max && n == (head - tail + max + 1) % (max + 1)
  {
    if head >= tail then
      Wrap(head - tail, max);
      head - tail
    else head - tail + max + 1
  }

  lemma Wrap(n: nat, max: nat)
    requires n <= max
    ensures (n + max + 1) % (max + 1) == n
  {
    var m := max + 1;
    assert (n + m) - m * ((n + m) / m) == (n + m) % m;
    if (n + m) / m >= 2 {
      AtLeastTwice((n + m) / m, m);
    }
  }

  lemma AtLeastTwice(q: nat, m: nat)
    requires q >= 2
    ensures m * q >= m + m
  {
  }

  /** The slot after i. */
  function Succ(i: nat, max: nat): (n: nat)
    requires i <= max
    ensures n <= max && n == (i + 1) % (max + 1)
  {
    if i == max then 0 else i + 1
  }

  /** The slot k places after tail. */
  function Slot(tail: nat, k: nat, max: nat): (n: nat)
    requires tail <= max && k <= max
    ensures n <= max
  {
    if tail + k <= max then tail + k else tail + k - max - 1
  }

  /** n descriptors from slot tail on. */
  function Window(slots: seq<int>, tail: nat, n: nat, max: nat): (s: seq<int>)
    requires |slots| == max + 1 && tail <= max && n <= max
    ensures |s| == n
  {
    seq(n, k requires 0 <= k < n => slots[Slot(tail, k, max)])
  }

  class RequestBuffer {
    const maxRequests: nat
    const buffer: array<int>
    var inIndex: nat
    var outIndex: nat

    ghost predicate Valid()
      reads this
    {
      buffer.Length == maxRequests + 1 && inIndex <= maxRequests && outIndex <= maxRequests
    }

    /** The descriptors accepted and not yet taken, oldest first. */
    ghost function Contents(): (s: seq<int>)
      requires Valid()
      reads this, buffer
      ensures |s| == Count(inIndex, outIndex, maxRequests)
    {
      Window(buffer[..], outIndex, Count(inIndex, outIndex, maxRequests), maxRequests)
    }

    constructor (maxRequests: nat)
      ensures Valid() && this.maxRequests == maxRequests && Contents() == []
    {
      this.maxRequests := maxRequests;
      buffer := new int[maxRequests + 1];
      inIndex, outIndex := 0, 0;
    }

    /** The critical section of server_request: wait while the buffer is full, or store the descriptor
        and say whether the waiting workers are signalled. */
    method Put(connfd: int) returns (full: bool, signal: bool)
      requires Valid()
      modifies this`inIndex, buffer
      ensures Valid() && full == (|old(Contents())| == maxRequests)
      ensures Contents() == if full then old(Contents()) else old(Contents()) + [connfd]
      ensures signal == (!full && old(Contents()) == [])
    {
      if (inIndex - outIndex + maxRequests + 1) % (maxRequests + 1) == maxRequests {
        return true, false;
      }
      ghost var was := Contents();
      ghost var n := Count(inIndex, outIndex, maxRequests);
      buffer[inIndex] := connfd;
      signal := inIndex == outIndex;
      inIndex := (inIndex + 1) % (maxRequests + 1);
      full := false;
      assert inIndex == Succ(old(inIndex), maxRequests);
      assert Slot(outIndex, n, maxRequests) == old(inIndex);
      assert Contents() == was + [connfd];
    }

    /** The critical section of a worker: wait while the buffer is empty, or take the oldest descriptor
        and say whether a waiting producer is signalled. */
    method Take() returns (empty: bool, connfd: int, signal: bool)
      requires Valid()
      modifies this`outIndex
      ensures Valid() && empty == (old(Contents()) == [])
      ensures empty ==> Contents() == [] && !signal
      ensures !empty ==>
                && connfd == old(Contents())[0] && Contents() == old(Contents())[1..]
                && signal == (|old(Contents())| == maxRequests)
    {
      if inIndex == outIndex {
        return true, 0, false;
      }
      ghost var was := Contents();
      connfd := buffer[outIndex];
      signal := (inIndex - outIndex + maxRequests + 1) % (maxRequests + 1) == maxRequests;
      assert Succ(outIndex, maxRequests) == (outIndex + 1) % (maxRequests + 1);
      outIndex := (outIndex + 1) % (maxRequests + 1);
      empty := false;
      assert Contents() == was[1..];
    }
  }

  /** A thread that handed over, or took, a descriptor; a blocked one waits on its condition. */
  datatype Producer = Idle | Trying(fd: int) | Blocked(fd: int)
  datatype Worker = Looking | Asleep | Serving(fd: int)

  /** accepted and taken list the descriptors stored into and taken out of the buffer so far. */
  datatype Server = Server(max: nat, queue: seq<int>, producers: seq<Producer>, workers: seq<Worker>,
                           accepted: seq<int>, taken: seq<int>)

  /** A step of producer p or worker w: a critical section, or what surrounds it. pthread_cond_signal
      wakes one of those waiting, chosen by the system (woken); a wait may also end by itself. */
  datatype Step = Request(p: nat, fd: int) | PutStep(p: nat, woken: nat) | TakeStep(w: nat, woken: nat)
                | Finish(w: nat) | WakeProducer(p: nat) | WakeWorker(w: nat)

  function Initial(max: nat, producers: nat, workers: nat): Server {
    Server(max, [], seq(producers, _ => Idle), seq(workers, _ => Looking), [], [])
  }

  predicate AnyAsleep(ws: seq<Worker>) {
    exists w :: 0 <= w < |ws| && ws[w].Asleep?
  }

  predicate AnyBlocked(ps: seq<Producer>) {
    exists p :: 0 <= p < |ps| && ps[p].Blocked?
  }

  predicate Enabled(s: Server, a: Step) {
    match a
    case Request(p, _) => p < |s.producers| && s.producers[p].Idle?
    case PutStep(p, woken) =>
      && p < |s.producers| && s.producers[p].Trying?
      && (AnyAsleep(s.workers) ==> woken < |s.workers| && s.workers[woken].Asleep?)
    case TakeStep(w, woken) =>
      && w < |s.workers| && s.workers[w].Looking?
      && (AnyBlocked(s.producers) ==> woken < |s.producers| && s.producers[woken].Blocked?)
    case Finish(w) => w < |s.workers| && s.workers[w].Serving?
    case WakeProducer(p) => p < |s.producers| && s.producers[p].Blocked?
    case WakeWorker(w) => w < |s.workers| && s.workers[w].Asleep?
  }

  /** pthread_cond_signal on buffer_empty and on buffer_full; no effect when nobody waits. */
  function SignalWorker(ws: seq<Worker>, w: nat): seq<Worker> {
    if w < |ws| && ws[w].Asleep? then ws[w := Looking] else ws
  }

  function SignalProducer(ps: seq<Producer>, p: nat): seq<Producer> {
    if p < |ps| && ps[p].Blocked? then ps[p := Trying(ps[p].fd)] else ps
  }

  function Next(s: Server, a: Step): Server
    requires Enabled(s, a)
  {
    match a
    case Request(p, fd) => s.(producers := s.producers[p := Trying(fd)])
    case PutStep(p, woken) =>
      var fd := s.producers[p].fd;
      if |s.queue| == s.max then s.(producers := s.producers[p := Blocked(fd)])
      else s.(queue := s.queue + [fd], producers := s.producers[p := Idle], accepted := s.accepted + [fd],
              workers := if s.queue == [] then SignalWorker(s.workers, woken) else s.workers)
    case TakeStep(w, woken) =>
      if s.queue == [] then s.(workers := s.workers[w := Asleep])
      else s.(queue := s.queue[1..], workers := s.workers[w := Serving(s.queue[0])], taken := s.taken + [s.queue[0]],
              producers := if |s.queue| == s.max then SignalProducer(s.producers, woken) else s.producers)
    case Finish(w) => s.(workers := s.workers[w := Looking])
    case WakeProducer(p) => s.(producers := SignalProducer(s.producers, p))
    case WakeWorker(w) => s.(workers := SignalWorker(s.workers, w))
  }

  predicate Awake(ws: seq<Worker>) {
    exists w :: 0 <= w < |ws| && !ws[w].Asleep?
  }

  /** First in, first out, exactly once; and the workers are never all asleep over a descriptor. */
  predicate Inv(s: Server) {
    && |s.queue| <= s.max && s.accepted == s.taken + s.queue
    && (s.queue != [] && s.workers != [] ==> Awake(s.workers))
  }

  /** A producer that is blocked and has not been signalled has no room. */
  predicate NoLostRoom(s: Server) {
    AnyBlocked(s.producers) ==> |s.queue| == s.max
  }

  lemma StepInv(s: Server, a: Step)
    requires Inv(s) && Enabled(s, a)
    ensures Inv(Next(s, a))
  {
    var to := Next(s, a);
    if s.workers != [] && to.queue != [] {
      AwakeStep(s, a);
    }
    hide Awake, Enabled, AnyAsleep, AnyBlocked;
  }

  /** Workers doze off only over an empty buffer, and the store that ends it wakes one. */
  lemma AwakeStep(s: Server, a: Step)
    requires Enabled(s, a) && s.workers != [] && (s.queue != [] ==> Awake(s.workers)) && Next(s, a).queue != []
    ensures Awake(Next(s, a).workers)
  {
    var to := Next(s, a);
    if s.queue == [] {
      assert a.PutStep? || a.Request? || a.Finish? || a.WakeProducer? || a.WakeWorker? || a.TakeStep?;
      if AnyAsleep(s.workers) {
        assert !to.workers[a.woken].Asleep?;
      } else {
        assert !to.workers[0].Asleep?;
      }
    } else {
      var w :| 0 <= w < |s.workers| && !s.workers[w].Asleep?;
      assert !to.workers[w].Asleep?;
    }
  }

  /** With one producer, the single signal on leaving full reaches everybody it has to. */
  lemma StepRoom(s: Server, a: Step)
    requires Enabled(s, a) && NoLostRoom(s) && |s.producers| <= 1
    ensures NoLostRoom(Next(s, a))
  {
    var to := Next(s, a);
    if AnyBlocked(to.producers) {
      assert to.producers[0].Blocked?;
      if AnyBlocked(s.producers) {
        assert s.producers[0].Blocked?;
      }
    }
  }

  predicate Legal(s: Server, run: seq<Step>)
    decreases |run|
  {
    run == [] || (Enabled(s, run[0]) && Legal(Next(s, run[0]), run[1..]))
  }

  function Run(s: Server, run: seq<Step>): Server
    requires Legal(s, run)
    decreases |run|
  {
    if run == [] then s else Run(Next(s, run[0]), run[1..])
  }

  lemma {:induction false} RunInv(s: Server, run: seq<Step>)
    requires Inv(s) && Legal(s, run)
    ensures var to := Run(s, run);
      && Inv(to) && to.max == s.max && |to.producers| == |s.producers| && |to.workers| == |s.workers|
      && s.accepted <= to.accepted && s.taken <= to.taken
      && (NoLostRoom(s) && |s.producers| <= 1 ==> NoLostRoom(to))
    decreases |run|
  {
    if run != [] {
      StepInv(s, run[0]);
      if NoLostRoom(s) && |s.producers| <= 1 {
        StepRoom(s, run[0]);
      }
      hide Inv, NoLostRoom, Enabled;
      RunInv(Next(s, run[0]), run[1..]);
    }
  }

  /** Whatever the run, the descriptors taken are the first of those accepted, in that order. */
  lemma FirstInFirstOut(max: nat, producers: nat, workers: nat, run: seq<Step>, i: nat)
    requires Legal(Initial(max, producers, workers), run)
    ensures var to := Run(Initial(max, producers, workers), run);
      && |to.accepted| == |to.taken| + |to.queue| <= |to.taken| + max
      && (i < |to.taken| ==> to.taken[i] == to.accepted[i])
  {
    RunInv(Initial(max, producers, workers), run);
  }

  // ---------- what becomes of every descriptor ----------

  function OfWorker(w: Worker, fd: int): nat {
    if w == Serving(fd) then 1 else 0
  }

  function OfProducer(p: Producer, fd: int): nat {
    if p == Trying(fd) || p == Blocked(fd) then 1 else 0
  }

  /** How many workers are serving fd, and how many producers are trying to store it. */
  function Served(ws: seq<Worker>, fd: int): nat {
    if ws == [] then 0 else OfWorker(ws[0], fd) + Served(ws[1..], fd)
  }

  function Offered(ps: seq<Producer>, fd: int): nat {
    if ps == [] then 0 else OfProducer(ps[0], fd) + Offered(ps[1..], fd)
  }

  function FinishedBy(s: Server, a: Step, fd: int): nat
    requires Enabled(s, a)
  {
    if a.Finish? then OfWorker(s.workers[a.w], fd) else 0
  }

  function RequestedBy(a: Step, fd: int): nat {
    if a.Request? && a.fd == fd then 1 else 0
  }

  /** How often a worker has finished fd, and a producer has come with it, during the run. */
  function Finished(s: Server, run: seq<Step>, fd: int): nat
    requires Legal(s, run)
    decreases |run|
  {
    if run == [] then 0 else FinishedBy(s, run[0], fd) + Finished(Next(s, run[0]), run[1..], fd)
  }

  function Requested(s: Server, run: seq<Step>, fd: int): nat
    requires Legal(s, run)
    decreases |run|
  {
    if run == [] then 0 else RequestedBy(run[0], fd) + Requested(Next(s, run[0]), run[1..], fd)
  }

  lemma {:induction false} ServedUpdate(ws: seq<Worker>, w: nat, to: Worker, fd: int)
    requires w < |ws|
    ensures Served(ws[w := to], fd) + OfWorker(ws[w], fd) == Served(ws, fd) + OfWorker(to, fd)
  {
    if w == 0 {
      assert ws[0 := to][1..] == ws[1..];
    } else {
      assert ws[w := to][1..] == ws[1..][w - 1 := to];
      ServedUpdate(ws[1..], w - 1, to, fd);
    }
  }

  lemma {:induction false} OfferedUpdate(ps: seq<Producer>, p: nat, to: Producer, fd: int)
    requires p < |ps|
    ensures Offered(ps[p := to], fd) + OfProducer(ps[p], fd) == Offered(ps, fd) + OfProducer(to, fd)
  {
    if p == 0 {
      assert ps[0 := to][1..] == ps[1..];
    } else {
      assert ps[p := to][1..] == ps[1..][p - 1 := to];
      OfferedUpdate(ps[1..], p - 1, to, fd);
    }
  }

  /** What a step adds to taken is the head of the queue, and is what the worker that took it now serves;
      what it adds to accepted is what its producer has been trying to store. */
  lemma HandsOver(s: Server, a: Step)
    requires Enabled(s, a)
    ensures var to := Next(s, a);
      && (to.taken != s.taken <==> a.TakeStep? && s.queue != [])
      && (to.taken != s.taken ==>
            && |to.taken| == |s.taken| + 1 && s.taken == to.taken[..|s.taken|]
            && to.workers[a.w] == Serving(to.taken[|s.taken|]) && s.queue == [to.taken[|s.taken|]] + to.queue)
      && (to.accepted != s.accepted <==> a.PutStep? && |s.queue| != s.max)
      && (to.accepted != s.accepted ==>
            && |to.accepted| == |s.accepted| + 1 && s.accepted == to.accepted[..|s.accepted|]
            && s.producers[a.p] == Trying(to.accepted[|s.accepted|]) && to.producers[a.p] == Idle
            && to.queue == s.queue + [to.accepted[|s.accepted|]])
  {
  }

  /** A worker that serves goes on until it finishes; one that sleeps is woken by the signal of the store
      that ends an empty buffer, or wakes by itself; one that looks takes a descriptor or goes to sleep. */
  lemma WorkerSteps(s: Server, a: Step, w: nat)
    requires Enabled(s, a) && w < |s.workers|
    ensures |Next(s, a).workers| == |s.workers|
    ensures Next(s, a).workers[w] ==
      match s.workers[w]
      case Serving(fd) => if a == Finish(w) then Looking else Serving(fd)
      case Asleep =>
        if a == WakeWorker(w) || (a.PutStep? && a.woken == w && |s.queue| != s.max && s.queue == []) then Looking
        else Asleep
      case Looking =>
        if a.TakeStep? && a.w == w then (if s.queue == [] then Asleep else Serving(s.queue[0])) else Looking
  {
  }

  /** The same for a producer, which keeps its descriptor until it is stored. */
  lemma ProducerSteps(s: Server, a: Step, p: nat)
    requires Enabled(s, a) && p < |s.producers|
    ensures |Next(s, a).producers| == |s.producers|
    ensures Next(s, a).producers[p] ==
      match s.producers[p]
      case Idle => if a.Request? && a.p == p then Trying(a.fd) else Idle
      case Trying(fd) =>
        if a.PutStep? && a.p == p then (if |s.queue| == s.max then Blocked(fd) else Idle) else Trying(fd)
      case Blocked(fd) =>
        if a == WakeProducer(p) || (a.TakeStep? && a.woken == p && s.queue != [] && |s.queue| == s.max) then Trying(fd)
        else Blocked(fd)
  {
  }

  /** One step loses no descriptor and makes none up. */
  lemma StepConserves(s: Server, a: Step, fd: int)
    requires Enabled(s, a)
    ensures var to := Next(s, a);
      && Served(to.workers, fd) + FinishedBy(s, a, fd) + multiset(s.taken)[fd]
           == Served(s.workers, fd) + multiset(to.taken)[fd]
      && Offered(to.producers, fd) + multiset(to.accepted)[fd]
           == Offered(s.producers, fd) + multiset(s.accepted)[fd] + RequestedBy(a, fd)
  {
    hide Served, Offered, AnyAsleep, AnyBlocked;
    match a {
      case Request(p, x) => OfferedUpdate(s.producers, p, Trying(x), fd);
      case PutStep(p, woken) =>
        var x := s.producers[p].fd;
        OfferedUpdate(s.producers, p, if |s.queue| == s.max then Blocked(x) else Idle, fd);
        SignalsServe(s.workers, woken, fd);
        OneMore(s.accepted, x, fd);
      case TakeStep(w, woken) =>
        ServedUpdate(s.workers, w, if s.queue == [] then Asleep else Serving(s.queue[0]), fd);
        SignalsOffer(s.producers, woken, fd);
        if s.queue != [] {
          OneMore(s.taken, s.queue[0], fd);
        }
      case Finish(w) => ServedUpdate(s.workers, w, Looking, fd);
      case WakeProducer(p) => SignalsOffer(s.producers, p, fd);
      case WakeWorker(w) => SignalsServe(s.workers, w, fd);
    }
  }

  lemma SignalsServe(ws: seq<Worker>, w: nat, fd: int)
    ensures Served(SignalWorker(ws, w), fd) == Served(ws, fd)
  {
    if w < |ws| {
      ServedUpdate(ws, w, Looking, fd);
    }
  }

  lemma SignalsOffer(ps: seq<Producer>, p: nat, fd: int)
    ensures Offered(SignalProducer(ps, p), fd) == Offered(ps, fd)
  {
    if p < |ps| && ps[p].Blocked? {
      OfferedUpdate(ps, p, Trying(ps[p].fd), fd);
    }
  }

  lemma OneMore(fds: seq<int>, x: int, fd: int)
    ensures multiset(fds + [x])[fd] == multiset(fds)[fd] + if x == fd then 1 else 0
  {
    assert multiset(fds + [x]) == multiset(fds) + multiset{x};
  }

  lemma {:induction false} RunConserves(s: Server, run: seq<Step>, fd: int)
    requires Legal(s, run)
    ensures var to := Run(s, run);
      && Served(to.workers, fd) + Finished(s, run, fd) + multiset(s.taken)[fd]
           == Served(s.workers, fd) + multiset(to.taken)[fd]
      && Offered(to.producers, fd) + multiset(to.accepted)[fd]
           == Offered(s.producers, fd) + multiset(s.accepted)[fd] + Requested(s, run, fd)
    decreases |run|
  {
    if run != [] {
      hide Next, Enabled, Served, Offered, FinishedBy, RequestedBy;
      StepConserves(s, run[0], fd);
      RunConserves(Next(s, run[0]), run[1..], fd);
    }
  }

  lemma {:induction false} NothingYet(n: nat, fd: int)
    ensures Served(seq(n, _ => Looking), fd) == 0 && Offered(seq(n, _ => Idle), fd) == 0
  {
    if n > 0 {
      NothingYet(n - 1, fd);
      assert seq(n, _ => Looking)[1..] == seq(n - 1, _ => Looking);
      assert seq(n, _ => Idle)[1..] == seq(n - 1, _ => Idle);
    }
  }

  /** Over every run each descriptor that a producer came with is, exactly once, still offered, waiting in
      the buffer, being served or finished. */
  lemma ServedOnce(max: nat, producers: nat, workers: nat, run: seq<Step>, fd: int)
    requires Legal(Initial(max, producers, workers), run)
    ensures var s := Initial(max, producers, workers);
      var to := Run(s, run);
      && Served(to.workers, fd) + Finished(s, run, fd) == multiset(to.taken)[fd]
      && Offered(to.producers, fd) + multiset(to.accepted)[fd] == Requested(s, run, fd)
      && Requested(s, run, fd)
           == Offered(to.producers, fd) + multiset(to.queue)[fd] + Served(to.workers, fd) + Finished(s, run, fd)
  {
    var s := Initial(max, producers, workers);
    NothingYet(workers, fd);
    NothingYet(producers, fd);
    RunConserves(s, run, fd);
    RunInv(s, run);
    var to := Run(s, run);
    assert to.accepted == to.taken + to.queue;
    assert multiset(to.taken + to.queue)[fd] == multiset(to.taken)[fd] + multiset(to.queue)[fd];
  }

  /** Nobody is left who could take a step other than by a wait ending by itself. */
  predicate Stuck(s: Server) {
    && (forall p | 0 <= p < |s.producers| :: s.producers[p].Blocked?)
    && (forall w | 0 <= w < |s.workers| :: s.workers[w].Asleep?)
  }

  /** One producer, at least one worker and room for at least one request: the threads are never all
      asleep with the producer wanting to go on. */
  lemma NoDeadlock(max: nat, workers: nat, run: seq<Step>)
    requires max >= 1 && workers >= 1 && Legal(Initial(max, 1, workers), run)
    ensures !Stuck(Run(Initial(max, 1, workers), run))
  {
    var s := Initial(max, 1, workers);
    RunInv(s, run);
    var to := Run(s, run);
    if to.producers[0].Blocked? {
      assert to.queue != [];
      var w :| 0 <= w < |to.workers| && !to.workers[w].Asleep?;
      assert !to.workers[w].Asleep?;
    }
  }

  /** Without room no request is ever accepted: the one producer waits for ever. */
  lemma NoRoomNoService(producers: nat, workers: nat, run: seq<Step>)
    requires Legal(Initial(0, producers, workers), run)
    ensures Run(Initial(0, producers, workers), run).accepted == []
  {
    Closed(Initial(0, producers, workers), run);
  }

  lemma {:induction false} Closed(s: Server, run: seq<Step>)
    requires Legal(s, run) && s.max == 0 && s.queue == []
    ensures Run(s, run).accepted == s.accepted
    decreases |run|
  {
    if run != [] {
      Closed(Next(s, run[0]), run[1..]);
    }
  }

  /** Leaving full signals one producer: exactly when a second one waits does one stay asleep over a
      buffer with room. */
  lemma SecondProducer(s: Server, w: nat, woken: nat)
    requires Enabled(s, TakeStep(w, woken)) && |s.queue| == s.max && s.max >= 1
    ensures NoLostRoom(Next(s, TakeStep(w, woken))) <==>
              forall p | 0 <= p < |s.producers| && s.producers[p].Blocked? :: p == woken
  {
    var to := Next(s, TakeStep(w, woken));
    forall p | 0 <= p < |s.producers| && s.producers[p].Blocked? && p != woken ensures to.producers[p].Blocked? {
    }
  }

  /** A run from the state after one step is a run from the state before it. */
  lemma Then(s: Server, a: Step, s': Server, run: seq<Step>, end: Server) returns (longer: seq<Step>)
    requires Enabled(s, a) && Next(s, a) == s' && Legal(s', run) && Run(s', run) == end
    ensures Legal(s, longer) && Run(s, longer) == end
  {
    longer := [a] + run;
    assert longer[1..] == run;
  }

  /** The end of the run below: one producer asleep, and the worker too. */
  function Stranded(): Server {
    Server(2, [], [Idle, Blocked(4)], [Asleep], [1, 2, 3], [1, 2, 3])
  }

  /** The worker takes the last request, and nobody comes to wake the producer. */
  lemma LastTaken() returns (run: seq<Step>)
    ensures var s := Server(2, [3], [Idle, Blocked(4)], [Serving(2)], [1, 2, 3], [1, 2]);
      Legal(s, run) && Run(s, run) == Stranded()
  {
    var s12 := Server(2, [3], [Idle, Blocked(4)], [Serving(2)], [1, 2, 3], [1, 2]);
    var s13 := Server(2, [3], [Idle, Blocked(4)], [Looking], [1, 2, 3], [1, 2]);
    var s14 := Server(2, [], [Idle, Blocked(4)], [Serving(3)], [1, 2, 3], [1, 2, 3]);
    var s15 := Server(2, [], [Idle, Blocked(4)], [Looking], [1, 2, 3], [1, 2, 3]);
    var r15 := Then(s15, TakeStep(0, 1), Stranded(), [], Stranded());
    var r14 := Then(s14, Finish(0), s15, r15, Stranded());
    var r13 := Then(s13, TakeStep(0, 1), s14, r14, Stranded());
    run := Then(s12, Finish(0), s13, r13, Stranded());
  }

  /** With both producers blocked, the worker makes room twice but signals only once. */
  lemma Overtaken() returns (run: seq<Step>)
    ensures var s := Server(2, [1, 2], [Blocked(3), Blocked(4)], [Looking], [1, 2], []);
      Legal(s, run) && Run(s, run) == Stranded()
  {
    var s8 := Server(2, [1, 2], [Blocked(3), Blocked(4)], [Looking], [1, 2], []);
    var s9 := Server(2, [2], [Trying(3), Blocked(4)], [Serving(1)], [1, 2], [1]);
    var s10 := Server(2, [2], [Trying(3), Blocked(4)], [Looking], [1, 2], [1]);
    var s11 := Server(2, [], [Trying(3), Blocked(4)], [Serving(2)], [1, 2], [1, 2]);
    var s12 := Server(2, [3], [Idle, Blocked(4)], [Serving(2)], [1, 2, 3], [1, 2]);
    hide Stranded;
    var r12 := LastTaken();
    var r11 := Then(s11, PutStep(0, 0), s12, r12, Stranded());
    var r10 := Then(s10, TakeStep(0, 1), s11, r11, Stranded());
    var r9 := Then(s9, Finish(0), s10, r10, Stranded());
    run := Then(s8, TakeStep(0, 0), s9, r9, Stranded());
  }

  /** With the buffer full, both producers block. */
  lemma BothBlocked() returns (run: seq<Step>)
    ensures var s := Server(2, [1, 2], [Idle, Idle], [Looking], [1, 2], []);
      Legal(s, run) && Run(s, run) == Stranded()
  {
    var s4 := Server(2, [1, 2], [Idle, Idle], [Looking], [1, 2], []);
    var s5 := Server(2, [1, 2], [Trying(3), Idle], [Looking], [1, 2], []);
    var s6 := Server(2, [1, 2], [Blocked(3), Idle], [Looking], [1, 2], []);
    var s7 := Server(2, [1, 2], [Blocked(3), Trying(4)], [Looking], [1, 2], []);
    var s8 := Server(2, [1, 2], [Blocked(3), Blocked(4)], [Looking], [1, 2], []);
    hide Stranded;
    var r8 := Overtaken();
    var r7 := Then(s7, PutStep(1, 0), s8, r8, Stranded());
    var r6 := Then(s6, Request(1, 4), s7, r7, Stranded());
    var r5 := Then(s5, PutStep(0, 0), s6, r6, Stranded());
    run := Then(s4, Request(0, 3), s5, r5, Stranded());
  }

  /** Two producers, one worker and room for two can end with a producer asleep, its request never
      accepted, over an empty buffer and with nobody else left to wake it. */
  lemma TwoProducers() returns (run: seq<Step>)
    ensures Legal(Initial(2, 2, 1), run)
    ensures Run(Initial(2, 2, 1), run) == Server(2, [], [Idle, Blocked(4)], [Asleep], [1, 2, 3], [1, 2, 3])
  {
    var s0 := Initial(2, 2, 1);
    var s1 := Server(2, [], [Trying(1), Idle], [Looking], [], []);
    var s2 := Server(2, [1], [Idle, Idle], [Looking], [1], []);
    var s3 := Server(2, [1], [Trying(2), Idle], [Looking], [1], []);
    var s4 := Server(2, [1, 2], [Idle, Idle], [Looking], [1, 2], []);
    var r4 := BothBlocked();
    var r3 := Then(s3, PutStep(0, 0), s4, r4, Stranded());
    var r2 := Then(s2, Request(0, 2), s3, r3, Stranded());
    var r1 := Then(s1, PutStep(0, 0), s2, r2, Stranded());
    run := Then(s0, Request(0, 1), s1, r1, Stranded());
  }
}
