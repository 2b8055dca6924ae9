/**
 * server/thread_pool.c and its caller server_run as a state machine. A step is one critical
 * section (the mutex makes it atomic), one spurious wake-up, or the end of one handler call.
 */
module ThreadPools {
  import opened Wrappers
  import opened RingBuffers

  /** `Ready`: about to test the wait condition under the mutex. `Busy`: handling, then closing. */
  datatype Worker = Ready | Waiting | Busy(fd: int) | Exited

  /**
   * The shared ring, the workers, and what server_run is doing with a refused descriptor. The
   * sequences record, in order, the descriptors accepted, taken from the queue, closed by
   * workers, offered, and closed by server_run.
   */
  datatype Pool = Pool(
    ring: Ring,
    workers: seq<Worker>,
    refusing: Option<int>,
    offered: seq<int>,
    accepted: seq<int>,
    taken: seq<int>,
    closed: seq<int>,
    refused: seq<int>)

  datatype Action =
    | Offer(fd: int, woken: nat)
    | CloseRefused
    | Turn(worker: nat)
    | SpuriousWake(worker: nat)
    | Finish(worker: nat)
    | Shutdown

  // ---------------------------------------------------------------- counting workers

  datatype Kind = KReady | KWaiting | KBusy | KExited

  function KindOf(w: Worker): Kind {
    match w
    case Ready => KReady
    case Waiting => KWaiting
    case Busy(_) => KBusy
    case Exited => KExited
  }

  function One(w: Worker, k: Kind): nat { if KindOf(w) == k then 1 else 0 }

  function Count(ws: seq<Worker>, k: Kind): nat {
    if ws == [] then 0 else Count(ws[..|ws| - 1], k) + One(ws[|ws| - 1], k)
  }

  lemma {:induction false} CountUpdate(ws: seq<Worker>, i: nat, w: Worker, k: Kind)
    requires i < |ws|
    ensures Count(ws[i := w], k) == Count(ws, k) - One(ws[i], k) + One(w, k)
  {
    var n := |ws| - 1;
    if i == n {
      assert ws[i := w][..n] == ws[..n];
    } else {
      CountUpdate(ws[..n], i, w, k);
      assert ws[i := w][..n] == ws[..n][i := w];
    }
  }

  lemma {:induction false} CountTotal(ws: seq<Worker>)
    ensures Count(ws, KReady) + Count(ws, KWaiting) + Count(ws, KBusy) + Count(ws, KExited) == |ws|
  {
    if ws != [] {
      CountTotal(ws[..|ws| - 1]);
    }
  }

  lemma {:induction false} CountFinds(ws: seq<Worker>, k: Kind)
    ensures Count(ws, k) > 0 <==> exists i :: 0 <= i < |ws| && KindOf(ws[i]) == k
  {
    if ws != [] {
      var n := |ws| - 1;
      CountFinds(ws[..n], k);
      if Count(ws[..n], k) > 0 {
        var i :| 0 <= i < n && KindOf(ws[..n][i]) == k;
        assert KindOf(ws[i]) == k;
      } else if KindOf(ws[n]) != k {
        assert forall i :: 0 <= i < n ==> ws[..n][i] == ws[i];
      }
    }
  }

  /** Broadcast: every sleeper becomes ready. */
  function WakeAll(ws: seq<Worker>): (r: seq<Worker>)
    ensures |r| == |ws|
    ensures forall i :: 0 <= i < |ws| ==> r[i] == if ws[i].Waiting? then Ready else ws[i]
  {
    seq(|ws|, i requires 0 <= i < |ws| => if ws[i].Waiting? then Ready else ws[i])
  }

  lemma {:induction false} WakeAllCounts(ws: seq<Worker>)
    ensures Count(WakeAll(ws), KWaiting) == 0
    ensures Count(WakeAll(ws), KReady) == Count(ws, KReady) + Count(ws, KWaiting)
    ensures Count(WakeAll(ws), KBusy) == Count(ws, KBusy)
    ensures Count(WakeAll(ws), KExited) == Count(ws, KExited)
  {
    if ws != [] {
      var n := |ws| - 1;
      WakeAllCounts(ws[..n]);
      assert WakeAll(ws)[..n] == WakeAll(ws[..n]);
    }
  }

  lemma {:induction false} WakeAllHeld(ws: seq<Worker>, fd: int)
    ensures Held(WakeAll(ws), fd) == Held(ws, fd)
  {
    if ws != [] {
      var n := |ws| - 1;
      WakeAllHeld(ws[..n], fd);
      assert WakeAll(ws)[..n] == WakeAll(ws[..n]);
      assert ws == ws[..n] + [ws[n]];
      assert WakeAll(ws) == WakeAll(ws)[..n] + [WakeAll(ws)[n]];
    }
  }

  // ---------------------------------------------------------------- steps

  ghost predicate IsOpen(s: Pool, fd: int)
    requires s.ring.Valid()
  {
    fd in s.ring.Queue() || Busy(fd) in s.workers || s.refusing == Some(fd)
  }

  ghost predicate Init(s: Pool, workerCount: nat, queueCapacity: nat) {
    && workerCount > 0 && queueCapacity > 0
    && |s.ring.jobs| == queueCapacity
    && s.ring.head == 0 && s.ring.tail == 0 && s.ring.size == 0 && !s.ring.stopRequested
    && s.workers == seq(workerCount, _ => Ready)
    && s.refusing == None
    && s.offered == [] && s.accepted == [] && s.taken == [] && s.closed == [] && s.refused == []
  }

  /**
   * What may happen next. The operating system offers only descriptors that are not open, and a
   * signal wakes a sleeper if there is one (waking more is a signal and a spurious wake-up).
   */
  ghost predicate Enabled(s: Pool, a: Action)
    requires s.ring.Valid()
  {
    match a
    case Offer(fd, woken) =>
      && s.refusing == None
      && !IsOpen(s, fd)
      && (Count(s.workers, KWaiting) > 0 ==> woken < |s.workers| && s.workers[woken].Waiting?)
    case CloseRefused => s.refusing.Some?
    case Turn(i) => i < |s.workers| && s.workers[i].Ready?
    case SpuriousWake(i) => i < |s.workers| && s.workers[i].Waiting?
    case Finish(i) => i < |s.workers| && s.workers[i].Busy?
    case Shutdown => true
  }

  /** thread_pool_submit, with the signal; a refused descriptor is left to server_run. */
  ghost function AfterOffer(s: Pool, fd: int, woken: nat): Pool
    requires s.ring.Valid() && Enabled(s, Offer(fd, woken))
  {
    if s.ring.Accepts() then
      s.(ring := s.ring.Push(fd),
         workers := if Count(s.workers, KWaiting) > 0 then s.workers[woken := Ready] else s.workers,
         offered := s.offered + [fd],
         accepted := s.accepted + [fd])
    else
      s.(refusing := Some(fd), offered := s.offered + [fd])
  }

  /** One pass of a worker through its critical section: wait, leave, or take a job. */
  ghost function AfterTurn(s: Pool, i: nat): Pool
    requires s.ring.Valid() && Enabled(s, Turn(i))
  {
    if s.ring.size > 0 then
      var fd := s.ring.jobs[s.ring.head];
      s.(ring := s.ring.Pop(), workers := s.workers[i := Busy(fd)], taken := s.taken + [fd])
    else if s.ring.stopRequested then
      s.(workers := s.workers[i := Exited])
    else
      s.(workers := s.workers[i := Waiting])
  }

  ghost function Next(s: Pool, a: Action): Pool
    requires s.ring.Valid() && Enabled(s, a)
  {
    match a
    case Offer(fd, woken) => AfterOffer(s, fd, woken)
    case CloseRefused => s.(refusing := None, refused := s.refused + [s.refusing.value])
    case Turn(i) => AfterTurn(s, i)
    case SpuriousWake(i) => s.(workers := s.workers[i := Ready])
    case Finish(i) => s.(workers := s.workers[i := Ready], closed := s.closed + [s.workers[i].fd])
    case Shutdown => s.(ring := s.ring.(stopRequested := true), workers := WakeAll(s.workers))
  }

  // ---------------------------------------------------------------- invariant

  /** Nobody sleeps through work, and nobody sleeps through the stop request. */
  ghost predicate WakeOk(s: Pool) {
    && (Count(s.workers, KWaiting) > 0 ==> Count(s.workers, KReady) >= s.ring.size)
    && (s.ring.stopRequested ==> Count(s.workers, KWaiting) == 0)
    && (Count(s.workers, KExited) > 0 ==> s.ring.stopRequested && s.ring.size == 0)
  }

  /** Accepted descriptors leave the queue in order; every taken one is with a worker or closed. */
  ghost predicate FifoOk(s: Pool)
    requires s.ring.Valid()
  {
    s.accepted == s.taken + s.ring.Queue() && |s.taken| == |s.closed| + Count(s.workers, KBusy)
  }

  function Refusing(s: Pool, fd: int): nat {
    if s.refusing == Some(fd) then 1 else 0
  }

  function Held(ws: seq<Worker>, fd: int): nat {
    multiset(ws)[Busy(fd)]
  }

  function Times(fds: seq<int>, fd: int): nat {
    multiset(fds)[fd]
  }

  /** How often a descriptor is open right now: queued, with a worker, or being refused. */
  ghost function OpenCount(s: Pool, fd: int): nat
    requires s.ring.Valid()
  {
    Times(s.ring.Queue(), fd) + Held(s.workers, fd) + Refusing(s, fd)
  }

  /** A descriptor is open at most once, and was offered as often as it is open or was closed. */
  ghost predicate FdOk(s: Pool, fd: int)
    requires s.ring.Valid()
  {
    && Times(s.taken, fd) == Times(s.closed, fd) + Held(s.workers, fd)
    && Times(s.offered, fd) == Times(s.accepted, fd) + Times(s.refused, fd) + Refusing(s, fd)
    && OpenCount(s, fd) <= 1
  }

  ghost predicate Inv(s: Pool) {
    && |s.workers| > 0 && s.ring.Valid() && WakeOk(s) && FifoOk(s)
    && forall fd {:trigger FdOk(s, fd)} :: FdOk(s, fd)
  }

  lemma InitInv(s: Pool, workerCount: nat, queueCapacity: nat)
    requires Init(s, workerCount, queueCapacity)
    ensures Inv(s)
  {
    AllReady(s.workers);
    assert s.ring.Queue() == [];
    forall fd
      ensures FdOk(s, fd)
    {
      assert Busy(fd) !in s.workers;
    }
  }

  lemma {:induction false} AllReady(ws: seq<Worker>)
    requires forall i :: 0 <= i < |ws| ==> ws[i] == Ready
    ensures Count(ws, KWaiting) == Count(ws, KBusy) == Count(ws, KExited) == 0
  {
    if ws != [] {
      AllReady(ws[..|ws| - 1]);
    }
  }

  lemma HeldUpdate(ws: seq<Worker>, i: nat, w: Worker, fd: int)
    requires i < |ws|
    ensures Held(ws[i := w], fd) ==
              Held(ws, fd) - (if ws[i] == Busy(fd) then 1 else 0) + (if w == Busy(fd) then 1 else 0)
  {
  }

  lemma TimesAppend(fds: seq<int>, x: int, fd: int)
    ensures Times(fds + [x], fd) == Times(fds, fd) + (if x == fd then 1 else 0)
  {
  }

  lemma NotOpen(s: Pool, fd: int)
    requires s.ring.Valid() && !IsOpen(s, fd)
    ensures OpenCount(s, fd) == 0
  {
  }

  // ---------------------------------------------------------------- each step keeps it

  lemma SubmitShape(s: Pool, fd: int, woken: nat)
    requires s.ring.Valid() && WakeOk(s) && FifoOk(s) && Enabled(s, Offer(fd, woken)) && s.ring.Accepts()
    ensures var s' := AfterOffer(s, fd, woken);
      s'.ring.Valid() && WakeOk(s') && FifoOk(s') && s'.ring.Queue() == s.ring.Queue() + [fd]
  {
    PushAppends(s.ring, fd);
    if Count(s.workers, KWaiting) > 0 {
      forall k
        ensures Count(s.workers[woken := Ready], k) == Count(s.workers, k) - One(Waiting, k) + One(Ready, k)
      {
        CountUpdate(s.workers, woken, Ready, k);
      }
    }
    assert s.accepted + [fd] == s.taken + (s.ring.Queue() + [fd]);
  }

  lemma SubmitInv(s: Pool, fd: int, woken: nat)
    requires Inv(s) && Enabled(s, Offer(fd, woken)) && s.ring.Accepts()
    ensures Inv(AfterOffer(s, fd, woken))
  {
    var s' := AfterOffer(s, fd, woken);
    SubmitShape(s, fd, woken);
    forall x
      ensures FdOk(s', x)
    {
      assert FdOk(s, x);
      NotOpen(s, fd);
      TimesAppend(s.ring.Queue(), fd, x);
      TimesAppend(s.offered, fd, x);
      TimesAppend(s.accepted, fd, x);
      if Count(s.workers, KWaiting) > 0 {
        HeldUpdate(s.workers, woken, Ready, x);
      }
    }
  }

  lemma RefuseInv(s: Pool, fd: int, woken: nat)
    requires Inv(s) && Enabled(s, Offer(fd, woken)) && !s.ring.Accepts()
    ensures Inv(AfterOffer(s, fd, woken))
  {
    var s' := AfterOffer(s, fd, woken);
    forall x
      ensures FdOk(s', x)
    {
      assert FdOk(s, x);
      NotOpen(s, fd);
      TimesAppend(s.offered, fd, x);
    }
  }

  lemma CloseRefusedInv(s: Pool)
    requires Inv(s) && Enabled(s, CloseRefused)
    ensures Inv(Next(s, CloseRefused))
  {
    var s' := Next(s, CloseRefused);
    forall x
      ensures FdOk(s', x)
    {
      assert FdOk(s, x);
      TimesAppend(s.refused, s.refusing.value, x);
    }
  }

  lemma TakeShape(s: Pool, i: nat)
    requires s.ring.Valid() && WakeOk(s) && FifoOk(s) && Enabled(s, Turn(i)) && s.ring.size > 0
    ensures var s' := AfterTurn(s, i);
      && s'.ring.Valid() && WakeOk(s') && FifoOk(s')
      && s.ring.Queue() == [s.ring.jobs[s.ring.head]] + s'.ring.Queue()
  {
    var fd := s.ring.jobs[s.ring.head];
    PopTakesFront(s.ring);
    forall k
      ensures Count(s.workers[i := Busy(fd)], k) == Count(s.workers, k) - One(Ready, k) + One(Busy(fd), k)
    {
      CountUpdate(s.workers, i, Busy(fd), k);
    }
    assert s.ring.Queue() == [fd] + s.ring.Pop().Queue();
    assert s.taken + s.ring.Queue() == (s.taken + [fd]) + s.ring.Pop().Queue();
  }

  lemma TakeInv(s: Pool, i: nat)
    requires Inv(s) && Enabled(s, Turn(i)) && s.ring.size > 0
    ensures Inv(AfterTurn(s, i))
  {
    var s' := AfterTurn(s, i);
    var fd := s.ring.jobs[s.ring.head];
    TakeShape(s, i);
    forall x
      ensures FdOk(s', x)
    {
      assert FdOk(s, x);
      HeldUpdate(s.workers, i, Busy(fd), x);
      TimesAppend(s.taken, fd, x);
      assert multiset(s.ring.Queue()) == multiset{fd} + multiset(s'.ring.Queue());
    }
  }

  lemma RestInv(s: Pool, i: nat)
    requires Inv(s) && Enabled(s, Turn(i)) && s.ring.size == 0
    ensures Inv(AfterTurn(s, i))
  {
    var w := if s.ring.stopRequested then Exited else Waiting;
    var s' := AfterTurn(s, i);
    forall k
      ensures Count(s'.workers, k) == Count(s.workers, k) - One(Ready, k) + One(w, k)
    {
      CountUpdate(s.workers, i, w, k);
    }
    forall x
      ensures FdOk(s', x)
    {
      assert FdOk(s, x);
      HeldUpdate(s.workers, i, w, x);
    }
  }

  lemma FinishInv(s: Pool, i: nat)
    requires Inv(s) && Enabled(s, Finish(i))
    ensures Inv(Next(s, Finish(i)))
  {
    var s' := Next(s, Finish(i));
    forall k
      ensures Count(s'.workers, k) == Count(s.workers, k) - One(s.workers[i], k) + One(Ready, k)
    {
      CountUpdate(s.workers, i, Ready, k);
    }
    forall x
      ensures FdOk(s', x)
    {
      assert FdOk(s, x);
      HeldUpdate(s.workers, i, Ready, x);
      TimesAppend(s.closed, s.workers[i].fd, x);
    }
  }

  lemma SpuriousInv(s: Pool, i: nat)
    requires Inv(s) && Enabled(s, SpuriousWake(i))
    ensures Inv(Next(s, SpuriousWake(i)))
  {
    var s' := Next(s, SpuriousWake(i));
    CountFinds(s.workers, KWaiting);
    forall k
      ensures Count(s'.workers, k) == Count(s.workers, k) - One(Waiting, k) + One(Ready, k)
    {
      CountUpdate(s.workers, i, Ready, k);
    }
    forall x
      ensures FdOk(s', x)
    {
      assert FdOk(s, x);
      HeldUpdate(s.workers, i, Ready, x);
    }
  }

  lemma ShutdownInv(s: Pool)
    requires Inv(s)
    ensures Inv(Next(s, Shutdown))
  {
    var s' := Next(s, Shutdown);
    WakeAllCounts(s.workers);
    assert s'.ring.Queue() == s.ring.Queue();
    forall x
      ensures FdOk(s', x)
    {
      assert FdOk(s, x);
      WakeAllHeld(s.workers, x);
    }
  }

  /** Every step of every thread keeps the invariant. */
  lemma StepInv(s: Pool, a: Action)
    requires Inv(s) && Enabled(s, a)
    ensures Inv(Next(s, a))
  {
    match a
    case Offer(fd, woken) =>
      if s.ring.Accepts() {
        SubmitInv(s, fd, woken);
      } else {
        RefuseInv(s, fd, woken);
      }
    case CloseRefused => CloseRefusedInv(s);
    case Turn(i) =>
      if s.ring.size > 0 {
        TakeInv(s, i);
      } else {
        RestInv(s, i);
      }
    case SpuriousWake(i) => SpuriousInv(s, i);
    case Finish(i) => FinishInv(s, i);
    case Shutdown => ShutdownInv(s);
  }

  // ---------------------------------------------------------------- whole runs

  /** A run: `trace[i + 1]` follows from `trace[i]` by `acts[i]`. */
  ghost predicate IsRun(trace: seq<Pool>, acts: seq<Action>) {
    && |trace| == |acts| + 1
    && forall i :: 0 <= i < |acts| ==>
         trace[i].ring.Valid() && Enabled(trace[i], acts[i]) && trace[i + 1] == Next(trace[i], acts[i])
  }

  /** The invariant holds in every state of every run, and the pool keeps its dimensions. */
  lemma {:induction false} RunInv(trace: seq<Pool>, acts: seq<Action>, i: nat)
    requires IsRun(trace, acts) && Inv(trace[0]) && i < |trace|
    ensures Inv(trace[i])
    ensures |trace[i].workers| == |trace[0].workers| && |trace[i].ring.jobs| == |trace[0].ring.jobs|
  {
    if i > 0 {
      RunInv(trace, acts, i - 1);
      StepInv(trace[i - 1], acts[i - 1]);
    }
  }

  /** From a fresh pool on, every reachable state is safe and respects both bounds. */
  lemma ReachableSafe(trace: seq<Pool>, acts: seq<Action>, workerCount: nat, queueCapacity: nat, i: nat)
    requires IsRun(trace, acts) && Init(trace[0], workerCount, queueCapacity) && i < |trace|
    ensures Inv(trace[i])
    ensures |trace[i].ring.Queue()| <= queueCapacity
    ensures |trace[i].accepted| - |trace[i].closed| <= workerCount + queueCapacity
  {
    InitInv(trace[0], workerCount, queueCapacity);
    RunInv(trace, acts, i);
    OpenBound(trace[i]);
  }

  /** Histories only grow, and nothing is accepted once stop is requested, which is for good. */
  lemma {:induction false} RunHistory(trace: seq<Pool>, acts: seq<Action>, i: nat, j: nat)
    requires IsRun(trace, acts) && i <= j < |trace|
    ensures trace[i].accepted <= trace[j].accepted && trace[i].taken <= trace[j].taken
    ensures trace[i].ring.stopRequested ==>
              trace[j].ring.stopRequested && trace[j].accepted == trace[i].accepted
    decreases j
  {
    if i < j {
      RunHistory(trace, acts, i, j - 1);
      assert trace[j] == Next(trace[j - 1], acts[j - 1]);
    }
  }

  /** First in, first out over the whole run: what was taken is a prefix of what was accepted. */
  lemma RunFifo(trace: seq<Pool>, acts: seq<Action>, i: nat, j: nat)
    requires IsRun(trace, acts) && Inv(trace[0]) && i <= j < |trace|
    ensures trace[i].ring.Valid() && trace[i].accepted == trace[i].taken + trace[i].ring.Queue()
    ensures trace[j].taken <= trace[j].accepted
    ensures |trace[i].accepted| <= |trace[j].taken| ==> trace[i].accepted <= trace[j].taken
  {
    RunInv(trace, acts, i);
    RunInv(trace, acts, j);
    RunHistory(trace, acts, i, j);
    var a, b := trace[i].accepted, trace[j].taken;
    assert b == trace[j].accepted[..|b|];
    if |a| <= |b| {
      assert a == trace[j].accepted[..|a|];
      assert a == b[..|a|];
    }
  }

  // ---------------------------------------------------------------- who is refused

  /**
   * Offering a descriptor in a run from a fresh pool: it is accepted, behind all others, exactly when
   * stop was not requested and there is a place in the queue; otherwise it is left to be closed.
   */
  lemma OfferExactly(trace: seq<Pool>, acts: seq<Action>, workerCount: nat, queueCapacity: nat, i: nat)
    requires IsRun(trace, acts) && Init(trace[0], workerCount, queueCapacity) && i < |acts| && acts[i].Offer?
    ensures trace[i].ring.Valid() && trace[i + 1].ring.Valid()
    ensures var s, s', fd := trace[i], trace[i + 1], acts[i].fd;
      if !s.ring.stopRequested && |s.ring.Queue()| < queueCapacity
      then s'.accepted == s.accepted + [fd] && s'.ring.Queue() == s.ring.Queue() + [fd] && s'.refusing == None
      else s'.accepted == s.accepted && s'.ring == s.ring && s'.refusing == Some(fd)
  {
    InitInv(trace[0], workerCount, queueCapacity);
    RunInv(trace, acts, i);
    RunInv(trace, acts, i + 1);
    if trace[i].ring.size < |trace[i].ring.jobs| {
      PushAppends(trace[i].ring, acts[i].fd);
    }
  }

  /** Step `k` offered the descriptor to a pool that was full or stopped. */
  ghost predicate OfferedInVain(trace: seq<Pool>, acts: seq<Action>, queueCapacity: nat, k: nat, fd: int) {
    && k < |acts| && k < |trace| && acts[k].Offer? && acts[k].fd == fd && trace[k].ring.Valid()
    && (trace[k].ring.stopRequested || |trace[k].ring.Queue()| == queueCapacity)
  }

  /** Only descriptors offered to a full or stopped pool are refused. */
  lemma {:induction false} RefusedInVain(trace: seq<Pool>, acts: seq<Action>, workerCount: nat, queueCapacity: nat, i: nat, fd: int)
    requires IsRun(trace, acts) && Init(trace[0], workerCount, queueCapacity) && i < |trace|
    requires fd in trace[i].refused || trace[i].refusing == Some(fd)
    ensures exists k :: 0 <= k < i && OfferedInVain(trace, acts, queueCapacity, k, fd)
  {
    assert i > 0;
    InitInv(trace[0], workerCount, queueCapacity);
    RunInv(trace, acts, i - 1);
    var s, a := trace[i - 1], acts[i - 1];
    assert trace[i] == Next(s, a);
    if fd in s.refused || s.refusing == Some(fd) {
      RefusedInVain(trace, acts, workerCount, queueCapacity, i - 1, fd);
    } else {
      assert a.Offer? && a.fd == fd;
      assert OfferedInVain(trace, acts, queueCapacity, i - 1, fd);
    }
  }

  // ---------------------------------------------------------------- no lost wake-up

  /**
   * A queued job never meets only sleeping workers: if somebody sleeps, at least as many workers
   * as there are jobs are about to look at the queue; if nobody is ready, somebody is busy. After
   * the stop request nobody sleeps.
   */
  lemma NoLostWakeup(s: Pool)
    requires Inv(s)
    ensures (exists i :: 0 <= i < |s.workers| && s.workers[i].Waiting?) ==> Count(s.workers, KReady) >= s.ring.size
    ensures s.ring.size > 0 ==> exists i :: 0 <= i < |s.workers| && (Enabled(s, Turn(i)) || Enabled(s, Finish(i)))
    ensures s.ring.stopRequested ==> forall i :: 0 <= i < |s.workers| ==> !s.workers[i].Waiting?
  {
    CountFinds(s.workers, KWaiting);
    CountFinds(s.workers, KReady);
    CountFinds(s.workers, KBusy);
    CountTotal(s.workers);
    if exists i :: 0 <= i < |s.workers| && s.workers[i].Waiting? {
      var i :| 0 <= i < |s.workers| && s.workers[i].Waiting?;
      assert KindOf(s.workers[i]) == KWaiting;
    }
    if s.ring.size > 0 {
      AwakeWorker(s);
    }
  }

  lemma AwakeWorker(s: Pool)
    requires |s.workers| > 0 && s.ring.Valid() && Count(s.workers, KWaiting) + Count(s.workers, KExited) < |s.workers|
    ensures exists i :: 0 <= i < |s.workers| && (Enabled(s, Turn(i)) || Enabled(s, Finish(i)))
  {
    CountTotal(s.workers);
    CountFinds(s.workers, KReady);
    CountFinds(s.workers, KBusy);
    if Count(s.workers, KReady) > 0 {
      var i :| 0 <= i < |s.workers| && KindOf(s.workers[i]) == KReady;
      assert Enabled(s, Turn(i));
    } else {
      var i :| 0 <= i < |s.workers| && KindOf(s.workers[i]) == KBusy;
      assert Enabled(s, Finish(i));
    }
  }

  /** Accepted and not yet closed descriptors fit the queue plus one per worker. */
  lemma OpenBound(s: Pool)
    requires Inv(s)
    ensures |s.accepted| - |s.closed| <= |s.ring.jobs| + |s.workers|
  {
    CountTotal(s.workers);
  }

  // ---------------------------------------------------------------- shutdown

  /** What is left to do after the stop request. */
  ghost function Work(s: Pool): nat {
    2 * s.ring.size + 2 * Count(s.workers, KBusy) + Count(s.workers, KReady)
  }

  predicate IsWorkerStep(a: Action) {
    a.Turn? || a.Finish?
  }

  function WorkerSteps(acts: seq<Action>): nat {
    if acts == [] then 0 else WorkerSteps(acts[..|acts| - 1]) + if IsWorkerStep(acts[|acts| - 1]) then 1 else 0
  }

  /** After the stop request every step of a worker shrinks the work, and no other step adds any. */
  lemma StopShrinks(s: Pool, a: Action)
    requires Inv(s) && s.ring.stopRequested && Enabled(s, a)
    ensures Next(s, a).ring.stopRequested && Next(s, a).accepted == s.accepted
    ensures Work(Next(s, a)) + (if IsWorkerStep(a) then 1 else 0) <= Work(s)
  {
    NoLostWakeup(s);
    match a
    case Offer(fd, woken) =>
    case CloseRefused =>
    case Turn(i) =>
      var w := AfterTurn(s, i).workers[i];
      CountUpdate(s.workers, i, w, KBusy);
      CountUpdate(s.workers, i, w, KReady);
    case SpuriousWake(i) =>
    case Finish(i) =>
      CountUpdate(s.workers, i, Ready, KBusy);
      CountUpdate(s.workers, i, Ready, KReady);
    case Shutdown =>
      WakeAllCounts(s.workers);
  }

  /** In any run from a stopped state the workers take at most `Work` steps. */
  lemma {:induction false} StoppedRunIsShort(trace: seq<Pool>, acts: seq<Action>, i: nat)
    requires IsRun(trace, acts) && Inv(trace[0]) && trace[0].ring.stopRequested && i < |trace|
    ensures WorkerSteps(acts[..i]) + Work(trace[i]) <= Work(trace[0])
  {
    if i > 0 {
      StoppedRunIsShort(trace, acts, i - 1);
      RunInv(trace, acts, i - 1);
      RunHistory(trace, acts, 0, i - 1);
      StopShrinks(trace[i - 1], acts[i - 1]);
      assert acts[..i][..i - 1] == acts[..i - 1];
    }
  }

  ghost predicate AllExited(s: Pool) {
    forall i :: 0 <= i < |s.workers| ==> s.workers[i].Exited?
  }

  /** Until all workers have left, one of them can move. */
  lemma StoppedMoves(s: Pool)
    requires Inv(s) && s.ring.stopRequested && !AllExited(s)
    ensures exists i :: 0 <= i < |s.workers| && (Enabled(s, Turn(i)) || Enabled(s, Finish(i)))
  {
    var i :| 0 <= i < |s.workers| && !s.workers[i].Exited?;
    assert KindOf(s.workers[i]) != KExited;
    NotAll(s.workers, i);
    AwakeWorker(s);
  }

  lemma {:induction false} NotAll(ws: seq<Worker>, i: nat)
    requires i < |ws| && KindOf(ws[i]) != KExited
    ensures Count(ws, KExited) < |ws|
  {
    CountTotal(ws);
    CountFinds(ws, KindOf(ws[i]));
  }

  /** When the workers can be joined, the queue is drained and every accepted descriptor was closed once. */
  lemma JoinedMeansDrained(s: Pool)
    requires Inv(s) && AllExited(s)
    ensures s.ring.size == 0 && s.taken == s.accepted && |s.closed| == |s.accepted|
    ensures forall fd :: Times(s.closed, fd) == Times(s.accepted, fd)
    ensures s.refusing == None ==>
              forall fd :: Times(s.offered, fd) == Times(s.closed, fd) + Times(s.refused, fd)
  {
    CountFinds(s.workers, KExited);
    CountFinds(s.workers, KBusy);
    assert KindOf(s.workers[0]) == KExited;
    assert s.ring.Queue() == [];
    forall fd
      ensures Times(s.closed, fd) == Times(s.accepted, fd)
      ensures s.refusing == None ==> Times(s.offered, fd) == Times(s.closed, fd) + Times(s.refused, fd)
    {
      assert FdOk(s, fd);
      assert Busy(fd) !in s.workers;
    }
  }

  /**
   * Guaranteed shutdown: a run from a stopped state that is not finished can be continued by a
   * worker, every run has at most `Work` worker steps, and when no worker can move any more all
   * have exited with every accepted descriptor handled and closed exactly once.
   */
  lemma ShutdownDrains(trace: seq<Pool>, acts: seq<Action>)
    requires IsRun(trace, acts) && Inv(trace[0]) && trace[0].ring.stopRequested
    requires trace[|acts|].ring.Valid() &&
             forall i :: 0 <= i < |trace[|acts|].workers| ==>
               !Enabled(trace[|acts|], Turn(i)) && !Enabled(trace[|acts|], Finish(i))
    ensures WorkerSteps(acts) <= Work(trace[0])
    ensures AllExited(trace[|acts|])
    ensures trace[|acts|].accepted == trace[0].accepted == trace[|acts|].taken
    ensures forall fd :: Times(trace[|acts|].closed, fd) == Times(trace[0].accepted, fd)
  {
    StoppedRunIsShort(trace, acts, |acts|);
    assert acts[..|acts|] == acts;
    RunInv(trace, acts, |acts|);
    RunHistory(trace, acts, 0, |acts|);
    if !AllExited(trace[|acts|]) {
      StoppedMoves(trace[|acts|]);
    }
    JoinedMeansDrained(trace[|acts|]);
  }
}
