/** httplib's `ThreadPool` as a state machine: workers, enqueuing threads and the thread that shuts the
    pool down, sharing one mutex and one condition variable. A step is one action of one thread, so a
    run is an arbitrary interleaving. A wait may also end spuriously. */
module ThreadPool {

  type Job = nat

  /** Where a worker is in its loop. `Locked`, `Holding` and `Leaving` own the mutex. */
  datatype Worker = AtLock | Locked | Blocked | Woken | Holding(job: Job) | Running(job: Job) | Leaving | Exited

  /** A thread inside `enqueue`. All but `Outside` own the mutex. */
  datatype Client = Outside | Entered(job: Job) | Pushed | Notified

  /** The thread that calls `shutdown`; it joins the workers in order. */
  datatype Closer = Before | HasLock | FlagSet | Unlocked | Joining(next: nat)

  datatype Owner = Nobody | ByWorker(i: nat) | ByClient(j: nat) | ByCloser

  datatype Pool = Pool(
    workers: seq<Worker>, clients: seq<Client>, closer: Closer, owner: Owner,
    jobs: seq<Job>, shutdown: bool,
    enqueued: seq<Job>, started: seq<Job>, finished: multiset<Job>)

  datatype Label =
    | WLock(i: nat) | WCheck(i: nat) | WUnlock(i: nat) | WFinish(i: nat) | WSpurious(i: nat)
    | CEnter(j: nat, job: Job) | CPush(j: nat) | CNotifyOne(j: nat, target: nat) | CLeave(j: nat)
    | SLock | SSet | SUnlock | SNotifyAll | SJoin

  predicate SomeBlocked(ws: seq<Worker>) { exists i | 0 <= i < |ws| :: ws[i] == Blocked }

  /** The action is possible here. Nobody enqueues once the shutdown flag is set. */
  predicate Enabled(s: Pool, l: Label) {
    match l
    case WLock(i) => i < |s.workers| && (s.workers[i] == AtLock || s.workers[i] == Woken) && s.owner == Nobody
    case WCheck(i) => i < |s.workers| && s.workers[i] == Locked
    case WUnlock(i) => i < |s.workers| && (s.workers[i].Holding? || s.workers[i] == Leaving)
    case WFinish(i) => i < |s.workers| && s.workers[i].Running?
    case WSpurious(i) => i < |s.workers| && s.workers[i] == Blocked
    case CEnter(j, _) => j < |s.clients| && s.clients[j] == Outside && s.owner == Nobody && !s.shutdown
    case CPush(j) => j < |s.clients| && s.clients[j].Entered?
    case CNotifyOne(j, t) =>
      && j < |s.clients| && s.clients[j] == Pushed
      && (SomeBlocked(s.workers) ==> t < |s.workers| && s.workers[t] == Blocked)
    case CLeave(j) => j < |s.clients| && s.clients[j] == Notified
    case SLock => s.closer == Before && s.owner == Nobody
    case SSet => s.closer == HasLock
    case SUnlock => s.closer == FlagSet
    case SNotifyAll => s.closer == Unlocked
    case SJoin => s.closer.Joining? && s.closer.next < |s.workers| && s.workers[s.closer.next] == Exited
  }

  function At(s: Pool, i: nat, w: Worker): Pool
    requires i < |s.workers|
  {
    s.(workers := s.workers[i := w])
  }

  function WakeAll(ws: seq<Worker>): (r: seq<Worker>)
    ensures |r| == |ws| && forall i | 0 <= i < |ws| :: r[i] == if ws[i] == Blocked then Woken else ws[i]
  {
    seq(|ws|, i requires 0 <= i < |ws| => if ws[i] == Blocked then Woken else ws[i])
  }

  function Step(s: Pool, l: Label): Pool
    requires Enabled(s, l)
  {
    match l
    case WLock(i) => At(s, i, Locked).(owner := ByWorker(i))
    case WCheck(i) =>
      if s.jobs == [] && !s.shutdown then At(s, i, Blocked).(owner := Nobody)
      else if s.jobs == [] then At(s, i, Leaving)
      else At(s, i, Holding(s.jobs[0])).(jobs := s.jobs[1..], started := s.started + [s.jobs[0]])
    case WUnlock(i) =>
      At(s, i, if s.workers[i].Holding? then Running(s.workers[i].job) else Exited).(owner := Nobody)
    case WFinish(i) => At(s, i, AtLock).(finished := s.finished + multiset{s.workers[i].job})
    case WSpurious(i) => At(s, i, Woken)
    case CEnter(j, job) => s.(clients := s.clients[j := Entered(job)], owner := ByClient(j))
    case CPush(j) =>
      var job := s.clients[j].job;
      s.(clients := s.clients[j := Pushed], jobs := s.jobs + [job], enqueued := s.enqueued + [job])
    case CNotifyOne(j, t) =>
      var woken := if SomeBlocked(s.workers) then s.workers[t := Woken] else s.workers;
      s.(clients := s.clients[j := Notified], workers := woken)
    case CLeave(j) => s.(clients := s.clients[j := Outside], owner := Nobody)
    case SLock => s.(closer := HasLock, owner := ByCloser)
    case SSet => s.(closer := FlagSet, shutdown := true)
    case SUnlock => s.(closer := Unlocked, owner := Nobody)
    case SNotifyAll => s.(closer := Joining(0), workers := WakeAll(s.workers))
    case SJoin => s.(closer := Joining(s.closer.next + 1))
  }

  /** `shutdown` has joined every worker. */
  predicate Returned(s: Pool) { s.closer == Joining(|s.workers|) }

  function Initial(n: nat, clients: nat): Pool {
    Pool(seq(n, _ => AtLock), seq(clients, _ => Outside), Before, Nobody, [], false, [], [], multiset{})
  }

  predicate IsRun(s: Pool, ls: seq<Label>)
    decreases |ls|
  {
    ls == [] || (Enabled(s, ls[0]) && IsRun(Step(s, ls[0]), ls[1..]))
  }

  function Run(s: Pool, ls: seq<Label>): Pool
    requires IsRun(s, ls)
    decreases |ls|
  {
    if ls == [] then s else Run(Step(s, ls[0]), ls[1..])
  }

  // ----- invariants -----

  predicate WorkerOwns(w: Worker) { w == Locked || w.Holding? || w == Leaving }

  /** Exactly the owner is in a critical section. */
  predicate Mutex(s: Pool) {
    && (forall i | 0 <= i < |s.workers| :: WorkerOwns(s.workers[i]) <==> s.owner == ByWorker(i))
    && (forall j | 0 <= j < |s.clients| :: s.clients[j] != Outside <==> s.owner == ByClient(j))
    && ((s.closer == HasLock || s.closer == FlagSet) <==> s.owner == ByCloser)
    && (s.owner.ByWorker? ==> s.owner.i < |s.workers|) && (s.owner.ByClient? ==> s.owner.j < |s.clients|)
  }

  predicate Executes(w: Worker, job: Job) { (w.Holding? || w.Running?) && w.job == job }

  /** How many workers are executing `job`. */
  function Active(ws: seq<Worker>, job: Job): nat {
    if ws == [] then 0 else Active(ws[..|ws| - 1], job) + if Executes(ws[|ws| - 1], job) then 1 else 0
  }

  /** Every job enqueued is queued, or was started, once and in order; every one started is being
      executed or finished. */
  ghost predicate JobsKept(s: Pool) {
    && s.enqueued == s.started + s.jobs
    && forall job: Job :: AccountedFor(s, job)
  }

  predicate Awake(w: Worker) { w != Blocked && w != Exited }

  /** A thread inside `enqueue` has pushed its job and not notified yet. */
  predicate NotifyDue(s: Pool) { exists j | 0 <= j < |s.clients| :: s.clients[j] == Pushed }

  /** About to look into the queue. */
  predicate Heading(w: Worker) { w == AtLock || w == Locked || w == Woken }

  /** How many workers are on the way to a job. */
  function OnTheWay(ws: seq<Worker>): nat {
    if ws == [] then 0 else OnTheWay(ws[..|ws| - 1]) + if Heading(ws[|ws| - 1]) then 1 else 0
  }

  /** No wakeup is lost: while some worker is blocked, as many workers are on the way to a job as there are jobs
      queued, not counting the job for which the notification is due. */
  predicate NoLostWakeup(s: Pool) {
    SomeBlocked(s.workers) ==> |s.jobs| <= OnTheWay(s.workers) + if NotifyDue(s) then 1 else 0
  }

  predicate ShutdownOrder(s: Pool) {
    && (s.shutdown <==> s.closer != Before && s.closer != HasLock)
    && (forall i | 0 <= i < |s.workers| :: s.workers[i] == Leaving || s.workers[i] == Exited ==>
        s.shutdown && s.jobs == [])
    && (forall j | 0 <= j < |s.clients| :: s.clients[j] != Outside ==> !s.shutdown)
    && (s.closer.Joining? ==>
          && s.closer.next <= |s.workers|
          && (forall i | 0 <= i < |s.workers| :: s.workers[i] != Blocked)
          && (forall i | 0 <= i < s.closer.next :: s.workers[i] == Exited))
  }

  ghost predicate Inv(s: Pool) { s.workers != [] && Mutex(s) && JobsKept(s) && NoLostWakeup(s) && ShutdownOrder(s) }

  lemma {:induction false} ActiveAfter(ws: seq<Worker>, i: nat, w: Worker, job: Job)
    requires i < |ws|
    ensures Active(ws[i := w], job) + (if Executes(ws[i], job) then 1 else 0) ==
            Active(ws, job) + if Executes(w, job) then 1 else 0
    decreases |ws|
  {
    var n := |ws| - 1;
    if i == n {
      assert ws[i := w][..n] == ws[..n];
    } else {
      assert ws[i := w][..n] == ws[..n][i := w];
      ActiveAfter(ws[..n], i, w, job);
    }
  }

  lemma {:induction false} ActiveSame(ws: seq<Worker>, ws': seq<Worker>, job: Job)
    requires |ws| == |ws'| && forall i | 0 <= i < |ws| :: Executes(ws[i], job) == Executes(ws'[i], job)
    ensures Active(ws, job) == Active(ws', job)
  {
    if ws != [] {
      ActiveSame(ws[..|ws| - 1], ws'[..|ws| - 1], job);
    }
  }

  lemma {:induction false} NoneActive(ws: seq<Worker>, job: Job)
    requires forall i | 0 <= i < |ws| :: !Executes(ws[i], job)
    ensures Active(ws, job) == 0
  {
    if ws != [] {
      NoneActive(ws[..|ws| - 1], job);
    }
  }

  lemma {:induction false} InitialInv(n: nat, clients: nat)
    requires n > 0
    ensures Inv(Initial(n, clients))
  {
    forall job: Job ensures Active(Initial(n, clients).workers, job) == 0 {
      NoneActive(Initial(n, clients).workers, job);
    }
  }

  lemma {:induction false} MutexKept(s: Pool, l: Label)
    requires Mutex(s) && Enabled(s, l)
    ensures Mutex(Step(s, l))
  {
  }

  lemma {:induction false} QueueKept(s: Pool, l: Label)
    requires JobsKept(s) && Enabled(s, l)
    ensures Step(s, l).enqueued == Step(s, l).started + Step(s, l).jobs
  {
    if l.WCheck? && s.jobs != [] {
      JobStarted(s.started, s.jobs);
    } else if l.CPush? {
      assert s.enqueued + [s.clients[l.j].job] == s.started + (s.jobs + [s.clients[l.j].job]);
    }
  }

  ghost predicate AccountedFor(s: Pool, job: Job) {
    multiset(s.started)[job] == Active(s.workers, job) + s.finished[job]
  }

  lemma {:induction false} CheckKeeps(s: Pool, i: nat, job: Job)
    requires Enabled(s, WCheck(i)) && AccountedFor(s, job)
    ensures AccountedFor(Step(s, WCheck(i)), job)
  {
    if s.jobs != [] {
      JobStarted(s.started, s.jobs);
    }
    ActiveAfter(s.workers, i, Step(s, WCheck(i)).workers[i], job);
  }

  /** Each start of `job` is still being executed, or finished. */
  lemma {:induction false} StartedKept(s: Pool, l: Label, job: Job)
    requires Enabled(s, l) && AccountedFor(s, job)
    ensures AccountedFor(Step(s, l), job)
  {
    var s' := Step(s, l);
    if l.WCheck? {
      CheckKeeps(s, l.i, job);
    } else if l.WFinish? || l.WUnlock? {
      ActiveAfter(s.workers, l.i, s'.workers[l.i], job);
    } else {
      ActiveSame(s.workers, s'.workers, job);
    }
  }

  lemma {:induction false} JobsStayKept(s: Pool, l: Label)
    requires JobsKept(s) && Enabled(s, l)
    ensures JobsKept(Step(s, l))
  {
    QueueKept(s, l);
    var s' := Step(s, l);
    forall job: Job ensures AccountedFor(s', job) {
      StartedKept(s, l, job);
    }
  }

  lemma {:induction false} JobStarted(started: seq<Job>, jobs: seq<Job>)
    requires jobs != []
    ensures started + jobs == (started + [jobs[0]]) + jobs[1..]
    ensures multiset(started + [jobs[0]]) == multiset(started) + multiset{jobs[0]}
  {
  }

  lemma {:induction false} OnTheWayAfter(ws: seq<Worker>, i: nat, w: Worker)
    requires i < |ws|
    ensures OnTheWay(ws[i := w]) + (if Heading(ws[i]) then 1 else 0) == OnTheWay(ws) + if Heading(w) then 1 else 0
    decreases |ws|
  {
    var n := |ws| - 1;
    if i == n {
      assert ws[i := w][..n] == ws[..n];
    } else {
      assert ws[i := w][..n] == ws[..n][i := w];
      OnTheWayAfter(ws[..n], i, w);
    }
  }

  lemma {:induction false} BlockedBefore(ws: seq<Worker>, i: nat, w: Worker)
    requires i < |ws| && w != Blocked && SomeBlocked(ws[i := w])
    ensures SomeBlocked(ws)
  {
    var k :| 0 <= k < |ws[i := w]| && ws[i := w][k] == Blocked;
    assert ws[k] == Blocked;
  }

  lemma {:induction false} SameDue(s: Pool, j: nat, c: Client)
    requires j < |s.clients| && s.clients[j] != Pushed && c != Pushed
    ensures NotifyDue(s.(clients := s.clients[j := c])) <==> NotifyDue(s)
  {
    var s' := s.(clients := s.clients[j := c]);
    assert forall k | 0 <= k < |s.clients| :: s.clients[k] == Pushed <==> s'.clients[k] == Pushed;
  }

  lemma {:induction false} WorkerLosesNoWakeup(s: Pool, l: Label)
    requires NoLostWakeup(s) && Enabled(s, l) && OfWorker(l)
    ensures NoLostWakeup(Step(s, l))
  {
    var w := Step(s, l).workers[l.i];
    OnTheWayAfter(s.workers, l.i, w);
    if w != Blocked && SomeBlocked(Step(s, l).workers) {
      BlockedBefore(s.workers, l.i, w);
    }
  }

  lemma {:induction false} ClientLosesNoWakeup(s: Pool, l: Label)
    requires Mutex(s) && NoLostWakeup(s) && Enabled(s, l) && OfClient(l)
    ensures NoLostWakeup(Step(s, l))
  {
    match l
    case CPush(j) =>
      assert Step(s, l).clients[j] == Pushed;
    case CNotifyOne(j, t) =>
      if SomeBlocked(s.workers) {
        OnTheWayAfter(s.workers, t, Woken);
      }
    case CEnter(j, job) => SameDue(s, j, Entered(job));
    case CLeave(j) => SameDue(s, j, Outside);
  }

  lemma {:induction false} NoWakeupLost(s: Pool, l: Label)
    requires Mutex(s) && NoLostWakeup(s) && Enabled(s, l)
    ensures NoLostWakeup(Step(s, l))
  {
    if OfWorker(l) {
      WorkerLosesNoWakeup(s, l);
    } else if OfClient(l) {
      ClientLosesNoWakeup(s, l);
    }
  }

  predicate OfWorker(l: Label) { l.WLock? || l.WCheck? || l.WUnlock? || l.WFinish? || l.WSpurious? }

  predicate OfClient(l: Label) { l.CEnter? || l.CPush? || l.CNotifyOne? || l.CLeave? }

  lemma {:induction false} WorkersKeepOrder(s: Pool, l: Label)
    requires Mutex(s) && ShutdownOrder(s) && Enabled(s, l) && OfWorker(l)
    ensures ShutdownOrder(Step(s, l))
  {
  }

  lemma {:induction false} ClientsKeepOrder(s: Pool, l: Label)
    requires Mutex(s) && ShutdownOrder(s) && Enabled(s, l) && OfClient(l)
    ensures ShutdownOrder(Step(s, l))
  {
  }

  lemma {:induction false} CloserKeepsOrder(s: Pool, l: Label)
    requires Mutex(s) && ShutdownOrder(s) && Enabled(s, l) && !OfWorker(l) && !OfClient(l)
    ensures ShutdownOrder(Step(s, l))
  {
  }

  lemma {:induction false} StepKeeps(s: Pool, l: Label)
    requires Inv(s) && Enabled(s, l)
    ensures Inv(Step(s, l))
  {
    MutexKept(s, l);
    JobsStayKept(s, l);
    NoWakeupLost(s, l);
    if OfWorker(l) {
      WorkersKeepOrder(s, l);
    } else if OfClient(l) {
      ClientsKeepOrder(s, l);
    } else {
      CloserKeepsOrder(s, l);
    }
  }

  lemma {:induction false} RunKeeps(s: Pool, ls: seq<Label>)
    requires Inv(s) && IsRun(s, ls)
    ensures Inv(Run(s, ls)) && |Run(s, ls).workers| == |s.workers|
    decreases |ls|
  {
    if ls != [] {
      StepKeeps(s, ls[0]);
      RunKeeps(Step(s, ls[0]), ls[1..]);
    }
  }

  lemma {:induction false} NobodyHeading(ws: seq<Worker>)
    requires forall i | 0 <= i < |ws| :: !Awake(ws[i])
    ensures OnTheWay(ws) == 0
  {
    if ws != [] {
      assert forall i | 0 <= i < |ws| - 1 :: ws[..|ws| - 1][i] == ws[i];
      NobodyHeading(ws[..|ws| - 1]);
    }
  }

  lemma {:induction false} SomeoneServes(s: Pool)
    requires Inv(s) && s.jobs != [] && !NotifyDue(s)
    ensures exists i | 0 <= i < |s.workers| :: Awake(s.workers[i])
  {
    if s.workers[0] == Blocked && forall i | 0 <= i < |s.workers| :: !Awake(s.workers[i]) {
      NobodyHeading(s.workers);
      assert SomeBlocked(s.workers);
      assert false;
    }
    assert s.workers[0] != Exited;
    assert s.workers[0] != Blocked ==> Awake(s.workers[0]);
  }

  /** In every interleaving with at least one worker: jobs start once and in the order they were enqueued, and none is
      lost; while some worker is blocked in the wait, as many others are on the way to a job as there are jobs queued,
      but for the one whose notification is due; and while jobs are queued and no notification is due some worker is
      not blocked. */
  lemma {:induction false} EveryInterleaving(n: nat, clients: nat, ls: seq<Label>)
    requires n > 0 && IsRun(Initial(n, clients), ls)
    ensures var s := Run(Initial(n, clients), ls);
            && s.enqueued == s.started + s.jobs
            && (forall job: Job ::
                  multiset(s.enqueued)[job] == multiset(s.jobs)[job] + Active(s.workers, job) + s.finished[job])
            && NoLostWakeup(s)
            && (s.jobs != [] && !NotifyDue(s) ==> exists i | 0 <= i < |s.workers| :: Awake(s.workers[i]))
  {
    InitialInv(n, clients);
    RunKeeps(Initial(n, clients), ls);
    var s := Run(Initial(n, clients), ls);
    assert forall job: Job :: AccountedFor(s, job) ==>
      multiset(s.started)[job] == Active(s.workers, job) + s.finished[job];
    if s.jobs != [] && !NotifyDue(s) {
      SomeoneServes(s);
    }
  }

  /** When `shutdown` returns, the queue is empty and every job enqueued has run. */
  lemma {:induction false} ShutdownDrains(n: nat, clients: nat, ls: seq<Label>)
    requires n > 0 && IsRun(Initial(n, clients), ls) && Returned(Run(Initial(n, clients), ls))
    ensures var s := Run(Initial(n, clients), ls);
            s.jobs == [] && s.started == s.enqueued && multiset(s.enqueued) == s.finished
  {
    InitialInv(n, clients);
    RunKeeps(Initial(n, clients), ls);
    var s := Run(Initial(n, clients), ls);
    assert s.workers[0] == Exited;
    assert s.started + [] == s.started;
    forall job: Job ensures multiset(s.enqueued)[job] == s.finished[job] {
      NoneActive(s.workers, job);
      assert AccountedFor(s, job);
    }
  }

  // ----- shutting down ends -----

  function Rank(w: Worker): nat {
    match w
    case Holding(_) => 5
    case Running(_) => 4
    case Blocked => 4
    case Woken => 3
    case AtLock => 3
    case Locked => 2
    case Leaving => 1
    case Exited => 0
  }

  function Ranks(ws: seq<Worker>): nat {
    if ws == [] then 0 else Ranks(ws[..|ws| - 1]) + Rank(ws[|ws| - 1])
  }

  function CloserRank(c: Closer, n: nat): nat {
    match c
    case Before => n + 5
    case HasLock => n + 4
    case FlagSet => n + 3
    case Unlocked => n + 2
    case Joining(k) => if k <= n then n + 1 - k else 0
  }

  /** The work left once the flag is set. */
  function Measure(s: Pool): nat {
    5 * |s.jobs| + Ranks(s.workers) + CloserRank(s.closer, |s.workers|)
  }

  lemma {:induction false} RanksAfter(ws: seq<Worker>, i: nat, w: Worker)
    requires i < |ws|
    ensures Ranks(ws[i := w]) == Ranks(ws) - Rank(ws[i]) + Rank(w)
    decreases |ws|
  {
    var n := |ws| - 1;
    if i == n {
      assert ws[i := w][..n] == ws[..n];
    } else {
      assert ws[i := w][..n] == ws[..n][i := w];
      RanksAfter(ws[..n], i, w);
    }
  }

  lemma {:induction false} WakingLowers(ws: seq<Worker>)
    ensures Ranks(WakeAll(ws)) <= Ranks(ws)
  {
    if ws != [] {
      WakingLowers(ws[..|ws| - 1]);
      assert WakeAll(ws)[..|ws| - 1] == WakeAll(ws[..|ws| - 1]);
    }
  }

  lemma {:induction false} WorkerStepLowers(s: Pool, l: Label)
    requires ShutdownOrder(s) && s.shutdown && Enabled(s, l) && OfWorker(l)
    ensures Measure(Step(s, l)) < Measure(s)
  {
    RanksAfter(s.workers, l.i, Step(s, l).workers[l.i]);
  }

  /** Once the flag is set every step, spurious wakeups included, brings `shutdown` closer to its end. */
  lemma {:induction false} StepLowers(s: Pool, l: Label)
    requires Inv(s) && s.shutdown && Enabled(s, l)
    ensures Step(s, l).shutdown && Measure(Step(s, l)) < Measure(s)
  {
    if OfWorker(l) {
      WorkerStepLowers(s, l);
    } else {
      WakingLowers(s.workers);
    }
  }

  /** Until it has returned, some step is possible: the shutdown never deadlocks. */
  lemma {:induction false} NeverStuck(s: Pool) returns (l: Label)
    requires Inv(s) && s.shutdown && !Returned(s)
    ensures Enabled(s, l)
  {
    if s.owner.ByWorker? {
      var i := s.owner.i;
      l := if s.workers[i] == Locked then WCheck(i) else WUnlock(i);
    } else if s.owner == ByCloser {
      l := SUnlock;
    } else if s.closer == Unlocked {
      l := SNotifyAll;
    } else {
      var i := s.closer.next;
      assert !s.owner.ByClient? && !WorkerOwns(s.workers[i]);
      l := match s.workers[i]
        case Exited => SJoin
        case Running(_) => WFinish(i)
        case _ => WLock(i);
    }
  }

  /** Every run that goes on from the moment the flag is set has at most `Measure` steps, and it can
      only stop when `shutdown` has returned. */
  lemma {:induction false} ShutdownEnds(s: Pool, ls: seq<Label>)
    requires Inv(s) && s.shutdown && IsRun(s, ls)
    ensures |ls| <= Measure(s)
    ensures Returned(Run(s, ls)) || exists l :: Enabled(Run(s, ls), l)
    decreases |ls|
  {
    if ls == [] {
      if !Returned(s) {
        var l := NeverStuck(s);
      }
    } else {
      StepLowers(s, ls[0]);
      StepKeeps(s, ls[0]);
      ShutdownEnds(Step(s, ls[0]), ls[1..]);
    }
  }

  /** A pool without workers is the one whose `shutdown` returns with the jobs still queued. */
  lemma {:induction false} NoWorkersNoService(s: Pool)
    requires s.workers == [] && s.closer == Before && s.owner == Nobody
    ensures var ls := [SLock, SSet, SUnlock, SNotifyAll];
            IsRun(s, ls) && Returned(Run(s, ls)) && Run(s, ls).jobs == s.jobs
  {
    var s1 := Step(s, SLock);
    var s2 := Step(s1, SSet);
    var s3 := Step(s2, SUnlock);
    RunSplit(s3, SNotifyAll, []);
    RunSplit(s2, SUnlock, [SNotifyAll]);
    RunSplit(s1, SSet, [SUnlock, SNotifyAll]);
    RunSplit(s, SLock, [SSet, SUnlock, SNotifyAll]);
  }

  lemma {:induction false} RunSplit(s: Pool, l: Label, ls: seq<Label>)
    requires Enabled(s, l) && IsRun(Step(s, l), ls)
    ensures IsRun(s, [l] + ls) && Run(s, [l] + ls) == Run(Step(s, l), ls)
  {
    assert ([l] + ls)[1..] == ls;
  }
}
