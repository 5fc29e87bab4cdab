/**
 The thread pool protocol as a transition system: one main thread that adds work and finally
 destroys the pool, and any number of workers. Memory is sequentially consistent; each
 transition is one access to shared state or one synchronisation call.
 */
module ThreadPool {

  import opened Options

  // ----- States -----

  /** Jobs are numbered in the order they are added. */
  type Job = nat

  /** Where a worker stands in threadpool_thread_run. */
  datatype Worker =
    | AtLoop                       // before the test of the loop
    | AtWait                       // in sem_wait
    | AtCheck                      // woken, before the second test
    | AtLock                       // in pthread_mutex_lock
    | InSection                    // owns the mutex, before the removal
    | Unlocking(got: Option<Job>)  // owns the mutex, after the removal
    | Running(job: Job)
    | Exited

  /** Where the main thread stands: between calls, in threadpool_add_work, or in threadpool_destroy. */
  datatype Main =
    | Idle
    | AddLock | AddInsert | AddPost | AddUnlock
    | Posting(posted: nat)
    | Joining(joined: nat)
    | Sweeping
    | Finished

  datatype Owner = Free | OwnedByMain | OwnedBy(worker: nat)

  datatype State = State(
    workers: seq<Worker>,
    main: Main,
    keepalive: bool,
    sem: nat,
    owner: Owner,
    queue: seq<Job>,
    added: nat,             // how many jobs have been added
    taken: seq<Job>,        // the jobs dequeued so far, in order
    done: set<Job>,         // the jobs that have returned
    freed: seq<Job>         // the jobs freed without being run
  )

  // ----- Transitions -----

  /** threadpool_init: a non-positive thread number counts as one. */
  function Init(threadNum: int): State {
    var n := if threadNum <= 0 then 1 else threadNum;
    State(seq(n, _ => AtLoop), Idle, true, 0, Free, [], 0, [], {}, [])
  }

  /** The next step of worker i; None while it is blocked or gone. */
  function WorkerStep(s: State, i: nat): Option<State>
    requires i < |s.workers|
  {
    match s.workers[i]
    case AtLoop => Some(s.(workers := s.workers[i := if s.keepalive then AtWait else Exited]))
    case AtWait => if s.sem > 0 then Some(s.(workers := s.workers[i := AtCheck], sem := s.sem - 1)) else None
    case AtCheck => Some(s.(workers := s.workers[i := if s.keepalive then AtLock else AtLoop]))
    case AtLock => if s.owner == Free then Some(s.(workers := s.workers[i := InSection], owner := OwnedBy(i))) else None
    case InSection =>
      if s.queue == [] then Some(s.(workers := s.workers[i := Unlocking(None)]))
      else
        Some(s.(workers := s.workers[i := Unlocking(Some(s.queue[0]))],
                queue := s.queue[1..], taken := s.taken + [s.queue[0]]))
    case Unlocking(got) =>
      Some(s.(workers := s.workers[i := if got.Some? then Running(got.value) else AtLoop], owner := Free))
    case Running(job) => Some(s.(workers := s.workers[i := AtLoop], done := s.done + {job}))
    case Exited => None
  }

  /** What the main thread does next when it is idle. */
  datatype Choice = DoAdd | DoDestroy

  /** The next step of the main thread; None while it is blocked or finished. */
  function MainStep(s: State, choice: Choice): Option<State> {
    match s.main
    case Idle => if choice == DoAdd then Some(s.(main := AddLock)) else Some(s.(main := Posting(0), keepalive := false))
    case AddLock => if s.owner == Free then Some(s.(main := AddInsert, owner := OwnedByMain)) else None
    case AddInsert => Some(s.(main := AddPost, queue := s.queue + [s.added], added := s.added + 1))
    case AddPost => Some(s.(main := AddUnlock, sem := s.sem + 1))
    case AddUnlock => Some(s.(main := Idle, owner := Free))
    case Posting(k) =>
      if k < |s.workers| then Some(s.(main := Posting(k + 1), sem := s.sem + 1)) else Some(s.(main := Joining(0)))
    case Joining(k) =>
      if k < |s.workers| then (if s.workers[k] == Exited then Some(s.(main := Joining(k + 1))) else None)
      else Some(s.(main := Sweeping))
    case Sweeping =>
      if s.queue == [] then Some(s.(main := Finished))
      else Some(s.(queue := s.queue[1..], freed := s.freed + [s.queue[0]]))
    case Finished => None
  }

  ghost predicate Next(s: State, s': State) {
    (exists i: nat :: i < |s.workers| && WorkerStep(s, i) == Some(s')) || (exists c :: MainStep(s, c) == Some(s'))
  }

  /** A finite run of the pool from its creation. */
  ghost predicate Run(threadNum: int, run: seq<State>) {
    run != [] && run[0] == Init(threadNum) && forall k :: 0 <= k < |run| - 1 ==> Next(run[k], run[k + 1])
  }

  ghost predicate Reachable(s: State) {
    exists threadNum, run :: Run(threadNum, run) && run[|run| - 1] == s
  }

  // ----- Counting workers -----

  /** The sum of a weight over all workers. */
  function Total(ws: seq<Worker>, weight: Worker -> nat): nat {
    if ws == [] then 0 else Total(ws[..|ws| - 1], weight) + weight(ws[|ws| - 1])
  }

  lemma {:induction false} TotalUpdate(ws: seq<Worker>, i: nat, w: Worker, weight: Worker -> nat)
    requires i < |ws|
    ensures Total(ws[i := w], weight) + weight(ws[i]) == Total(ws, weight) + weight(w)
    decreases |ws|
  {
    var n := |ws| - 1;
    assert ws[i := w][..n] == if i < n then ws[..n][i := w] else ws[..n];
    if i < n {
      TotalUpdate(ws[..n], i, w, weight);
    }
  }

  lemma {:induction false} TotalAtLeast(ws: seq<Worker>, i: nat, weight: Worker -> nat)
    requires i < |ws|
    ensures Total(ws, weight) >= weight(ws[i])
    decreases |ws|
  {
    if i < |ws| - 1 {
      TotalAtLeast(ws[..|ws| - 1], i, weight);
    }
  }

  lemma {:induction false} TotalOrdered(ws: seq<Worker>, low: Worker -> nat, high: Worker -> nat)
    requires forall w :: low(w) <= high(w)
    ensures Total(ws, low) <= Total(ws, high)
  {
    if ws != [] {
      TotalOrdered(ws[..|ws| - 1], low, high);
    }
  }

  lemma {:induction false} TotalBound(ws: seq<Worker>, weight: Worker -> nat)
    requires forall w :: weight(w) <= 1
    ensures Total(ws, weight) <= |ws|
  {
    if ws != [] {
      TotalBound(ws[..|ws| - 1], weight);
    }
  }

  lemma {:induction false} TotalZero(ws: seq<Worker>, weight: Worker -> nat)
    requires forall i :: 0 <= i < |ws| ==> weight(ws[i]) == 0
    ensures Total(ws, weight) == 0
  {
    if ws != [] {
      TotalZero(ws[..|ws| - 1], weight);
    }
  }

  /** One for a worker past sem_wait but without a job yet. */
  function Woken(): Worker -> nat {
    (w: Worker) => if w.AtCheck? || w.AtLock? || w.InSection? then 1 else 0
  }

  /** One for a worker past the second test but without a job yet. */
  function Committed(): Worker -> nat {
    (w: Worker) => if w.AtLock? || w.InSection? then 1 else 0
  }

  /** One for a worker in sem_wait. */
  function Waiting(): Worker -> nat {
    (w: Worker) => if w.AtWait? then 1 else 0
  }

  /** One for a worker that has dequeued the job and not returned from it. */
  function Holding(job: Job): Worker -> nat {
    (w: Worker) => if w == Unlocking(Some(job)) || w == Running(job) then 1 else 0
  }

  // ----- The invariant -----

  /** The first n jobs in order. */
  function Upto(n: nat): seq<Job> {
    seq(n, i => i)
  }

  ghost predicate MutexOk(s: State) {
    && (s.owner.OwnedBy? ==> s.owner.worker < |s.workers|)
    && (s.owner == OwnedByMain <==> s.main.AddInsert? || s.main.AddPost? || s.main.AddUnlock?)
    && forall i :: 0 <= i < |s.workers| ==>
         (s.owner == OwnedBy(i) <==> s.workers[i].InSection? || s.workers[i].Unlocking?)
  }

  ghost predicate FlagOk(s: State) {
    s.keepalive <==> s.main.Idle? || s.main.AddLock? || s.main.AddInsert? || s.main.AddPost? || s.main.AddUnlock?
  }

  /** Every job is queued, dequeued or freed, and jobs leave in the order they came. */
  ghost predicate OrderOk(s: State) {
    s.taken + s.freed + s.queue == Upto(s.added) && (s.freed != [] ==> s.main.Sweeping? || s.main.Finished?)
  }

  /** A dequeued job is held by exactly one worker or has returned, and no other job is. */
  ghost predicate HeldOk(s: State) {
    forall j: Job :: JobHeld(s, j)
  }

  ghost predicate JobHeld(s: State, j: Job) {
    Total(s.workers, Holding(j)) + (if j in s.done then 1 else 0) == if j in s.taken then 1 else 0
  }

  /** Semaphore, queue and workers agree. */
  ghost predicate TokensOk(s: State) {
    if s.keepalive then
      |s.queue| == s.sem + Total(s.workers, Woken()) + if s.main.AddPost? then 1 else 0
    else
      && (s.main.Posting? || s.main.Joining? ==> Total(s.workers, Committed()) <= |s.queue|)
      && Total(s.workers, Waiting()) <= s.sem + if s.main.Posting? then |s.workers| - s.main.posted else 0
  }

  ghost predicate JoinOk(s: State) {
    && (s.main.Posting? ==> s.main.posted <= |s.workers|)
    && (s.main.Joining? ==>
          s.main.joined <= |s.workers| && forall i :: 0 <= i < s.main.joined ==> s.workers[i] == Exited)
    && (s.main.Sweeping? || s.main.Finished? ==> forall i :: 0 <= i < |s.workers| ==> s.workers[i] == Exited)
    && (s.main.Finished? ==> s.queue == [])
  }

  /** No worker leaves before the flag is cleared. */
  ghost predicate AliveOk(s: State) {
    s.keepalive ==> forall i :: 0 <= i < |s.workers| ==> s.workers[i] != Exited
  }

  ghost predicate Inv(s: State) {
    && |s.workers| > 0 && AliveOk(s) && MutexOk(s) && FlagOk(s) && OrderOk(s) && HeldOk(s) && TokensOk(s) && JoinOk(s)
    && forall i :: 0 <= i < |s.workers| ==> s.workers[i] != Unlocking(None)
  }

  // ----- Steps keep the invariant -----

  lemma InitInv(threadNum: int)
    ensures Inv(Init(threadNum))
  {
    var ws := Init(threadNum).workers;
    TotalZero(ws, Woken());
    forall j: Job ensures Total(ws, Holding(j)) == 0 {
      TotalZero(ws, Holding(j));
    }
  }

  lemma UptoSplit(a: seq<Job>, b: seq<Job>, c: seq<Job>, n: nat, j: Job)
    requires a + b + c == Upto(n)
    ensures (if j in a then 1 else 0) + (if j in b then 1 else 0) + (if j in c then 1 else 0) == if j < n then 1 else 0
    ensures |a| <= n && a == Upto(|a|)
    ensures c != [] ==> c[0] == |a| + |b|
  {
    var s := a + b + c;
    assert forall k :: 0 <= k < |a| ==> a[k] == s[k] == k;
    assert forall k :: 0 <= k < |b| ==> b[k] == s[|a| + k] == |a| + k;
    assert forall k :: 0 <= k < |c| ==> c[k] == s[|a| + |b| + k] == |a| + |b| + k;
    assert |s| == n;
    if j < n {
      if j < |a| {
        assert a[j] == j;
      } else if j < |a| + |b| {
        assert b[j - |a|] == j;
      } else {
        assert c[j - |a| - |b|] == j;
      }
    }
  }

  /** A worker in the critical section finds a job there. */
  lemma SectionHasJob(s: State, i: nat)
    requires Inv(s) && i < |s.workers| && s.workers[i] == InSection
    ensures s.queue != []
  {
    TotalAtLeast(s.workers, i, Woken());
    TotalAtLeast(s.workers, i, Committed());
  }

  lemma WorkerKeepsTokens(s: State, i: nat)
    requires Inv(s) && i < |s.workers| && WorkerStep(s, i).Some?
    ensures TokensOk(WorkerStep(s, i).value)
  {
    hide HeldOk, OrderOk, MutexOk, FlagOk, Total;
    var w := WorkerStep(s, i).value.workers[i];
    TotalUpdate(s.workers, i, w, Woken());
    TotalUpdate(s.workers, i, w, Committed());
    TotalUpdate(s.workers, i, w, Waiting());
    if s.workers[i].InSection? {
      SectionHasJob(s, i);
    }
  }

  lemma WorkerKeepsOrder(s: State, i: nat)
    requires Inv(s) && i < |s.workers| && WorkerStep(s, i).Some?
    ensures OrderOk(WorkerStep(s, i).value)
  {
    hide HeldOk, TokensOk;
    var s' := WorkerStep(s, i).value;
    if s.workers[i].InSection? {
      SectionHasJob(s, i);
      assert s.freed == [];
      assert s.queue == [s.queue[0]] + s.queue[1..];
      assert s'.taken + s'.freed + s'.queue == s.taken + s.freed + s.queue;
    }
  }

  lemma WorkerKeepsHeld(s: State, i: nat)
    requires Inv(s) && i < |s.workers| && WorkerStep(s, i).Some?
    ensures HeldOk(WorkerStep(s, i).value)
  {
    hide TokensOk, JoinOk, FlagOk, MutexOk, OrderOk, JobHeld, WorkerStep;
    forall j: Job
      ensures JobHeld(WorkerStep(s, i).value, j)
    {
      assert JobHeld(s, j);
      WorkerKeepsJob(s, i, j);
    }
  }

  /** One job: it is taken, it returns, or nothing happens to it. */
  lemma WorkerKeepsJob(s: State, i: nat, j: Job)
    requires OrderOk(s) && JobHeld(s, j) && i < |s.workers| && WorkerStep(s, i).Some?
    ensures JobHeld(WorkerStep(s, i).value, j)
  {
    hide Total, OrderOk;
    var s', w := WorkerStep(s, i).value, s.workers[i];
    TotalUpdate(s.workers, i, s'.workers[i], Holding(j));
    TotalAtLeast(s.workers, i, Holding(j));
    if w.InSection? && s.queue != [] {
      NextNotTaken(s);
    } else if w.Running? {
      assert s'.taken == s.taken;
    } else {
      assert s'.taken == s.taken && s'.done == s.done;
      assert Holding(j)(s'.workers[i]) == Holding(j)(w);
    }
  }

  lemma NextNotTaken(s: State)
    requires OrderOk(s) && s.queue != []
    ensures s.queue[0] !in s.taken
  {
    UptoSplit(s.taken, s.freed, s.queue, s.added, s.queue[0]);
    assert s.queue[0] in s.queue;
  }

  lemma WorkerKeepsRest(s: State, i: nat)
    requires Inv(s) && i < |s.workers| && WorkerStep(s, i).Some?
    ensures var s' := WorkerStep(s, i).value;
      AliveOk(s') && MutexOk(s') && FlagOk(s') && JoinOk(s')
      && forall k :: 0 <= k < |s'.workers| ==> s'.workers[k] != Unlocking(None)
  {
    hide TokensOk, HeldOk, OrderOk;
    if s.workers[i].InSection? {
      SectionHasJob(s, i);
    }
  }

  lemma MainKeepsTokens(s: State, c: Choice)
    requires Inv(s) && MainStep(s, c).Some?
    ensures TokensOk(MainStep(s, c).value)
  {
    hide HeldOk, OrderOk;
    TotalOrdered(s.workers, Committed(), Woken());
    TotalBound(s.workers, Waiting());
  }

  lemma MainKeepsOrder(s: State, c: Choice)
    requires Inv(s) && MainStep(s, c).Some?
    ensures OrderOk(MainStep(s, c).value)
  {
    hide HeldOk, TokensOk;
    var s' := MainStep(s, c).value;
    if s.main.AddInsert? {
      assert s'.taken + s'.freed + s'.queue == s.taken + s.freed + s.queue + [s.added];
    } else if s.main.Sweeping? && s.queue != [] {
      assert s.queue == [s.queue[0]] + s.queue[1..];
      assert s'.taken + s'.freed + s'.queue == s.taken + s.freed + s.queue;
    }
  }

  lemma MainKeepsRest(s: State, c: Choice)
    requires Inv(s) && MainStep(s, c).Some?
    ensures var s' := MainStep(s, c).value;
      AliveOk(s') && MutexOk(s') && FlagOk(s') && JoinOk(s') && HeldOk(s') && s'.workers == s.workers
  {
    hide TokensOk, OrderOk, Total, Holding;
    var s' := MainStep(s, c).value;
    assert s'.workers == s.workers && s'.done == s.done && s'.taken == s.taken;
    forall j: Job
      ensures JobHeld(s', j)
    {
      assert JobHeld(s, j);
    }
    hide HeldOk, JobHeld;
  }

  lemma NextInv(s: State, s': State)
    requires Inv(s) && Next(s, s')
    ensures Inv(s')
  {
    hide AliveOk, MutexOk, FlagOk, OrderOk, HeldOk, TokensOk, JoinOk;
    if i: nat :| i < |s.workers| && WorkerStep(s, i) == Some(s') {
      WorkerKeepsTokens(s, i);
      WorkerKeepsOrder(s, i);
      WorkerKeepsHeld(s, i);
      WorkerKeepsRest(s, i);
    } else {
      var c :| MainStep(s, c) == Some(s');
      MainKeepsTokens(s, c);
      MainKeepsOrder(s, c);
      MainKeepsRest(s, c);
    }
  }

  lemma {:induction false} RunInv(threadNum: int, run: seq<State>, k: nat)
    requires Run(threadNum, run) && k < |run|
    ensures Inv(run[k])
  {
    hide Inv, Next;
    if k == 0 {
      InitInv(threadNum);
    } else {
      RunInv(threadNum, run, k - 1);
      assert Next(run[k - 1], run[k - 1 + 1]);
      NextInv(run[k - 1], run[k]);
    }
  }

  lemma ReachableInv(s: State)
    requires Reachable(s)
    ensures Inv(s)
  {
    hide Inv;
    var threadNum, run :| Run(threadNum, run) && run[|run| - 1] == s;
    RunInv(threadNum, run, |run| - 1);
  }

  // ----- What every reachable state satisfies -----

  /** A woken worker never finds an empty queue, before or after the shutdown. */
  lemma WokenFindsJob(s: State, i: nat)
    requires Reachable(s) && i < |s.workers| && s.workers[i] == InSection
    ensures s.queue != []
    ensures WorkerStep(s, i).value.workers[i] == Unlocking(Some(s.queue[0]))
  {
    ReachableInv(s);
    SectionHasJob(s, i);
  }

  /** Before shutdown, with the mutex free, the queue length is the semaphore plus the woken workers. */
  lemma QueueMatchesSemaphore(s: State)
    requires Reachable(s) && s.keepalive && s.owner == Free
    ensures |s.queue| == s.sem + Total(s.workers, Woken())
  {
    hide HeldOk, OrderOk, JoinOk;
    ReachableInv(s);
  }

  /** Jobs are dequeued in the order they were added, and what the final sweep frees follows them. */
  lemma FirstInFirstOut(s: State)
    requires Reachable(s)
    ensures s.taken + s.freed + s.queue == Upto(s.added)
    ensures s.taken == Upto(|s.taken|)
  {
    ReachableInv(s);
    UptoSplit(s.taken, s.freed, s.queue, s.added, 0);
  }

  /** Every added job is in exactly one place: queued, held by one worker, returned, or freed by the sweep. */
  lemma EachJobOnce(s: State, j: Job)
    requires Reachable(s)
    ensures (if j in s.queue then 1 else 0) + (if j in s.freed then 1 else 0)
         + Total(s.workers, Holding(j)) + (if j in s.done then 1 else 0) == if j < s.added then 1 else 0
  {
    ReachableInv(s);
    assert JobHeld(s, j);
    UptoSplit(s.taken, s.freed, s.queue, s.added, j);
  }

  /** No lost wake-up: with every worker blocked on a zero semaphore and no add in progress, nothing is queued. */
  lemma NoLostWakeup(s: State)
    requires Reachable(s) && s.keepalive && s.sem == 0 && !s.main.AddPost?
    requires forall i :: 0 <= i < |s.workers| ==> s.workers[i] == AtWait
    ensures s.queue == []
  {
    ReachableInv(s);
    TotalZero(s.workers, Woken());
  }

  /** Once destroy has posted, no worker is stuck in sem_wait: the semaphore covers all who wait. */
  lemma NobodyStuck(s: State, i: nat)
    requires Reachable(s) && !s.keepalive && !s.main.Posting? && i < |s.workers| && s.workers[i] == AtWait
    ensures Total(s.workers, Waiting()) <= s.sem && WorkerStep(s, i).Some?
  {
    ReachableInv(s);
    TotalAtLeast(s.workers, i, Waiting());
  }

  /** Until destroy has finished, some thread can move. */
  lemma ShutdownProgress(s: State)
    requires Reachable(s) && !s.keepalive && s.main != Finished
    ensures exists s' :: Next(s, s')
  {
    ReachableInv(s);
    if MainStep(s, DoAdd).Some? {
      assert Next(s, MainStep(s, DoAdd).value);
    } else {
      var k := s.main.joined;
      var i: nat := if s.workers[k] == AtLock && s.owner.OwnedBy? then s.owner.worker else k;
      if s.workers[k] == AtWait {
        TotalAtLeast(s.workers, k, Waiting());
      }
      assert WorkerStep(s, i).Some?;
      assert Next(s, WorkerStep(s, i).value);
    }
  }

  // ----- Work gets done -----

  /** threadpool_init starts one thread at least, and the number never changes. */
  lemma {:induction false} WorkerCount(threadNum: int, run: seq<State>, k: nat)
    requires Run(threadNum, run) && k < |run|
    ensures |run[k].workers| == if threadNum > 1 then threadNum else 1
  {
    if k > 0 {
      WorkerCount(threadNum, run, k - 1);
      assert Next(run[k - 1], run[k - 1 + 1]);
    }
  }

  /** Until destroy clears the flag every worker stays in its loop. */
  lemma AliveUntilDestroy(s: State, i: nat)
    requires Reachable(s) && s.keepalive && i < |s.workers|
    ensures s.workers[i] != Exited
  {
    ReachableInv(s);
  }

  /** Between calls, with the mutex free, threadpool_add_work goes through: one more job at the end, one more post. */
  lemma AddCompletes(s: State) returns (run: seq<State>)
    requires s.main == Idle && s.owner == Free
    ensures |run| == 6 && run[0] == s
    ensures forall k :: 0 <= k < 5 ==> MainStep(run[k], DoAdd) == Some(run[k + 1])
    ensures run[5] == s.(queue := s.queue + [s.added], added := s.added + 1, sem := s.sem + 1)
  {
    run := [s];
    for n := 0 to 5
      invariant |run| == n + 1 && run[0] == s
      invariant forall k :: 0 <= k < n ==> MainStep(run[k], DoAdd) == Some(run[k + 1])
      invariant run[n] == AddStage(s, n)
    {
      run := run + [MainStep(run[n], DoAdd).value];
    }
  }

  /** What a call of threadpool_add_work has changed after n steps. */
  function AddStage(s: State, n: nat): State {
    match n
    case 0 => s
    case 1 => s.(main := AddLock)
    case 2 => s.(main := AddInsert, owner := OwnedByMain)
    case 3 => s.(main := AddPost, owner := OwnedByMain, queue := s.queue + [s.added], added := s.added + 1)
    case 4 => s.(main := AddUnlock, owner := OwnedByMain, queue := s.queue + [s.added], added := s.added + 1,
                 sem := s.sem + 1)
    case _ => s.(queue := s.queue + [s.added], added := s.added + 1, sem := s.sem + 1)
  }

  /** Inside a call, the main thread waits for nothing but the worker that owns the mutex, and that one can move. */
  lemma AddNotStuck(s: State, c: Choice)
    requires Reachable(s) && s.keepalive
    ensures MainStep(s, c).Some?
      || (s.owner.OwnedBy? && s.owner.worker < |s.workers| && WorkerStep(s, s.owner.worker).Some?)
  {
    ReachableInv(s);
    if s.owner.OwnedBy? {
      OwnerMoves(s);
    }
  }

  /** The steps a worker has before it waits again. */
  function StepsToWait(): Worker -> nat {
    (w: Worker) =>
      match w
      case AtWait => 0
      case AtLoop => 1
      case Running(_) => 2
      case Unlocking(_) => 3
      case InSection => 4
      case AtLock => 5
      case AtCheck => 6
      case Exited => 0
  }

  /** The most steps the workers can take while the main thread does nothing. */
  function WorkRank(s: State): nat {
    7 * s.sem + Total(s.workers, StepsToWait())
  }

  ghost predicate WorkerNext(s: State, s': State) {
    exists i: nat :: i < |s.workers| && WorkerStep(s, i) == Some(s')
  }

  /** A run in which only workers move. */
  ghost predicate WorkerRun(run: seq<State>) {
    run != [] && forall k :: 0 <= k < |run| - 1 ==> WorkerNext(run[k], run[k + 1])
  }

  lemma WorkerLowersWork(s: State, s': State)
    requires s.keepalive && WorkerNext(s, s')
    ensures WorkRank(s') < WorkRank(s) && s'.keepalive && s'.main == s.main && s'.added == s.added
  {
    hide Total;
    var i: nat :| i < |s.workers| && WorkerStep(s, i) == Some(s');
    TotalUpdate(s.workers, i, s'.workers[i], StepsToWait());
  }

  lemma ReachableNext(s: State, s': State)
    requires Reachable(s) && Next(s, s')
    ensures Reachable(s')
  {
    hide Next;
    var threadNum, run :| Run(threadNum, run) && run[|run| - 1] == s;
    var longer := run + [s'];
    forall k | 0 <= k < |longer| - 1 ensures Next(longer[k], longer[k + 1]) {
      assert k < |run| - 1 ==> Next(run[k], run[k + 1]);
    }
    assert Run(threadNum, longer) && longer[|longer| - 1] == s';
  }

  /** Nothing is queued, and the jobs that have returned are exactly those that were added. */
  ghost predicate AllDone(s: State) {
    s.queue == [] && forall j: Job :: j in s.done <==> j < s.added
  }

  /** A worker that owns the mutex is not blocked. */
  lemma OwnerMoves(s: State)
    requires Inv(s) && s.owner.OwnedBy?
    ensures s.owner.worker < |s.workers| && WorkerStep(s, s.owner.worker).Some?
  {
    hide OrderOk, HeldOk, TokensOk, JoinOk, FlagOk;
  }

  /** Where no worker can move while the main thread is between calls, every added job has returned. */
  lemma QuietMeansDone(s: State)
    requires Reachable(s) && s.keepalive && s.main == Idle
    requires forall i: nat :: i < |s.workers| ==> WorkerStep(s, i).None?
    ensures AllDone(s)
  {
    ReachableInv(s);
    forall i | 0 <= i < |s.workers|
      ensures s.workers[i] == AtWait && s.sem == 0
    {
      assert WorkerStep(s, i).None?;
      if s.owner != Free {
        OwnerMoves(s);
      }
    }
    NoLostWakeup(s);
    forall j: Job ensures j in s.done <==> j < s.added {
      assert JobHeld(s, j);
      TotalZero(s.workers, Holding(j));
      EachJobOnce(s, j);
    }
  }

  /** The workers alone cannot go on for ever, and when they stop every added job has returned. */
  lemma {:induction false} WorkEnds(run: seq<State>)
    requires WorkerRun(run) && Reachable(run[0]) && run[0].keepalive
    ensures |run| - 1 <= WorkRank(run[0])
    ensures var last := run[|run| - 1];
      && Reachable(last) && last.keepalive && last.main == run[0].main && last.added == run[0].added
      && (last.main == Idle && (forall i: nat :: i < |last.workers| ==> WorkerStep(last, i).None?) ==> AllDone(last))
    decreases |run|
  {
    hide Reachable, WorkRank, Next, AllDone;
    if |run| == 1 {
      var last := run[0];
      if last.main == Idle && forall i: nat :: i < |last.workers| ==> WorkerStep(last, i).None? {
        QuietMeansDone(last);
      }
    } else {
      assert WorkerNext(run[0], run[0 + 1]);
      WorkerLowersWork(run[0], run[1]);
      WorkerIsNext(run[0], run[1]);
      ReachableNext(run[0], run[1]);
      var rest := run[1..];
      forall k | 0 <= k < |rest| - 1 ensures WorkerNext(rest[k], rest[k + 1]) {
        assert WorkerNext(run[k + 1], run[k + 1 + 1]);
      }
      WorkEnds(rest);
    }
  }

  lemma WorkerIsNext(s: State, s': State)
    requires WorkerNext(s, s')
    ensures Next(s, s')
  {
  }

  /** From every state between two calls the workers can go on to where every added job has returned. */
  lemma {:induction false} WorkCanFinish(s: State) returns (run: seq<State>)
    requires Reachable(s) && s.keepalive && s.main == Idle
    ensures WorkerRun(run) && run[0] == s
    ensures AllDone(run[|run| - 1]) && run[|run| - 1].added == s.added
    decreases WorkRank(s)
  {
    hide Reachable, WorkRank, Next, AllDone;
    if i: nat :| i < |s.workers| && WorkerStep(s, i).Some? {
      var s' := WorkerStep(s, i).value;
      assert WorkerNext(s, s');
      WorkerLowersWork(s, s');
      WorkerIsNext(s, s');
      ReachableNext(s, s');
      var rest := WorkCanFinish(s');
      run := [s] + rest;
      forall k | 0 <= k < |run| - 1 ensures WorkerNext(run[k], run[k + 1]) {
        assert k > 0 ==> WorkerNext(rest[k - 1], rest[k - 1 + 1]);
      }
    } else {
      run := [s];
      QuietMeansDone(s);
    }
  }

  // ----- Shutdown ends -----

  /** The most steps a worker can still take once the flag is cleared. */
  function StepsLeft(): Worker -> nat {
    (w: Worker) =>
      match w
      case Exited => 0
      case AtLoop => 1
      case AtCheck => 2
      case AtWait => 3
      case Running(_) => 2
      case Unlocking(got) => if got.Some? then 3 else 2
      case InSection => 4
      case AtLock => 5
  }

  /** The most steps the whole pool can still take once the flag is cleared. */
  function Rank(s: State): int {
    var n := |s.workers|;
    Total(s.workers, StepsLeft()) + |s.queue| +
    match s.main
    case Posting(k) => n - k + n + 3
    case Joining(k) => n - k + 2
    case Sweeping => 1
    case _ => 0
  }

  lemma RankNatural(s: State)
    requires Inv(s)
    ensures Rank(s) >= 0
  {
  }

  lemma WorkerLowersRank(s: State, i: nat)
    requires i < |s.workers| && !s.keepalive && WorkerStep(s, i).Some?
    requires s.workers[i] != Unlocking(None)
    ensures Rank(WorkerStep(s, i).value) < Rank(s)
  {
    TotalUpdate(s.workers, i, WorkerStep(s, i).value.workers[i], StepsLeft());
  }

  lemma ShutdownStep(s: State, s': State)
    requires Inv(s) && !s.keepalive && Next(s, s')
    ensures !s'.keepalive && 0 <= Rank(s') < Rank(s)
  {
    hide HeldOk, OrderOk, TokensOk, MutexOk, JoinOk, Rank, MainStep, WorkerStep;
    NextInv(s, s');
    RankNatural(s');
    if i: nat :| i < |s.workers| && WorkerStep(s, i) == Some(s') {
      WorkerLowersRank(s, i);
      WorkerKeepsFlag(s, i);
    } else {
      var c :| MainStep(s, c) == Some(s');
      MainLowersRank(s, c);
    }
  }

  lemma WorkerKeepsFlag(s: State, i: nat)
    requires i < |s.workers| && WorkerStep(s, i).Some?
    ensures WorkerStep(s, i).value.keepalive == s.keepalive
  {
  }

  lemma MainLowersRank(s: State, c: Choice)
    requires FlagOk(s) && JoinOk(s) && !s.keepalive && MainStep(s, c).Some?
    ensures !MainStep(s, c).value.keepalive && Rank(MainStep(s, c).value) < Rank(s)
  {
    hide Total;
  }

  /** After the flag is cleared every run is finite: it has at most Rank steps, whatever the interleaving. */
  lemma {:induction false} ShutdownBounded(run: seq<State>)
    requires run != [] && Inv(run[0]) && !run[0].keepalive
    requires forall k :: 0 <= k < |run| - 1 ==> Next(run[k], run[k + 1])
    ensures |run| - 1 <= Rank(run[0])
    decreases |run|
  {
    hide Inv, Next, Rank;
    if |run| == 1 {
      RankNatural(run[0]);
    } else {
      assert Next(run[0], run[0 + 1]);
      NextInv(run[0], run[1]);
      ShutdownStep(run[0], run[1]);
      forall k | 0 <= k < |run| - 2 ensures Next(run[1..][k], run[1..][k + 1]) {
        assert Next(run[k + 1], run[k + 1 + 1]);
      }
      ShutdownBounded(run[1..]);
    }
  }

  /** When destroy returns, every worker has exited, every dequeued job has returned once, and the sweep has freed
      exactly the rest. */
  lemma FinishedAccounting(s: State)
    requires Reachable(s) && s.main == Finished
    ensures forall i :: 0 <= i < |s.workers| ==> s.workers[i] == Exited
    ensures s.queue == [] && s.taken + s.freed == Upto(s.added)
    ensures forall j: Job :: j in s.done <==> j < |s.taken|
    ensures forall j: Job :: j in s.freed <==> |s.taken| <= j < s.added
  {
    ReachableInv(s);
    forall j: Job ensures (j in s.done <==> j < |s.taken|) && (j in s.freed <==> |s.taken| <= j < s.added) {
      assert JobHeld(s, j);
      TotalZero(s.workers, Holding(j));
      UptoSplit(s.taken, s.freed, s.queue, s.added, j);
      assert j < |s.taken| ==> s.taken[j] == j;
    }
  }
}
