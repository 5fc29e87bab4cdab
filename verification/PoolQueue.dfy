/**
 The queue of the transition system is the linked queue: whatever the schedule, the linked queue hands out and
 finally frees the jobs that the states of the pool say.
 */
module PoolQueue {

  import opened Options
  import opened JobQueue
  import opened ThreadPool

  /** The jobs of some nodes. */
  function Jobs(nodes: seq<JobNode>): seq<Job> {
    seq(|nodes|, i requires 0 <= i < |nodes| => nodes[i].job)
  }

  /** Whose turn it is. */
  datatype Turn = OfMain(choice: Choice) | OfWorker(i: nat)

  /** The step that the turn takes; None when that thread is blocked, gone, or does not exist. */
  function Step(s: State, turn: Turn): Option<State> {
    match turn
    case OfMain(choice) => MainStep(s, choice)
    case OfWorker(i) => if i < |s.workers| then WorkerStep(s, i) else None
  }

  /** The rest of threadpool_destroy once all workers are joined: every queued job is freed. */
  function Swept(s: State): State {
    s.(main := Finished, queue := [], freed := s.freed + s.queue)
  }

  /** It is what the single steps of the sweep come to. */
  lemma {:induction false} SweepSteps(s: State, c: Choice)
    requires s.main == Sweeping
    ensures MainStep(s, c).Some?
    ensures if s.queue == [] then MainStep(s, c).value == Swept(s)
            else MainStep(s, c).value.main == Sweeping && Swept(MainStep(s, c).value) == Swept(s)
    ensures Inv(s) ==> Inv(Swept(s))
    decreases |s.queue|
  {
    hide Inv;
    var s' := MainStep(s, c).value;
    if s.queue == [] {
      assert s.freed + s.queue == s.freed;
    } else {
      assert s.queue == [s.queue[0]] + s.queue[1..];
      assert s'.freed + s'.queue == s.freed + s.queue;
      SweepSteps(s', c);
    }
    if Inv(s) {
      assert Next(s, s');
      NextInv(s, s');
    }
  }

  /** The state after a turn, with the sweep taken in one go; a thread that cannot move loses its turn. */
  function Served(s: State, turn: Turn): State {
    if Step(s, turn).None? then s
    else if turn.OfMain? && s.main.Sweeping? then Swept(s)
    else Step(s, turn).value
  }

  /** The state that a schedule leads to. */
  function Scheduled(threadNum: int, schedule: seq<Turn>): State {
    if schedule == [] then Init(threadNum)
    else Served(Scheduled(threadNum, schedule[..|schedule| - 1]), schedule[|schedule| - 1])
  }

  /** The job a worker takes is the one in the node that is removed. */
  method TakeJob(q: Queue, ghost s: State, ghost i: nat) returns (first: JobNode?)
    requires q.Valid() && Jobs(q.nodes) == s.queue && i < |s.workers| && s.workers[i] == InSection
    modifies q, q.nodes
    ensures q.Valid() && q.nodes == (if old(q.nodes) == [] then [] else old(q.nodes)[1..])
    ensures var s' := WorkerStep(s, i).value;
      && Jobs(q.nodes) == s'.queue
      && s'.workers[i] == Unlocking(if first == null then None else Some(first.job))
      && s'.taken == if first == null then s.taken else s.taken + [first.job]
  {
    first := q.RemoveFirst();
    assert Jobs(q.nodes) == if s.queue == [] then [] else s.queue[1..];
  }

  /** The job that is added last is the one in the node that is inserted. */
  method InsertJob(q: Queue, ghost s: State, ghost c: Choice, newNode: JobNode)
    requires q.Valid() && Jobs(q.nodes) == s.queue && s.main == AddInsert
    requires newNode !in q.nodes && newNode.job == s.added
    modifies q, q.nodes, newNode
    ensures q.Valid() && q.nodes == old(q.nodes) + [newNode]
    ensures Jobs(q.nodes) == MainStep(s, c).value.queue
  {
    q.Add(newNode);
    assert Jobs(q.nodes) == s.queue + [s.added];
  }

  lemma {:induction false} ReachableSwept(s: State)
    requires Reachable(s) && s.main == Sweeping
    ensures Reachable(Swept(s))
    decreases |s.queue|
  {
    hide Reachable;
    SweepSteps(s, DoAdd);
    var s' := MainStep(s, DoAdd).value;
    assert Next(s, s');
    ReachableNext(s, s');
    if s.queue != [] {
      ReachableSwept(s');
    }
  }

  lemma ReachableInit(threadNum: int)
    ensures Reachable(Init(threadNum))
  {
    assert Run(threadNum, [Init(threadNum)]);
  }

  /** Once destroy has finished no thread moves. */
  lemma FinishedStays(s: State, turn: Turn)
    requires Reachable(s) && s.main == Finished
    ensures Step(s, turn).None?
  {
    hide Reachable;
    ReachableInv(s);
  }

  /** A step that is no queue operation. */
  predicate Elsewhere(s: State, turn: Turn) {
    match turn
    case OfMain(_) => s.main != AddInsert && s.main != Sweeping
    case OfWorker(i) => i < |s.workers| ==> s.workers[i] != InSection
  }

  lemma StepElsewhere(s: State, turn: Turn)
    requires Step(s, turn).Some? && Elsewhere(s, turn)
    ensures var s' := Step(s, turn).value;
      s'.queue == s.queue && s'.taken == s.taken && s'.freed == s.freed && s'.added == s.added
      && (s'.main.Finished? ==> s.main.Finished?)
  {
  }

  lemma StepIsNext(s: State, turn: Turn)
    requires Step(s, turn).Some?
    ensures Next(s, Step(s, turn).value)
  {
  }

  /**
   The pool under any schedule, with a linked queue that gets every queue operation of its threads: the jobs it
   hands out and the jobs it frees at the end are those that the reached state has taken and freed.
   */
  method Execute(threadNum: int, schedule: seq<Turn>) returns (s: State, handed: seq<Job>, freed: seq<Job>)
    ensures s == Scheduled(threadNum, schedule) && Reachable(s)
    ensures handed == s.taken && freed == s.freed
    ensures s.main.Finished? ==> handed + freed == Upto(s.added)
  {
    s := Init(threadNum);
    ReachableInit(threadNum);
    handed, freed := [], [];
    var q := new Queue();
    hide Reachable, Next, Step, Swept;
    for k := 0 to |schedule|
      invariant s == Scheduled(threadNum, schedule[..k]) && Reachable(s)
      invariant handed == s.taken && freed == s.freed
      invariant fresh(q) && forall i :: 0 <= i < |q.nodes| ==> fresh(q.nodes[i])
      invariant s.main.Finished? || (q.Valid() && Jobs(q.nodes) == s.queue)
    {
      var turn := schedule[k];
      assert schedule[..k + 1][..k] == schedule[..k];
      if Step(s, turn).Some? {
        if s.main.Finished? {
          FinishedStays(s, turn);
        }
        ghost var nodes := q.nodes;
        s, handed, freed := Serve(q, s, turn, handed, freed);
        forall i | 0 <= i < |q.nodes| ensures fresh(q.nodes[i]) {
          assert q.nodes[i] in q.nodes;
          if q.nodes[i] in nodes {
            var j :| 0 <= j < |nodes| && nodes[j] == q.nodes[i];
          }
        }
      }
    }
    assert schedule[..|schedule|] == schedule;
    if s.main.Finished? {
      FinishedAccounting(s);
    }
  }

  /** One step of the pool with the linked queue. */
  method Serve(q: Queue, s: State, turn: Turn, handed0: seq<Job>, freed0: seq<Job>)
    returns (s': State, handed: seq<Job>, freed: seq<Job>)
    requires Reachable(s) && Step(s, turn).Some? && handed0 == s.taken && freed0 == s.freed
    requires q.Valid() && Jobs(q.nodes) == s.queue
    modifies q, q.nodes
    ensures Reachable(s') && handed == s'.taken && freed == s'.freed
    ensures s' == Served(s, turn)
    ensures s'.main.Finished? || (q.Valid() && Jobs(q.nodes) == s'.queue)
    ensures forall n | n in q.nodes :: n in old(q.nodes) || fresh(n)
  {
    hide Reachable, Next;
    s', handed, freed := Step(s, turn).value, handed0, freed0;
    StepIsNext(s, turn);
    ReachableNext(s, s');
    if turn.OfMain? && s.main.AddInsert? {
      var newNode := new JobNode(s.added);
      InsertJob(q, s, turn.choice, newNode);
    } else if turn.OfMain? && s.main.Sweeping? {
      var gone := q.Empty();
      freed := freed + Jobs(gone);
      ReachableSwept(s);
      s' := Swept(s);
    } else if turn.OfWorker? && s.workers[turn.i].InSection? {
      var first := TakeJob(q, s, turn.i);
      if first != null {
        handed := handed + [first.job];
      }
    } else {
      StepElsewhere(s, turn);
    }
  }
}
