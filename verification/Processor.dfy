/**
 Processors run their tasks one at a time and in order on a thread pool that they share and that takes
 tasks in any order: a processor has at most one task in the pool, which chains the next one when it ends.
 */
module Processor {
  import opened Bytes
  import opened Queue

  type Task = int

  /** A task as the pool sees it: a closure of some processor. */
  datatype Job = Job(owner: int, task: Task)

  /** `current` is the task last given to the pool; `enqueued` and `completed` are the history. */
  datatype Proc = Proc(queue: seq<Task>, pending: bool, current: Task, enqueued: seq<Task>, completed: seq<Task>)

  function Enqueued(p: Proc, task: Task): Proc
  {
    if p.pending then p.(queue := p.queue + [task], enqueued := p.enqueued + [task])
    else p.(pending := true, current := task, enqueued := p.enqueued + [task])
  }

  function Scheduled(p: Proc): Proc
  {
    if p.queue == [] then p.(pending := false) else p.(queue := p.queue[1..], current := p.queue[0])
  }

  // ----- The object -----

  class ThreadPool {
    var tasks: multiset<Job>

    method Enqueue(job: Job)
      modifies this
      ensures tasks == old(tasks) + multiset{job}
    {
      tasks := tasks + multiset{job};
    }
  }

  class TaskProcessor {
    const id: int
    const pool: ThreadPool
    const tasks: Queue<Task>
    var pending: bool
    ghost var current: Task
    ghost var enqueued: seq<Task>
    ghost var completed: seq<Task>

    ghost function View(): Proc
      reads this, tasks
    {
      Proc(tasks.elements, pending, current, enqueued, completed)
    }

    ghost predicate Valid()
      reads this, tasks
    {
      tasks.limit == 0 && !tasks.stopping
    }

    constructor (id: int, pool: ThreadPool)
      ensures Valid() && this.id == id && this.pool == pool && fresh(tasks)
      ensures View() == Proc([], false, 0, [], [])
    {
      this.id, this.pool := id, pool;
      tasks := new Queue<Task>(0, _ => 1);
      pending, current, enqueued, completed := false, 0, [], [];
    }

    /** Under the mutex: the pool gets the task when none is pending, or else the queue does. */
    method Enqueue(task: Task)
      requires Valid()
      modifies this`pending, this`current, this`enqueued, tasks, pool
      ensures Valid() && View() == Enqueued(old(View()), task)
      ensures pool.tasks == old(pool.tasks) + if old(pending) then multiset{} else multiset{Job(id, task)}
    {
      if !pending {
        pool.Enqueue(Job(id, task));
        pending := true;
        current := task;
      } else {
        tasks.Push(task);
      }
      enqueued := enqueued + [task];
    }

    /** Under the mutex, when a task has ended: the pool gets the next one. */
    method Schedule()
      requires Valid()
      modifies this`pending, this`current, tasks, pool
      ensures Valid() && View() == Scheduled(old(View()))
      ensures pool.tasks ==
              old(pool.tasks) + if old(tasks.elements) == [] then multiset{} else multiset{Job(id, old(tasks.elements)[0])}
    {
      var next := tasks.Pop();
      if next.Some? {
        pool.Enqueue(Job(id, next.value));
        current := next.value;
      } else {
        pending := false;
      }
    }
  }

  // ----- Any number of processors on one pool -----

  /** Jobs in the pool, running, and ended but not yet followed by schedule. */
  datatype System = System(procs: map<int, Proc>, pool: multiset<Job>, running: multiset<Job>, ended: multiset<Job>)

  datatype Action =
    | Enqueue(id: int, task: Task)
    | Dequeue(job: Job)
    | End(job: Job)
    | Schedule(job: Job)

  predicate Enabled(s: System, a: Action)
  {
    match a
    case Enqueue(id, _) => id in s.procs
    case Dequeue(job) => job in s.pool
    case End(job) => job in s.running && job.owner in s.procs
    case Schedule(job) => job in s.ended && job.owner in s.procs
  }

  /** The pool takes any of its jobs; a task may enqueue others while it runs. */
  function Step(s: System, a: Action): System
    requires Enabled(s, a)
  {
    match a
    case Enqueue(id, task) =>
      s.(procs := s.procs[id := Enqueued(s.procs[id], task)],
         pool := s.pool + if s.procs[id].pending then multiset{} else multiset{Job(id, task)})
    case Dequeue(job) => s.(pool := s.pool - multiset{job}, running := s.running + multiset{job})
    case End(job) =>
      var p := s.procs[job.owner];
      s.(procs := s.procs[job.owner := p.(completed := p.completed + [job.task])],
         running := s.running - multiset{job}, ended := s.ended + multiset{job})
    case Schedule(job) =>
      var p := s.procs[job.owner];
      s.(procs := s.procs[job.owner := Scheduled(p)],
         ended := s.ended - multiset{job},
         pool := s.pool + if p.queue == [] then multiset{} else multiset{Job(job.owner, p.queue[0])})
  }

  function Jobs(s: System): multiset<Job>
  {
    s.pool + s.running + s.ended
  }

  /** The task that is in the pool or running. */
  function Underway(s: System, id: int): seq<Task>
    requires id in s.procs
  {
    var p := s.procs[id];
    if p.pending && Job(id, p.current) !in s.ended then [p.current] else []
  }

  /** A processor is pending exactly when one job of its own, its current task, is somewhere. */
  predicate OneJob(s: System, id: int)
    requires id in s.procs
  {
    && (s.procs[id].pending <==> Job(id, s.procs[id].current) in Jobs(s))
    && (s.procs[id].pending ==> Jobs(s)[Job(id, s.procs[id].current)] == 1)
    && (!s.procs[id].pending ==> s.procs[id].queue == [])
  }

  predicate InOrder(s: System, id: int)
    requires id in s.procs
  {
    s.procs[id].enqueued == s.procs[id].completed + Underway(s, id) + s.procs[id].queue
  }

  ghost predicate Inv(s: System)
  {
    && (forall job :: job in Jobs(s) ==>
          job.owner in s.procs && s.procs[job.owner].pending && job.task == s.procs[job.owner].current)
    && (forall id :: id in s.procs ==> OneJob(s, id))
    && (forall id :: id in s.procs ==> InOrder(s, id))
  }

  predicate Initial(s: System)
  {
    && Jobs(s) == multiset{}
    && forall id :: id in s.procs ==> s.procs[id] == Proc([], false, s.procs[id].current, [], [])
  }

  /** Action i leads from state i to the next one. */
  predicate StepAt(states: seq<System>, actions: seq<Action>, i: int)
  {
    0 <= i < |actions| && i + 1 < |states| && Enabled(states[i], actions[i]) && states[i + 1] == Step(states[i], actions[i])
  }

  ghost predicate IsRun(states: seq<System>, actions: seq<Action>)
  {
    && |states| == |actions| + 1
    && forall i :: 0 <= i < |actions| ==> StepAt(states, actions, i)
  }

  lemma StepKeepsInv(s: System, a: Action)
    requires Inv(s) && Enabled(s, a)
    ensures Inv(Step(s, a))
  {
    match a
    case Enqueue(id, task) => EnqueueKeepsInv(s, id, task);
    case Dequeue(job) => DequeueKeepsInv(s, job);
    case End(job) => EndKeepsInv(s, job);
    case Schedule(job) => ScheduleKeepsInv(s, job);
  }

  lemma EnqueueKeepsInv(s: System, id: int, task: Task)
    requires Inv(s) && id in s.procs
    ensures Inv(Step(s, Enqueue(id, task)))
  {
    var t, p := Step(s, Enqueue(id, task)), s.procs[id];
    assert InOrder(s, id) && OneJob(s, id);
    forall k | k in t.procs
      ensures OneJob(t, k) && InOrder(t, k)
    {
      assert OneJob(s, k) && InOrder(s, k);
      if k == id {
        ConcatAssociative(p.completed + Underway(s, id), p.queue, [task]);
      }
    }
  }

  lemma DequeueKeepsInv(s: System, job: Job)
    requires Inv(s) && job in s.pool
    ensures Inv(Step(s, Dequeue(job)))
  {
    var t := Step(s, Dequeue(job));
    assert Jobs(t) == Jobs(s);
    forall k | k in t.procs
      ensures OneJob(t, k) && InOrder(t, k)
    {
      assert OneJob(s, k) && InOrder(s, k);
    }
  }

  lemma EndKeepsInv(s: System, job: Job)
    requires Inv(s) && Enabled(s, End(job))
    ensures Inv(Step(s, End(job)))
  {
    var t := Step(s, End(job));
    assert Jobs(t) == Jobs(s);
    assert job in Jobs(s);
    assert OneJob(s, job.owner);
    forall k | k in t.procs
      ensures OneJob(t, k) && InOrder(t, k)
    {
      assert OneJob(s, k) && InOrder(s, k);
    }
  }

  lemma ScheduleKeepsOwner(s: System, job: Job)
    requires Inv(s) && Enabled(s, Schedule(job))
    ensures var t := Step(s, Schedule(job)); OneJob(t, job.owner) && InOrder(t, job.owner)
  {
    var p := s.procs[job.owner];
    assert job in Jobs(s);
    assert OneJob(s, job.owner) && InOrder(s, job.owner);
    assert job !in s.pool && job !in s.running;
    if p.queue != [] {
      SplitFirst(p.queue);
    }
  }

  lemma ScheduleKeepsOthers(s: System, job: Job, k: int)
    requires Inv(s) && Enabled(s, Schedule(job)) && k in s.procs && k != job.owner
    ensures var t := Step(s, Schedule(job)); OneJob(t, k) && InOrder(t, k)
  {
    assert OneJob(s, k) && InOrder(s, k);
  }

  lemma ScheduleKeepsJobs(s: System, job: Job, other: Job)
    requires Inv(s) && Enabled(s, Schedule(job)) && other in Jobs(Step(s, Schedule(job)))
    ensures var t := Step(s, Schedule(job));
            && other.owner in t.procs && t.procs[other.owner].pending && other.task == t.procs[other.owner].current
  {
    assert job in Jobs(s);
    assert OneJob(s, job.owner);
  }

  lemma ScheduleKeepsInv(s: System, job: Job)
    requires Inv(s) && Enabled(s, Schedule(job))
    ensures Inv(Step(s, Schedule(job)))
  {
    var t := Step(s, Schedule(job));
    forall k | k in t.procs
      ensures OneJob(t, k) && InOrder(t, k)
    {
      if k == job.owner {
        ScheduleKeepsOwner(s, job);
      } else {
        ScheduleKeepsOthers(s, job, k);
      }
    }
    forall other | other in Jobs(t)
      ensures other.owner in t.procs && t.procs[other.owner].pending && other.task == t.procs[other.owner].current
    {
      ScheduleKeepsJobs(s, job, other);
    }
    hide OneJob, InOrder;
  }

  /** The invariant holds in every run, whatever order the pool takes the jobs in. */
  lemma {:induction false} RunKeepsInv(states: seq<System>, actions: seq<Action>, i: nat)
    requires IsRun(states, actions) && Initial(states[0]) && i < |states|
    ensures Inv(states[i])
  {
    hide Step, Inv;
    if i == 0 {
      InitialInv(states[0]);
    } else {
      RunKeepsInv(states, actions, i - 1);
      assert StepAt(states, actions, i - 1);
      StepKeepsInv(states[i - 1], actions[i - 1]);
    }
  }

  lemma InitialInv(s: System)
    requires Initial(s)
    ensures Inv(s)
  {
    forall id | id in s.procs
      ensures OneJob(s, id) && InOrder(s, id)
    {}
  }

  /** What join waits for. */
  predicate Joinable(p: Proc)
  {
    !p.pending && p.queue == []
  }

  /**
   In every run and for every processor: completed tasks, then the one in the pool or running, then the
   queue are the tasks as they were enqueued; no two jobs of the processor are in the pool, running or
   ending; and join's condition holds exactly when every task has completed and no job is left.
   */
  lemma TasksInOrder(states: seq<System>, actions: seq<Action>, i: nat, id: int)
    requires IsRun(states, actions) && Initial(states[0]) && i < |states| && id in states[i].procs
    ensures var s, p := states[i], states[i].procs[id];
            && p.enqueued == p.completed + Underway(s, id) + p.queue
            && (forall a, b :: a in Jobs(s) && b in Jobs(s) && a.owner == b.owner ==> a == b && Jobs(s)[a] == 1)
            && (p.pending <==> exists job :: job in Jobs(s) && job.owner == id)
            && (Joinable(p) <==> p.completed == p.enqueued && forall job :: job in Jobs(s) ==> job.owner != id)
  {
    RunKeepsInv(states, actions, i);
    var s, p := states[i], states[i].procs[id];
    assert OneJob(s, id) && InOrder(s, id);
    forall a, b | a in Jobs(s) && b in Jobs(s) && a.owner == b.owner
      ensures a == b && Jobs(s)[a] == 1
    {
      assert OneJob(s, a.owner);
    }
    if p.pending {
      assert Job(id, p.current) in Jobs(s);
    }
  }

  /** When no job is anywhere, every processor has completed everything. */
  lemma AllQuietAllDone(states: seq<System>, actions: seq<Action>, i: nat, id: int)
    requires IsRun(states, actions) && Initial(states[0]) && i < |states| && id in states[i].procs
    requires Jobs(states[i]) == multiset{}
    ensures states[i].procs[id].completed == states[i].procs[id].enqueued
  {
    TasksInOrder(states, actions, i, id);
    RunKeepsInv(states, actions, i);
    assert OneJob(states[i], id);
  }
}
