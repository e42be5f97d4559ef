/** The bounded task queue of the worker pool (threadpool.c): where the queued tasks lie in their array. */
module TaskQueue {
  import opened Wrappers
  import opened Division

  /** i places after head on a cycle of size. */
  function At(size: int, head: int, i: int): int {
    if head + i < size then head + i else head + i - size
  }

  lemma AtIsMod(size: int, head: int, i: int)
    requires 0 <= head < size && 0 <= i <= size
    ensures At(size, head, i) == (head + i) % size
  {
    if head + i < size {
      DivUnique(head + i, size, 0, head + i);
    } else {
      DivUnique(head + i, size, 1, head + i - size);
    }
  }

  /** Queued tasks lie in the array from head on; tail is where the next one goes. */
  ghost predicate Queued<T>(cells: seq<Option<T>>, head: int, tail: int, count: int, queue: seq<T>) {
    && 0 <= head < |cells| && count == |queue| <= |cells| && tail == At(|cells|, head, count)
    && forall i :: 0 <= i < count ==> cells[At(|cells|, head, i)] == Some(queue[i])
  }

  function Step(size: int, at: int): int {
    if at + 1 == size then 0 else at + 1
  }

  lemma QueuedAdd<T>(cells: seq<Option<T>>, head: int, tail: int, count: int, queue: seq<T>, task: T)
    requires Queued(cells, head, tail, count, queue) && count < |cells|
    ensures 0 <= tail < |cells|
    ensures Queued(cells[tail := Some(task)], head, Step(|cells|, tail), count + 1, queue + [task])
  {
  }

  lemma HeadStarts<T>(started: seq<T>, queue: seq<T>)
    requires queue != []
    ensures started + queue == (started + [queue[0]]) + queue[1..]
  {
  }

  lemma QueuedTake<T>(cells: seq<Option<T>>, head: int, tail: int, count: int, queue: seq<T>)
    requires Queued(cells, head, tail, count, queue) && count > 0
    ensures cells[head] == Some(queue[0]) && Queued(cells, Step(|cells|, head), tail, count - 1, queue[1..])
    ensures [queue[0]] + queue[1..] == queue
  {
    assert At(|cells|, head, 0) == head;
    forall i | 0 <= i < count - 1
      ensures cells[At(|cells|, Step(|cells|, head), i)] == Some(queue[1..][i])
    {
      assert At(|cells|, Step(|cells|, head), i) == At(|cells|, head, i + 1);
    }
  }
}

/** The pool object; every method is one critical section of its mutex. */
module TaskPool {
  import opened Wrappers
  import opened TaskQueue

  datatype Err = Success | Invalid | TaskArgOverflow | Shutdown | QueueFull

  class Pool<T> {
    const queue_size: nat
    const task_arg_size: nat
    const queues: array<Option<T>>
    var head: nat
    var tail: nat
    var count: nat
    var shutdown: bool
    ghost var queue: seq<T>
    ghost var accepted: seq<T>
    ghost var started: seq<T>

    ghost predicate Valid()
      reads this, queues
    {
      && queues.Length == queue_size && Queued(queues[..], head, tail, count, queue)
      && accepted == started + queue
    }

    constructor (queue_size: nat, task_arg_size: nat)
      requires queue_size > 0
      ensures Valid() && fresh(queues) && this.queue_size == queue_size && this.task_arg_size == task_arg_size
      ensures !shutdown && accepted == [] && started == []
    {
      this.queue_size, this.task_arg_size := queue_size, task_arg_size;
      queues := new Option<T>[queue_size](_ => None);
      head, tail, count, shutdown := 0, 0, 0, false;
      queue, accepted, started := [], [], [];
    }

    /** threadpool_add; no function given is Invalid. */
    method Add(task: Option<T>, arg_size: int) returns (err: Err)
      requires Valid()
      modifies this, queues
      ensures Valid() && shutdown == old(shutdown) && started == old(started)
      ensures err == if task == None then Invalid else if arg_size > task_arg_size then TaskArgOverflow
                     else if old(shutdown) then Shutdown else if old(count) == queue_size then QueueFull else Success
      ensures accepted == if err == Success then old(accepted) + [task.value] else old(accepted)
    {
      if task == None {
        return Invalid;
      }
      if arg_size > task_arg_size {
        return TaskArgOverflow;
      }
      var next := tail + 1;
      next := if next == queue_size then 0 else next;
      if shutdown {
        return Shutdown;
      }
      if count == queue_size {
        return QueueFull;
      }
      QueuedAdd(queues[..], head, tail, count, queue, task.value);
      queues[tail] := task;
      tail := next;
      count := count + 1;
      queue, accepted := queue + [task.value], accepted + [task.value];
      return Success;
    }

    /** threadpool_run from the end of its wait to its unlock: None means the worker leaves. */
    method Take() returns (task: Option<T>)
      requires Valid() && (count > 0 || shutdown)
      modifies this
      ensures Valid() && shutdown == old(shutdown) && accepted == old(accepted)
      ensures old(shutdown) ==> task == None && started == old(started)
      ensures !old(shutdown) ==> task.Some? && started == old(started) + [task.value] && [task.value] + queue == old(queue)
    {
      if shutdown {
        return None;
      }
      QueuedTake(queues[..], head, tail, count, queue);
      HeadStarts(started, queue);
      task := queues[head];
      head := head + 1;
      head := if head == queue_size then 0 else head;
      count := count - 1;
      queue, started := queue[1..], started + [queue[0]];
    }

    /** The part of threadpool_destroy that stops the pool. */
    method Stop() returns (err: Err)
      requires Valid()
      modifies `shutdown
      ensures Valid() && shutdown && err == if old(shutdown) then Shutdown else Success
    {
      if shutdown {
        return Shutdown;
      }
      shutdown := true;
      return Success;
    }

    /** The place of the next task, as a remainder. */
    lemma TailIsMod()
      requires Valid()
      ensures tail == (head + count) % queue_size && count <= queue_size
    {
      AtIsMod(queue_size, head, count);
    }
  }
}

/**
 * Any number of producers and workers.  A step is one critical section of the pool's
 * mutex, or a worker finishing its task, or a worker waking up on its own.  Waking is
 * what the condition variable promises: a signal wakes at least one sleeper if there is
 * one, a broadcast all of them.  queue, accepted and started are history.
 */
module TaskMachine {
  import opened Wrappers
  import opened TaskQueue

  /** Ready: about to look at the queue.  Asleep: waiting to be notified. */
  datatype Worker<T> = Ready | Asleep | Running(task: Option<T>) | Gone

  datatype State<T> = State(
    cells: seq<Option<T>>, head: int, tail: int, count: int, shutdown: bool, workers: map<nat, Worker<T>>,
    queue: seq<T>, accepted: seq<T>, started: seq<T>)

  datatype Step<T> =
    | Spawn(t: nat)
    | Add(task: T, woken: set<nat>)
    | Look(t: nat)
    | Wake(t: nat)
    | Finish(t: nat)
    | Stop

  ghost function Init<T>(size: nat): State<T> {
    State(seq(size, _ => None), 0, 0, 0, false, map[], [], [], [])
  }

  ghost function Sleepers<T>(workers: map<nat, Worker<T>>): set<nat> {
    set t | t in workers && workers[t].Asleep?
  }

  ghost function ReadyOnes<T>(workers: map<nat, Worker<T>>): set<nat> {
    set t | t in workers && workers[t].Ready?
  }

  ghost function Woken<T>(workers: map<nat, Worker<T>>, which: set<nat>): map<nat, Worker<T>> {
    map t | t in workers :: if t in which then Ready else workers[t]
  }

  ghost predicate Accepts<T>(s: State<T>) {
    !s.shutdown && s.count != |s.cells|
  }

  ghost predicate Enabled<T>(s: State<T>, a: Step<T>) {
    match a
    case Spawn(t) => t !in s.workers
    case Add(_, woken) =>
      if Accepts(s) then woken <= Sleepers(s.workers) && (Sleepers(s.workers) != {} ==> woken != {}) && 0 <= s.tail < |s.cells|
      else woken == {}
    case Look(t) => t in s.workers && s.workers[t].Ready? && (s.count == 0 || 0 <= s.head < |s.cells|)
    case Wake(t) => t in s.workers && s.workers[t].Asleep?
    case Finish(t) => t in s.workers && s.workers[t].Running?
    case Stop => true
  }

  ghost function Apply<T>(s: State<T>, a: Step<T>): State<T>
    requires Enabled(s, a)
  {
    match a
    case Spawn(t) => s.(workers := s.workers[t := Ready])
    case Add(task, woken) =>
      if Accepts(s) then
        s.(cells := s.cells[s.tail := Some(task)], tail := TaskQueue.Step(|s.cells|, s.tail), count := s.count + 1,
           workers := Woken(s.workers, woken), queue := s.queue + [task], accepted := s.accepted + [task])
      else s
    case Look(t) =>
      if s.shutdown then s.(workers := s.workers[t := Gone])
      else if s.count == 0 then s.(workers := s.workers[t := Asleep])
      else
        s.(head := TaskQueue.Step(|s.cells|, s.head), count := s.count - 1, workers := s.workers[t := Running(s.cells[s.head])],
           queue := if s.queue == [] then [] else s.queue[1..],
           started := s.started + if s.cells[s.head].Some? then [s.cells[s.head].value] else [])
    case Wake(t) => s.(workers := s.workers[t := Ready])
    case Finish(t) => s.(workers := s.workers[t := Ready])
    case Stop => if s.shutdown then s else s.(shutdown := true, workers := Woken(s.workers, Sleepers(s.workers)))
  }

  // ---------------------------------------------------------------- what every step keeps

  /** While anyone sleeps, there is a worker about to look for every task queued; after shutdown nobody sleeps. */
  ghost predicate Noticed<T>(s: State<T>) {
    (Sleepers(s.workers) != {} ==> s.count <= |ReadyOnes(s.workers)| && !s.shutdown)
  }

  ghost predicate Inv<T>(s: State<T>) {
    Queued(s.cells, s.head, s.tail, s.count, s.queue) && s.accepted == s.started + s.queue && Noticed(s)
  }

  lemma InitInv<T>(size: nat)
    requires size > 0
    ensures Inv(Init<T>(size))
  {
  }

  lemma AddInv<T>(s: State<T>, task: T, woken: set<nat>)
    requires Inv(s) && Enabled(s, Add(task, woken))
    ensures Inv(Apply(s, Add(task, woken)))
  {
    if Accepts(s) {
      QueuedAdd(s.cells, s.head, s.tail, s.count, s.queue, task);
      var after := Woken(s.workers, woken);
      if Sleepers(after) != {} {
        var t :| t in Sleepers(after);
        assert t in Sleepers(s.workers);
        assert ReadyOnes(after) == ReadyOnes(s.workers) + woken;
        Disjoint(ReadyOnes(s.workers), woken);
      }
    }
  }

  lemma Disjoint(a: set<nat>, b: set<nat>)
    requires a !! b && b != {}
    ensures |a + b| > |a|
  {
    assert |b| > 0;
  }

  lemma LookInv<T>(s: State<T>, t: nat)
    requires Inv(s) && Enabled(s, Look(t))
    ensures Inv(Apply(s, Look(t)))
  {
    var s' := Apply(s, Look(t));
    if !s.shutdown && s.count > 0 {
      QueuedTake(s.cells, s.head, s.tail, s.count, s.queue);
      assert s.queue == [s.queue[0]] + s.queue[1..];
    }
    if s.shutdown || s.count > 0 {
      assert Sleepers(s'.workers) == Sleepers(s.workers);
      assert ReadyOnes(s'.workers) == ReadyOnes(s.workers) - {t};
    }
  }

  lemma RiseInv<T>(s: State<T>, t: nat, s': State<T>)
    requires Inv(s) && s' == s.(workers := s.workers[t := Ready])
    ensures Inv(s')
  {
    assert Sleepers(s'.workers) <= Sleepers(s.workers);
    assert ReadyOnes(s'.workers) == ReadyOnes(s.workers) + {t};
  }

  lemma StopInv<T>(s: State<T>)
    requires Inv(s)
    ensures Inv(Apply(s, Stop))
  {
    assert Sleepers(Woken(s.workers, Sleepers(s.workers))) == {};
  }

  lemma StepInv<T>(s: State<T>, a: Step<T>)
    requires Inv(s) && Enabled(s, a)
    ensures Inv(Apply(s, a))
  {
    match a
    case Add(task, woken) => AddInv(s, task, woken);
    case Look(t) => LookInv(s, t);
    case Stop => StopInv(s);
    case Spawn(t) => RiseInv(s, t, Apply(s, a));
    case Wake(t) => RiseInv(s, t, Apply(s, a));
    case Finish(t) => RiseInv(s, t, Apply(s, a));
  }

  ghost predicate IsRun<T>(s: State<T>, steps: seq<Step<T>>)
    decreases |steps|
  {
    steps == [] || (Enabled(s, steps[0]) && IsRun(Apply(s, steps[0]), steps[1..]))
  }

  ghost function Final<T>(s: State<T>, steps: seq<Step<T>>): State<T>
    requires IsRun(s, steps)
    decreases |steps|
  {
    if steps == [] then s else Final(Apply(s, steps[0]), steps[1..])
  }

  lemma {:induction false} RunInv<T>(s: State<T>, steps: seq<Step<T>>)
    requires Inv(s) && IsRun(s, steps)
    ensures Inv(Final(s, steps))
    decreases |steps|
  {
    if steps != [] {
      StepInv(s, steps[0]);
      RunInv(Apply(s, steps[0]), steps[1..]);
    }
  }

  // ---------------------------------------------------------------- what it gives

  /**
   * In every run: started tasks, then those queued, are those accepted, in order
   * and each once; the array indices agree; and while a worker sleeps, every task queued
   * has a worker of its own about to look.
   */
  lemma EveryRunStartsInOrder<T>(size: nat, steps: seq<Step<T>>)
    requires size > 0 && IsRun(Init(size), steps)
    ensures var s := Final(Init(size), steps);
            && s.accepted == s.started + s.queue && |s.queue| == s.count <= |s.cells|
            && 0 <= s.head < |s.cells| && s.tail == (s.head + s.count) % |s.cells|
            && (Sleepers(s.workers) != {} ==> s.count <= |ReadyOnes(s.workers)|)
  {
    InitInv<T>(size);
    RunInv(Init(size), steps);
    var s := Final(Init(size), steps);
    AtIsMod(|s.cells|, s.head, s.count);
  }

  lemma StoppedStep<T>(s: State<T>, a: Step<T>)
    requires s.shutdown && Enabled(s, a)
    ensures var t := Apply(s, a); t.shutdown && t.accepted == s.accepted && t.started == s.started && t.queue == s.queue
  {
  }

  /** After shutdown nothing is accepted and nothing started, however long the run goes on. */
  lemma {:induction false} NothingAfterShutdown<T>(s: State<T>, steps: seq<Step<T>>)
    requires s.shutdown && IsRun(s, steps)
    ensures var t := Final(s, steps); t.shutdown && t.accepted == s.accepted && t.started == s.started && t.queue == s.queue
    decreases |steps|
  {
    if steps != [] {
      StoppedStep(s, steps[0]);
      NothingAfterShutdown(Apply(s, steps[0]), steps[1..]);
    }
  }

  /** A worker that takes a task runs the head of the queue. */
  lemma LookTakesHead<T>(s: State<T>, t: nat)
    requires Inv(s) && Enabled(s, Look(t)) && !s.shutdown && s.count > 0
    ensures s.queue != [] && Apply(s, Look(t)).workers[t] == Running(Some(s.queue[0]))
    ensures Apply(s, Look(t)).started == s.started + [s.queue[0]]
  {
    QueuedTake(s.cells, s.head, s.tail, s.count, s.queue);
  }

  // ---------------------------------------------------------------- tasks do get done

  lemma OneMore<T>(s: State<T>, a: Step<T>, rest: seq<Step<T>>) returns (steps: seq<Step<T>>)
    requires Enabled(s, a) && IsRun(Apply(s, a), rest)
    ensures steps == [a] + rest && IsRun(s, steps) && Final(s, steps) == Final(Apply(s, a), rest)
  {
    steps := [a] + rest;
    assert steps[1..] == rest;
  }

  /**
   * Adding a task can always be done: with room and before shutdown it is accepted, and
   * worker t, if it sleeps, may be the one woken; otherwise nothing changes.
   */
  lemma AddCompletes<T>(s: State<T>, task: T, t: nat) returns (woken: set<nat>)
    requires Inv(s)
    ensures Enabled(s, Add(task, woken))
    ensures var u := Apply(s, Add(task, woken));
            if !s.shutdown && |s.queue| < |s.cells|
            then u.queue == s.queue + [task] && u.accepted == s.accepted + [task] && u.started == s.started && !u.shutdown
                 && (t in s.workers && s.workers[t].Asleep? ==> u.workers[t].Ready?)
                 && (t in s.workers && !s.workers[t].Asleep? ==> u.workers[t] == s.workers[t])
            else u == s
  {
    woken := if !Accepts(s) then {} else if t in Sleepers(s.workers) then {t} else Sleepers(s.workers);
  }

  /** A worker about to look, with a task queued, starts the head and is about to look again when it has finished it. */
  lemma LookAndFinish<T>(s: State<T>, t: nat)
    requires Inv(s) && !s.shutdown && s.queue != [] && t in s.workers && s.workers[t].Ready?
    ensures Enabled(s, Look(t)) && Enabled(Apply(s, Look(t)), Finish(t))
    ensures var u := Apply(Apply(s, Look(t)), Finish(t));
            && Inv(u) && !u.shutdown && u.workers == s.workers && u.queue == s.queue[1..]
            && u.started == s.started + [s.queue[0]] && u.accepted == s.accepted
  {
    LookTakesHead(s, t);
    QueuedTake(s.cells, s.head, s.tail, s.count, s.queue);
    var u := Apply(s, Look(t));
    StepInv(s, Look(t));
    StepInv(u, Finish(t));
    assert s.workers[t := Running(Some(s.queue[0]))][t := Ready] == s.workers;
  }

  /** A worker alone starts every task queued, in order. */
  lemma {:induction false} LoneWorkerDrains<T>(s: State<T>, t: nat) returns (steps: seq<Step<T>>)
    requires Inv(s) && !s.shutdown && t in s.workers && s.workers[t].Ready?
    ensures IsRun(s, steps)
    ensures var u := Final(s, steps); u.queue == [] && u.started == s.started + s.queue && u.workers == s.workers
    decreases |s.queue|
  {
    if s.queue == [] {
      steps := [];
    } else {
      LookAndFinish(s, t);
      var s1 := Apply(s, Look(t));
      var s2 := Apply(s1, Finish(t));
      steps := LoneWorkerDrains(s2, t);
      steps := OneMore(s1, Finish(t), steps);
      steps := OneMore(s, Look(t), steps);
      HeadStarts(s.started, s.queue);
    }
  }

  /** A task added while a worker sleeps or is about to look is started by it, after those queued before. */
  lemma AddedIsStarted<T>(s: State<T>, task: T, t: nat) returns (steps: seq<Step<T>>)
    requires Inv(s) && !s.shutdown && |s.queue| < |s.cells|
    requires t in s.workers && (s.workers[t].Asleep? || s.workers[t].Ready?)
    ensures IsRun(s, steps) && steps != [] && steps[0].Add? && steps[0].task == task
    ensures var u := Final(s, steps); u.queue == [] && u.started == s.started + s.queue + [task]
  {
    var woken := AddCompletes(s, task, t);
    AddInv(s, task, woken);
    var drain := LoneWorkerDrains(Apply(s, Add(task, woken)), t);
    steps := OneMore(s, Add(task, woken), drain);
    assert s.started + (s.queue + [task]) == s.started + s.queue + [task];
  }

  /** In a new pool the first worker starts the first task. */
  lemma FirstTaskStarts<T>(size: nat, task: T, t: nat) returns (steps: seq<Step<T>>)
    requires size > 0
    ensures IsRun(Init(size), steps) && steps != [] && steps[0] == Spawn(t)
    ensures Final(Init(size), steps).started == [task]
  {
    InitInv<T>(size);
    var s := Apply(Init<T>(size), Spawn(t));
    StepInv(Init<T>(size), Spawn(t));
    var rest := AddedIsStarted(s, task, t);
    steps := OneMore(Init<T>(size), Spawn(t), rest);
  }

  /** With nothing queued a worker that looks goes to sleep; a spurious wake makes it look again. */
  lemma IdleSleeps<T>(s: State<T>, t: nat)
    requires Inv(s) && !s.shutdown && s.queue == [] && t in s.workers && s.workers[t].Ready?
    ensures Enabled(s, Look(t)) && Apply(s, Look(t)) == s.(workers := s.workers[t := Asleep])
    ensures Enabled(Apply(s, Look(t)), Wake(t)) && Apply(Apply(s, Look(t)), Wake(t)) == s
  {
    assert s.workers[t := Asleep][t := Ready] == s.workers;
  }

  /** After a stop, a worker that is there leaves as soon as it has finished its task. */
  lemma StopEndsWorkers<T>(s: State<T>, t: nat) returns (steps: seq<Step<T>>)
    requires Inv(s) && t in s.workers && !s.workers[t].Gone?
    ensures IsRun(s, steps) && steps != [] && steps[0] == Stop
    ensures var u := Final(s, steps);
            u.shutdown && t in u.workers && u.workers[t].Gone? && u.started == s.started && u.queue == s.queue
  {
    StopInv(s);
    var s1 := Apply(s, Stop);
    assert s1.workers[t].Asleep? ==> t in Sleepers(s1.workers);
    if s1.workers[t].Running? {
      var s2 := Apply(s1, Finish(t));
      steps := OneMore(s2, Look(t), []);
      steps := OneMore(s1, Finish(t), steps);
    } else {
      steps := OneMore(s1, Look(t), []);
    }
    steps := OneMore(s, Stop, steps);
  }
}
