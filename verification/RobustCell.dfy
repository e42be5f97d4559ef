/**
 * A shared number behind a robust mutex (shmmbuf.h): any number of processes read, set or
 * compare and exchange it, and may die at any step.  A process that inherits the mutex
 * of a dead owner makes it consistent, gives it up, and starts over.  Waiting for the
 * mutex is not a step.  log is history.
 */
module RobustCell {
  datatype Call = Get | Set(v: int) | CompExch(comp: int, exch: int)

  /** The mutex; Dirty: inherited from a dead owner and not made consistent; Ruined: given up dirty, unusable for good. */
  datatype Mutex = Free | Held(p: nat) | Dirty(p: nat) | OwnerDead | Ruined

  datatype Pc =
    | Waiting(call: Call)
    | Inherited(call: Call)
    | Repaired(call: Call)
    | Inside(call: Call)
    | HasOld(call: Call, old_: int)
    | Done(call: Call, old_: int)

  /** A call as it took effect: whose it was, what it found and what it left. */
  datatype Entry = Entry(p: nat, call: Call, found: int, left: int)

  datatype State = State(value: int, mutex: Mutex, pc: map<nat, Pc>, log: seq<Entry>)

  datatype Step =
    | Begin(p: nat, call: Call)
    | Lock(p: nat)
    | LockDead(p: nat)
    | Repair(p: nat)
    | GiveUp(p: nat)
    | ReadOld(p: nat)
    | Act(p: nat)
    | Unlock(p: nat)
    | Die(p: nat)

  function Init(value: int): State {
    State(value, Free, map[], [])
  }

  /** What a call alone would leave. */
  function Effect(call: Call, v: int): int {
    match call
    case Get => v
    case Set(x) => x
    case CompExch(comp, exch) => if v == comp then exch else v
  }

  predicate Enabled(s: State, a: Step) {
    match a
    case Begin(p, _) => p !in s.pc
    case Lock(p) => p in s.pc && s.pc[p].Waiting? && s.mutex == Free
    case LockDead(p) => p in s.pc && s.pc[p].Waiting? && s.mutex == OwnerDead
    case Repair(p) => p in s.pc && s.pc[p].Inherited?
    case GiveUp(p) => p in s.pc && s.pc[p].Repaired?
    case ReadOld(p) => p in s.pc && s.pc[p].Inside?
    case Act(p) => p in s.pc && s.pc[p].HasOld?
    case Unlock(p) => p in s.pc && s.pc[p].Done?
    case Die(p) => p in s.pc
  }

  predicate Owner(m: Mutex, p: nat) {
    m == Held(p) || m == Dirty(p)
  }

  /** pthread_mutex_unlock on a robust mutex. */
  function Unlocked(m: Mutex, p: nat): Mutex {
    if m == Held(p) then Free else if m == Dirty(p) then Ruined else m
  }

  function Apply(s: State, a: Step): State
    requires Enabled(s, a)
  {
    match a
    case Begin(p, call) => s.(pc := s.pc[p := Waiting(call)])
    case Lock(p) => s.(mutex := Held(p), pc := s.pc[p := Inside(s.pc[p].call)])
    case LockDead(p) => s.(mutex := Dirty(p), pc := s.pc[p := Inherited(s.pc[p].call)])
    case Repair(p) => s.(mutex := if s.mutex == Dirty(p) then Held(p) else s.mutex, pc := s.pc[p := Repaired(s.pc[p].call)])
    case GiveUp(p) => s.(mutex := Unlocked(s.mutex, p), pc := s.pc[p := Waiting(s.pc[p].call)])
    case ReadOld(p) => s.(pc := s.pc[p := HasOld(s.pc[p].call, s.value)])
    case Act(p) =>
      var call, v := s.pc[p].call, Effect(s.pc[p].call, s.value);
      s.(value := v, pc := s.pc[p := Done(call, s.pc[p].old_)], log := s.log + [Entry(p, call, s.pc[p].old_, v)])
    case Unlock(p) => s.(mutex := Unlocked(s.mutex, p), pc := s.pc - {p})
    case Die(p) => s.(mutex := if Owner(s.mutex, p) then OwnerDead else s.mutex, pc := s.pc - {p})
  }

  // ---------------------------------------------------------------- what every step keeps

  /** Calls in order, each finding what the one before left. */
  predicate Atomic(log: seq<Entry>, start: int, value: int) {
    if log == [] then value == start
    else
      var e := log[|log| - 1];
      e.left == value && e.left == Effect(e.call, e.found) && Atomic(log[..|log| - 1], start, e.found)
  }

  /** A process past the mutex owns it, and what it has read is still there. */
  predicate InPlace(p: nat, c: Pc, mutex: Mutex, value: int, log: seq<Entry>) {
    match c
    case Waiting(_) => !Owner(mutex, p)
    case Inherited(_) => mutex == Dirty(p)
    case HasOld(_, old_) => mutex == Held(p) && old_ == value
    case Done(call, old_) => mutex == Held(p) && log != [] && log[|log| - 1] == Entry(p, call, old_, value)
    case _ => mutex == Held(p)
  }

  ghost predicate Inv(s: State, start: int) {
    && s.mutex != Ruined && Atomic(s.log, start, s.value)
    && (forall p :: p in s.pc ==> InPlace(p, s.pc[p], s.mutex, s.value, s.log))
    && (forall p :: Owner(s.mutex, p) ==> p in s.pc)
  }

  lemma ActInv(s: State, start: int, p: nat)
    requires Inv(s, start) && Enabled(s, Act(p))
    ensures Inv(Apply(s, Act(p)), start)
  {
    var s' := Apply(s, Act(p));
    assert s'.log[..|s'.log| - 1] == s.log;
    forall q | q in s'.pc
      ensures InPlace(q, s'.pc[q], s'.mutex, s'.value, s'.log)
    {
      assert InPlace(p, s.pc[p], s.mutex, s.value, s.log) && InPlace(q, s.pc[q], s.mutex, s.value, s.log);
    }
  }

  lemma StepInv(s: State, start: int, a: Step)
    requires Inv(s, start) && Enabled(s, a)
    ensures Inv(Apply(s, a), start)
  {
    if a.Act? {
      ActInv(s, start, a.p);
    } else {
      assert a.p in s.pc ==> InPlace(a.p, s.pc[a.p], s.mutex, s.value, s.log);
    }
  }

  predicate IsRun(s: State, steps: seq<Step>)
    decreases |steps|
  {
    steps == [] || (Enabled(s, steps[0]) && IsRun(Apply(s, steps[0]), steps[1..]))
  }

  function Final(s: State, steps: seq<Step>): State
    requires IsRun(s, steps)
    decreases |steps|
  {
    if steps == [] then s else Final(Apply(s, steps[0]), steps[1..])
  }

  // ---------------------------------------------------------------- what it gives

  /**
   * In every run, whoever dies and whenever: the calls that took effect did so one after
   * the other, each answered with what the one before left; the number is what the last
   * one left; and the mutex can always be taken again.
   */
  lemma {:induction false} RunIsAtomic(s: State, start: int, steps: seq<Step>)
    requires Inv(s, start) && IsRun(s, steps)
    ensures var t := Final(s, steps); Inv(t, start) && Atomic(t.log, start, t.value) && t.mutex != Ruined
    decreases |steps|
  {
    if steps != [] {
      StepInv(s, start, steps[0]);
      RunIsAtomic(Apply(s, steps[0]), start, steps[1..]);
    }
  }

  /** A set leaves its argument, a get what it found, a compare-exchange its second argument exactly if it found its first. */
  predicate LeavesRight(e: Entry) {
    && (e.call.Get? ==> e.left == e.found)
    && (e.call.Set? ==> e.left == e.call.v)
    && (e.call.CompExch? && e.found == e.call.comp ==> e.left == e.call.exch)
    && (e.call.CompExch? && e.found != e.call.comp ==> e.left == e.found)
  }

  /** From start to value, each call finds what the one before left, and leaves what it should. */
  ghost predicate Chained(log: seq<Entry>, start: int, value: int) {
    && value == (if log == [] then start else log[|log| - 1].left)
    && (log != [] ==> log[0].found == start)
    && (forall i :: 0 < i < |log| ==> log[i].found == log[i - 1].left)
    && (forall i :: 0 <= i < |log| ==> LeavesRight(log[i]))
  }

  lemma {:induction false} AtomicMeans(log: seq<Entry>, start: int, value: int)
    requires Atomic(log, start, value)
    ensures Chained(log, start, value)
  {
    if log != [] {
      var n := |log| - 1;
      AtomicMeans(log[..n], start, log[n].found);
      assert forall i :: 0 <= i < n ==> log[..n][i] == log[i];
    }
  }

  /**
   * In every run the calls that took effect did so one after the other, the first finding
   * the first number and the last leaving the present one; a call that is done is the last,
   * answered with what it found.
   */
  lemma EveryRunIsAtomic(start: int, steps: seq<Step>)
    requires IsRun(Init(start), steps)
    ensures var t := Final(Init(start), steps);
            && Chained(t.log, start, t.value) && t.mutex != Ruined
            && forall p :: p in t.pc && t.pc[p].Done? ==>
                 t.log != [] && t.log[|t.log| - 1] == Entry(p, t.pc[p].call, t.pc[p].old_, t.value)
  {
    RunIsAtomic(Init(start), start, steps);
    AtomicMeans(Final(Init(start), steps).log, start, Final(Init(start), steps).value);
  }

  /** The calls of process p that took effect, in order. */
  function Mine(log: seq<Entry>, p: nat): seq<Call> {
    if log == [] then []
    else
      var rest, e := Mine(log[..|log| - 1], p), log[|log| - 1];
      if e.p == p then rest + [e.call] else rest
  }

  /** While one call of p lasts: p does not begin another, finish, or die. */
  predicate SameCall(p: nat, steps: seq<Step>) {
    forall a :: a in steps ==> a != Unlock(p) && a != Die(p) && !(a.Begin? && a.p == p)
  }

  /** How far the call of p has come, counting from the log before it. */
  predicate InCall(s: State, p: nat, call: Call, before: seq<Call>) {
    && p in s.pc && s.pc[p].call == call
    && Mine(s.log, p) == if s.pc[p].Done? then before + [call] else before
  }

  lemma StepInCall(s: State, a: Step, p: nat, call: Call, before: seq<Call>)
    requires Enabled(s, a) && InCall(s, p, call, before) && SameCall(p, [a])
    ensures InCall(Apply(s, a), p, call, before)
  {
    assert a in [a];
    if a.Act? {
      MineSnoc(s.log, Entry(a.p, s.pc[a.p].call, s.pc[a.p].old_, Effect(s.pc[a.p].call, s.value)), p);
    }
  }

  lemma MineSnoc(log: seq<Entry>, e: Entry, p: nat)
    ensures Mine(log + [e], p) == if e.p == p then Mine(log, p) + [e.call] else Mine(log, p)
  {
    assert (log + [e])[..|log|] == log;
  }

  lemma {:induction false} RunInCall(s: State, steps: seq<Step>, p: nat, call: Call, before: seq<Call>)
    requires IsRun(s, steps) && InCall(s, p, call, before) && SameCall(p, steps)
    ensures InCall(Final(s, steps), p, call, before)
    decreases |steps|
  {
    if steps != [] {
      assert steps[0] in steps;
      StepInCall(s, steps[0], p, call, before);
      RunInCall(Apply(s, steps[0]), steps[1..], p, call, before);
    }
  }

  /**
   * A process that begins a call and dies at any later step of it, whatever the others do
   * meanwhile, leaves the call wholly done or not begun: of its calls at most this one was
   * added, and the number is what the calls that took effect make of it one after the other.
   */
  lemma DeathIsAllOrNothing(s: State, start: int, p: nat, call: Call, steps: seq<Step>)
    requires Inv(s, start) && p !in s.pc
    requires IsRun(Apply(s, Begin(p, call)), steps) && SameCall(p, steps)
    ensures var t := Final(Apply(s, Begin(p, call)), steps);
            && Enabled(t, Die(p))
            && (var u := Apply(t, Die(p));
                && p !in u.pc && u.mutex == (if Owner(t.mutex, p) then OwnerDead else t.mutex) && u.value == t.value
                && (Mine(u.log, p) == Mine(s.log, p) || Mine(u.log, p) == Mine(s.log, p) + [call])
                && Chained(u.log, start, u.value) && Inv(u, start))
  {
    var s1 := Apply(s, Begin(p, call));
    StepInv(s, start, Begin(p, call));
    RunIsAtomic(s1, start, steps);
    RunInCall(s1, steps, p, call, Mine(s.log, p));
    StepInv(Final(s1, steps), start, Die(p));
    AtomicMeans(Final(s1, steps).log, start, Final(s1, steps).value);
  }

  /** Run b after run a. */
  lemma {:induction false} RunConcat(s: State, a: seq<Step>, b: seq<Step>)
    requires IsRun(s, a) && IsRun(Final(s, a), b)
    ensures IsRun(s, a + b) && Final(s, a + b) == Final(Final(s, a), b)
    decreases |a|
  {
    if a == [] {
      assert a + b == b;
    } else {
      assert (a + b)[1..] == a[1..] + b;
      RunConcat(Apply(s, a[0]), a[1..], b);
    }
  }

  /** A process that waits for a free mutex completes its call. */
  lemma WaiterCompletes(s: State, p: nat) returns (steps: seq<Step>)
    requires s.mutex == Free && p in s.pc && s.pc[p].Waiting?
    ensures IsRun(s, steps) && forall a :: a in steps ==> a.p == p
    ensures var t, call := Final(s, steps), s.pc[p].call;
            && t.mutex == Free && t.pc == s.pc - {p}
            && t.log == s.log + [Entry(p, call, s.value, t.value)] && LeavesRight(t.log[|s.log|])
  {
    var s1 := Apply(s, Lock(p));
    var s2 := Apply(s1, ReadOld(p));
    var s3 := Apply(s2, Act(p));
    var s4 := Apply(s3, Unlock(p));
    steps := OneMore(s3, Unlock(p), []);
    steps := OneMore(s2, Act(p), steps);
    steps := OneMore(s1, ReadOld(p), steps);
    steps := OneMore(s, Lock(p), steps);
    assert Final(s, steps) == s4;
  }

  /** Given up without repair, an inherited mutex would be lost for good. */
  lemma RepairIsNeeded(p: nat)
    ensures Unlocked(Dirty(p), p) == Ruined && Unlocked(Held(p), p) == Free
  {
  }

  /** A waiting process that inherits the mutex of a dead owner repairs it, gives it up and starts over. */
  lemma WaiterRepairs(s: State, p: nat) returns (steps: seq<Step>)
    requires s.mutex == OwnerDead && p in s.pc && s.pc[p].Waiting?
    ensures IsRun(s, steps) && forall a :: a in steps ==> a.p == p
    ensures Final(s, steps) == s.(mutex := Free)
  {
    var s1 := Apply(s, LockDead(p));
    var s2 := Apply(s1, Repair(p));
    var s3 := Apply(s2, GiveUp(p));
    steps := OneMore(s2, GiveUp(p), []);
    steps := OneMore(s1, Repair(p), steps);
    steps := OneMore(s, LockDead(p), steps);
    assert Final(s, steps) == s3;
    assert s3.pc == s.pc;
  }

  /**
   * With the mutex free, or its owner dead, a process alone completes its call: a set stores
   * its argument, a get changes nothing, and a compare-exchange stores its second argument
   * exactly if it finds its first; the answer is the number found.
   */
  lemma RecoveryCompletes(s: State, p: nat, call: Call) returns (steps: seq<Step>)
    requires (s.mutex == Free || s.mutex == OwnerDead) && p !in s.pc
    ensures IsRun(s, steps) && forall a :: a in steps ==> a.p == p
    ensures var t := Final(s, steps);
            && t.mutex == Free && t.pc == s.pc
            && t.log == s.log + [Entry(p, call, s.value, t.value)] && LeavesRight(t.log[|s.log|])
  {
    var s1 := Apply(s, Begin(p, call));
    var start := OneMore(s, Begin(p, call), []);
    if s.mutex == OwnerDead {
      var repair := WaiterRepairs(s1, p);
      RunConcat(s, start, repair);
      start := start + repair;
    }
    var rest := WaiterCompletes(Final(s, start), p);
    RunConcat(s, start, rest);
    steps := start + rest;
    assert s1.pc - {p} == s.pc;
  }

  /** A number set is the answer of the next get. */
  lemma SetThenGet(s: State, p: nat, q: nat, x: int) returns (steps: seq<Step>)
    requires (s.mutex == Free || s.mutex == OwnerDead) && p !in s.pc && q !in s.pc
    ensures IsRun(s, steps)
    ensures Final(s, steps).value == x
    ensures Final(s, steps).log == s.log + [Entry(p, Set(x), s.value, x)] + [Entry(q, Get, x, x)]
  {
    var put := RecoveryCompletes(s, p, Set(x));
    var get := RecoveryCompletes(Final(s, put), q, Get);
    RunConcat(s, put, get);
    steps := put + get;
  }

  lemma OneMore(s: State, a: Step, rest: seq<Step>) returns (steps: seq<Step>)
    requires Enabled(s, a) && IsRun(Apply(s, a), rest)
    ensures steps == [a] + rest && IsRun(s, steps) && Final(s, steps) == Final(Apply(s, a), rest)
  {
    steps := [a] + rest;
    assert steps[1..] == rest;
  }
}
