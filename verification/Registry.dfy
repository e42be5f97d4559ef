/** The tables of the logger registry (loggermgr.c): loggers by name, and loggers by id with their number in slot 0. */
module RegistryTables {
  import opened Wrappers

  type Ident = string

  const CLOG_LOGGERID_MAX: nat := 255

  /** serial tells apart the loggers ever created. */
  datatype Logger = Logger(serial: nat, ident: Ident, id: nat)

  /** A word-sized cell: a small number (0 being NULL) or a logger. */
  datatype Cell = Int(n: nat) | Ref(logger: Logger)

  /** The loggers made so far, in order: each an object of its own, ids from 1 on, no name twice. */
  ghost predicate Made(made: seq<Logger>) {
    && |made| <= CLOG_LOGGERID_MAX
    && (forall j :: 0 <= j < |made| ==> made[j].id == j + 1 && made[j].serial == j)
    && (forall i, j :: 0 <= i < |made| && 0 <= j < |made| && made[i].ident == made[j].ident ==> i == j)
  }

  function CellFor(made: seq<Logger>, count: nat, i: int): Cell {
    if i == 0 then Int(count) else if 1 <= i <= |made| then Ref(made[i - 1]) else Int(0)
  }

  /** The id table: slot 0 counts, slots 1.. hold the loggers in order, the rest are NULL. */
  ghost predicate IdTable(cells: seq<Cell>, made: seq<Logger>, count: nat) {
    |cells| == CLOG_LOGGERID_MAX + 1 && forall i :: 0 <= i < |cells| ==> cells[i] == CellFor(made, count, i)
  }

  /** The name table holds exactly the loggers made, each under its name. */
  ghost predicate NameTable(loggers: map<Ident, Logger>, made: seq<Logger>) {
    && (forall j :: 0 <= j < |made| ==> Bound(loggers, made[j]))
    && (forall x :: x in loggers ==> loggers[x] in made && loggers[x].ident == x)
  }

  predicate Bound(loggers: map<Ident, Logger>, l: Logger) {
    l.ident in loggers && loggers[l.ident] == l
  }

  /** What logger_manager_get_shared reads. */
  function Lookup(cells: seq<Cell>, loggerid: int): Option<Logger>
    requires |cells| == CLOG_LOGGERID_MAX + 1
  {
    if loggerid == 0 then Target(cells[1])
    else if loggerid == -1 then
      if cells[0].Int? && cells[0].n < |cells| then Target(cells[cells[0].n]) else None
    else if 0 < loggerid <= CLOG_LOGGERID_MAX then Target(cells[loggerid])
    else None
  }

  function Target(c: Cell): Option<Logger> {
    match c
    case Int(_) => None
    case Ref(l) => Some(l)
  }

  /** 0 is the first logger, -1 the last, a number in between its own; everything else is none. */
  lemma LookupMeans(cells: seq<Cell>, made: seq<Logger>, loggerid: int)
    requires Made(made) && IdTable(cells, made, |made|)
    ensures var j := if loggerid == 0 then 0 else if loggerid == -1 then |made| - 1 else loggerid - 1;
            Lookup(cells, loggerid) == if loggerid >= -1 && 0 <= j < |made| then Some(made[j]) else None
  {
  }

  /** The id table and the name table agree. */
  lemma TablesAgree(cells: seq<Cell>, loggers: map<Ident, Logger>, made: seq<Logger>, x: Ident)
    requires Made(made) && IdTable(cells, made, |made|) && NameTable(loggers, made) && x in loggers
    ensures 1 <= loggers[x].id <= |made| && cells[0] == Int(|made|) && Lookup(cells, loggers[x].id) == Some(loggers[x])
  {
    var j :| 0 <= j < |made| && made[j] == loggers[x];
  }

  lemma MadeMore(made: seq<Logger>, loggers: map<Ident, Logger>, l: Logger)
    requires Made(made) && NameTable(loggers, made) && l.ident !in loggers && l.id == |made| + 1 <= CLOG_LOGGERID_MAX
    requires l.serial == |made|
    ensures Made(made + [l]) && NameTable(loggers[l.ident := l], made + [l])
  {
    var more := made + [l];
    forall i | 0 <= i < |made|
      ensures made[i].ident != l.ident
    {
      assert Bound(loggers, made[i]);
    }
    forall j | 0 <= j < |more|
      ensures Bound(loggers[l.ident := l], more[j])
    {
      assert j < |made| ==> Bound(loggers, made[j]);
    }
    assert more[|made|] == l;
    forall x | x in loggers
      ensures loggers[x] in more
    {
      assert loggers[x] in made;
    }
  }
}

/** The registry object, called by one thread. */
module Registry {
  import opened Wrappers
  import opened RegistryTables

  class Manager {
    const cfgfile: bool
    var loggers: map<Ident, Logger>
    var idloggers: seq<Cell>
    var created: nat
    ghost var made: seq<Logger>

    ghost predicate Valid()
      reads this
    {
      Made(made) && IdTable(idloggers, made, |made|) && NameTable(loggers, made) && created == |made|
    }

    constructor (cfgfile: bool)
      ensures Valid() && this.cfgfile == cfgfile && made == []
    {
      this.cfgfile, loggers, idloggers := cfgfile, map[], seq(CLOG_LOGGERID_MAX + 1, _ => Int(0));
      created, made := 0, [];
    }

    /**
     * logger_manager_load_shared for a name; configured and creatable say how loading its
     * settings and creating a logger turn out.
     */
    method LoadShared(ident: Ident, configured: bool, creatable: bool) returns (logger: Option<Logger>)
      requires Valid()
      modifies this
      ensures Valid()
      ensures cfgfile && ident in old(loggers) ==> logger == Some(old(loggers)[ident]) && made == old(made)
      ensures ident !in old(loggers) || !cfgfile ==>
                if cfgfile && |old(made)| < 255 && configured && creatable
                then logger.Some? && logger.value.ident == ident && logger.value.id == |old(made)| + 1
                     && made == old(made) + [logger.value]
                else logger == None && made == old(made)
    {
      logger := None;
      if !cfgfile {
        return;
      }
      if ident in loggers {
        return Some(loggers[ident]);
      }
      var maxloggerid := idloggers[0].n;
      if maxloggerid < CLOG_LOGGERID_MAX {
        if !configured {
          return;
        }
        if creatable {
          var l := Logger(created, ident, maxloggerid + 1);
          MadeMore(made, loggers, l);
          created := created + 1;
          idloggers := idloggers[l.id := Ref(l)];
          idloggers := idloggers[0 := Int(l.id)];
          loggers := loggers[ident := l];
          made := made + [l];
          logger := Some(l);
        }
      }
    }

    /** logger_manager_get_shared */
    method GetShared(loggerid: int) returns (logger: Option<Logger>)
      requires Valid()
      ensures var j := if loggerid == 0 then 0 else if loggerid == -1 then |made| - 1 else loggerid - 1;
              logger == if loggerid >= -1 && 0 <= j < |made| then Some(made[j]) else None
    {
      logger := None;
      LookupMeans(idloggers, made, loggerid);
      if loggerid == 0 {
        return Target(idloggers[1]);
      }
      if loggerid == -1 {
        var lastid := idloggers[0].n;
        return Target(idloggers[lastid]);
      }
      if loggerid > 0 && loggerid <= CLOG_LOGGERID_MAX {
        return Target(idloggers[loggerid]);
      }
    }
  }
}

/**
 * Concurrent loads of any names by any number of threads, under a readers-writer lock
 * that is given up between looking and adding.  Waiting for the lock is not a step.
 * made, given and the serials are history.
 */
module RegistryMachine {
  import opened Wrappers
  import opened RegistryTables

  datatype Pc =
    | WantsRead(ident: Ident)
    | Reading(ident: Ident)
    | WantsWrite(ident: Ident)
    | Writing(ident: Ident)
    | Creating(ident: Ident, id: nat)
    | Created(logger: Logger)
    | InIds(logger: Logger)
    | Counted(logger: Logger)
    | Returning(ident: Ident, result: Option<Logger>)

  datatype State = State(
    loggers: map<Ident, Logger>, cells: seq<Cell>, readers: set<nat>, writer: Option<nat>, pc: map<nat, Pc>,
    serial: nat, made: seq<Logger>, given: set<(Ident, Logger)>)

  datatype Step =
    | Call(t: nat, ident: Ident)
    | AcquireRead(t: nat)
    | FindFirst(t: nat)
    | AcquireWrite(t: nat)
    | FindAgain(t: nat)
    | Create(t: nat, ok: bool)
    | StoreId(t: nat)
    | StoreCount(t: nat)
    | AddName(t: nat)
    | Return(t: nat)

  function Init(): State {
    State(map[], seq(CLOG_LOGGERID_MAX + 1, _ => Int(0)), {}, None, map[], 0, [], {})
  }

  predicate Enabled(s: State, a: Step) {
    match a
    case Call(t, _) => t !in s.pc
    case AcquireRead(t) => t in s.pc && s.pc[t].WantsRead? && s.writer == None
    case FindFirst(t) => t in s.pc && s.pc[t].Reading?
    case AcquireWrite(t) => t in s.pc && s.pc[t].WantsWrite? && s.writer == None && s.readers == {}
    case FindAgain(t) => t in s.pc && s.pc[t].Writing? && |s.cells| > 0
    case Create(t, _) => t in s.pc && s.pc[t].Creating?
    case StoreId(t) => t in s.pc && s.pc[t].Created? && s.pc[t].logger.id < |s.cells|
    case StoreCount(t) => t in s.pc && s.pc[t].InIds? && |s.cells| > 0
    case AddName(t) => t in s.pc && s.pc[t].Counted?
    case Return(t) => t in s.pc && s.pc[t].Returning?
  }

  function Number(c: Cell): nat {
    match c
    case Int(n) => n
    case Ref(_) => CLOG_LOGGERID_MAX
  }

  /** A lookup under the read lock gives the lock up in the same step: nothing shared is touched in between. */
  function Apply(s: State, a: Step): State
    requires Enabled(s, a)
  {
    match a
    case Call(t, x) => s.(pc := s.pc[t := WantsRead(x)])
    case AcquireRead(t) => s.(pc := s.pc[t := Reading(s.pc[t].ident)], readers := s.readers + {t})
    case FindFirst(t) =>
      var x := s.pc[t].ident;
      s.(readers := s.readers - {t},
         pc := s.pc[t := if x in s.loggers then Returning(x, Some(s.loggers[x])) else WantsWrite(x)])
    case AcquireWrite(t) => s.(pc := s.pc[t := Writing(s.pc[t].ident)], writer := Some(t))
    case FindAgain(t) =>
      var x := s.pc[t].ident;
      if x in s.loggers then s.(writer := None, pc := s.pc[t := Returning(x, Some(s.loggers[x]))])
      else if Number(s.cells[0]) < CLOG_LOGGERID_MAX then s.(pc := s.pc[t := Creating(x, Number(s.cells[0]) + 1)])
      else s.(writer := None, pc := s.pc[t := Returning(x, None)])
    case Create(t, ok) =>
      var x := s.pc[t].ident;
      if ok then s.(serial := s.serial + 1, pc := s.pc[t := Created(Logger(s.serial, x, s.pc[t].id))])
      else s.(writer := None, pc := s.pc[t := Returning(x, None)])
    case StoreId(t) =>
      var l := s.pc[t].logger;
      s.(cells := s.cells[l.id := Ref(l)], pc := s.pc[t := InIds(l)])
    case StoreCount(t) =>
      var l := s.pc[t].logger;
      s.(cells := s.cells[0 := Int(l.id)], pc := s.pc[t := Counted(l)])
    case AddName(t) =>
      var l := s.pc[t].logger;
      s.(loggers := s.loggers[l.ident := l], writer := None, made := s.made + [l], pc := s.pc[t := Returning(l.ident, Some(l))])
    case Return(t) =>
      var p := s.pc[t];
      s.(pc := s.pc - {t}, given := if p.result.Some? then s.given + {(p.ident, p.result.value)} else s.given)
  }

  // ---------------------------------------------------------------- what every step keeps

  predicate HoldsWrite(p: Pc) {
    p.Writing? || p.Creating? || p.Created? || p.InIds? || p.Counted?
  }

  /** What the thread with the write lock has done to the tables. */
  ghost predicate PartDone(p: Pc, loggers: map<Ident, Logger>, cells: seq<Cell>, made: seq<Logger>) {
    match p
    case Creating(x, id) => IdTable(cells, made, |made|) && x !in loggers && id == |made| + 1 <= CLOG_LOGGERID_MAX
    case Created(l) => IdTable(cells, made, |made|) && Next(l, loggers, made)
    case InIds(l) => IdTable(cells, made + [l], |made|) && Next(l, loggers, made)
    case Counted(l) => IdTable(cells, made + [l], |made| + 1) && Next(l, loggers, made)
    case _ => IdTable(cells, made, |made|)
  }

  predicate Next(l: Logger, loggers: map<Ident, Logger>, made: seq<Logger>) {
    l.ident !in loggers && l.id == |made| + 1 <= CLOG_LOGGERID_MAX && l.serial == |made|
  }

  predicate HasLogger(p: Pc) {
    p.Created? || p.InIds? || p.Counted?
  }

  /** The lock keeps writers from each other and from readers. */
  ghost predicate Locked(pc: map<nat, Pc>, readers: set<nat>, writer: Option<nat>) {
    && (forall t :: t in pc && HoldsWrite(pc[t]) ==> writer == Some(t))
    && (writer.Some? ==> writer.value in pc && HoldsWrite(pc[writer.value]) && readers == {})
    && (forall t :: t in readers <==> t in pc && pc[t].Reading?)
  }

  /** Loggers handed out, or about to be, are the ones bound to their names. */
  ghost predicate Handed(s: State) {
    && (forall g :: g in s.given ==> g.0 in s.loggers && s.loggers[g.0] == g.1)
    && (forall t :: t in s.pc && s.pc[t].Returning? && s.pc[t].result.Some? ==>
          s.pc[t].ident in s.loggers && s.loggers[s.pc[t].ident] == s.pc[t].result.value)
  }

  ghost predicate Tables(s: State) {
    && Made(s.made) && NameTable(s.loggers, s.made)
    && (if s.writer.Some? && s.writer.value in s.pc then PartDone(s.pc[s.writer.value], s.loggers, s.cells, s.made)
        else IdTable(s.cells, s.made, |s.made|))
    && s.serial == |s.made| + if s.writer.Some? && s.writer.value in s.pc && HasLogger(s.pc[s.writer.value]) then 1 else 0
  }

  ghost predicate Inv(s: State) {
    Locked(s.pc, s.readers, s.writer) && Tables(s) && Handed(s)
  }

  lemma InitInv()
    ensures Inv(Init())
  {
  }

  /** A thread with the write lock goes on with it. */
  lemma WriterGoesOn(s: State, t: nat, p: Pc, s': State)
    requires Inv(s) && t in s.pc && HoldsWrite(s.pc[t]) && HoldsWrite(p)
    requires s' == s.(pc := s.pc[t := p], cells := s'.cells, serial := s'.serial) && PartDone(p, s.loggers, s'.cells, s.made)
    requires s'.serial == |s.made| + if HasLogger(p) then 1 else 0
    ensures Inv(s')
  {
  }

  /** A thread gives the write lock up with everything in place. */
  lemma WriterGoes(s: State, t: nat, x: Ident, r: Option<Logger>, s': State)
    requires Inv(s) && t in s.pc && HoldsWrite(s.pc[t]) && !HasLogger(s.pc[t])
    requires s' == s.(pc := s.pc[t := Returning(x, r)], writer := None) && IdTable(s.cells, s.made, |s.made|)
    requires r.Some? ==> x in s.loggers && s.loggers[x] == r.value
    ensures Inv(s')
  {
  }

  lemma FindAgainInv(s: State, t: nat)
    requires Inv(s) && Enabled(s, FindAgain(t))
    ensures Inv(Apply(s, FindAgain(t)))
  {
    var s', x := Apply(s, FindAgain(t)), s.pc[t].ident;
    assert IdTable(s.cells, s.made, |s.made|);
    assert s.cells[0] == Int(|s.made|);
    if s'.writer == None {
      WriterGoes(s, t, x, s'.pc[t].result, s');
    } else {
      WriterGoesOn(s, t, s'.pc[t], s');
    }
  }

  lemma CreateInv(s: State, t: nat, ok: bool)
    requires Inv(s) && Enabled(s, Create(t, ok))
    ensures Inv(Apply(s, Create(t, ok)))
  {
    var s' := Apply(s, Create(t, ok));
    if ok {
      WriterGoesOn(s, t, s'.pc[t], s');
    } else {
      WriterGoes(s, t, s.pc[t].ident, None, s');
    }
  }

  lemma StoreIdInv(s: State, t: nat)
    requires Inv(s) && Enabled(s, StoreId(t))
    ensures Inv(Apply(s, StoreId(t)))
  {
    var s' := Apply(s, StoreId(t));
    WriterGoesOn(s, t, s'.pc[t], s');
  }

  lemma StoreCountInv(s: State, t: nat)
    requires Inv(s) && Enabled(s, StoreCount(t))
    ensures Inv(Apply(s, StoreCount(t)))
  {
    var s' := Apply(s, StoreCount(t));
    WriterGoesOn(s, t, s'.pc[t], s');
  }

  lemma AddNameInv(s: State, t: nat)
    requires Inv(s) && Enabled(s, AddName(t))
    ensures Inv(Apply(s, AddName(t)))
  {
    var l, s' := s.pc[t].logger, Apply(s, AddName(t));
    MadeMore(s.made, s.loggers, l);
    assert Tables(s');
    StepExtends(s, AddName(t));
    assert Handed(s');
  }

  lemma StepInv(s: State, a: Step)
    requires Inv(s) && Enabled(s, a)
    ensures Inv(Apply(s, a))
  {
    match a
    case FindAgain(t) => FindAgainInv(s, t);
    case Create(t, ok) => CreateInv(s, t, ok);
    case StoreId(t) => StoreIdInv(s, t);
    case StoreCount(t) => StoreCountInv(s, t);
    case AddName(t) => AddNameInv(s, t);
    case _ =>
  }

  predicate IsRun(s: State, steps: seq<Step>)
    decreases |steps|
  {
    steps == [] || (Enabled(s, steps[0]) && IsRun(Apply(s, steps[0]), steps[1..]))
  }

  function Final(s: State, steps: seq<Step>): State
    requires IsRun(s, steps)
    decreases |steps|
  {
    if steps == [] then s else Final(Apply(s, steps[0]), steps[1..])
  }

  // ---------------------------------------------------------------- what it gives

  /** Bindings stay, and what was handed out stays handed out. */
  predicate Extends(s: State, t: State) {
    (forall x :: x in s.loggers ==> x in t.loggers && t.loggers[x] == s.loggers[x]) && s.given <= t.given
  }

  lemma StepExtends(s: State, a: Step)
    requires Inv(s) && Enabled(s, a)
    ensures Extends(s, Apply(s, a))
  {
  }

  lemma {:induction false} RunKeeps(s: State, steps: seq<Step>)
    requires Inv(s) && IsRun(s, steps)
    ensures Inv(Final(s, steps)) && Extends(s, Final(s, steps))
    decreases |steps|
  {
    if steps != [] {
      StepInv(s, steps[0]);
      StepExtends(s, steps[0]);
      RunKeeps(Apply(s, steps[0]), steps[1..]);
    }
  }

  /**
   * In every interleaving: a name has one logger, whoever asked for it and whenever; and
   * while nobody writes, ids are 1 to n with n at most 255, slot 0 holds n, and the two
   * tables agree.
   */
  lemma EveryRunKeepsTables(steps: seq<Step>)
    requires IsRun(Init(), steps)
    ensures var s := Final(Init(), steps);
            && (forall g, h :: g in s.given && h in s.given && g.0 == h.0 ==> g.1 == h.1)
            && Made(s.made) && NameTable(s.loggers, s.made)
            && (s.writer == None ==> IdTable(s.cells, s.made, |s.made|))
  {
    InitInv();
    RunKeeps(Init(), steps);
  }

  /** A reader sees whole tables: no lookup happens between two stores of an addition. */
  lemma ReadersSeeWholeTables(s: State, t: nat, loggerid: int)
    requires Inv(s) && t in s.pc && s.pc[t].Reading?
    ensures IdTable(s.cells, s.made, |s.made|)
    ensures var j := if loggerid == 0 then 0 else if loggerid == -1 then |s.made| - 1 else loggerid - 1;
            Lookup(s.cells, loggerid) == if loggerid >= -1 && 0 <= j < |s.made| then Some(s.made[j]) else None
  {
    assert t in s.readers;
    LookupMeans(s.cells, s.made, loggerid);
  }

  // ---------------------------------------------------------------- a load alone completes

  lemma OneMore(s: State, a: Step, rest: seq<Step>) returns (steps: seq<Step>)
    requires Enabled(s, a) && IsRun(Apply(s, a), rest)
    ensures steps == [a] + rest && IsRun(s, steps) && Final(s, steps) == Final(Apply(s, a), rest)
  {
    steps := [a] + rest;
    assert steps[1..] == rest;
  }

  lemma {:induction false} RunConcat(s: State, a: seq<Step>, b: seq<Step>)
    requires IsRun(s, a) && IsRun(Final(s, a), b)
    ensures IsRun(s, a + b) && Final(s, a + b) == Final(Final(s, a), b)
    decreases |a|
  {
    if a == [] {
      assert a + b == b;
    } else {
      assert (a + b)[1..] == a[1..] + b;
      RunConcat(Apply(s, a[0]), a[1..], b);
    }
  }

  predicate By(steps: seq<Step>, t: nat) {
    forall a :: a in steps ==> a.t == t
  }

  /** Nobody holds the lock, and t is not in a call. */
  predicate Quiet(s: State, t: nat) {
    s.writer == None && s.readers == {} && t !in s.pc
  }

  /** A load of a name that has a logger gives that logger and changes nothing else. */
  lemma LoneLoadFinds(s: State, t: nat, x: Ident) returns (steps: seq<Step>)
    requires Inv(s) && Quiet(s, t) && x in s.loggers
    ensures IsRun(s, steps) && By(steps, t) && steps != [] && steps[0] == Call(t, x)
    ensures Final(s, steps) == s.(given := s.given + {(x, s.loggers[x])})
  {
    var s1 := Apply(s, Call(t, x));
    var s2 := Apply(s1, AcquireRead(t));
    var s3 := Apply(s2, FindFirst(t));
    assert s3.readers == {} && s3.pc - {t} == s.pc;
    steps := OneMore(s3, Return(t), []);
    steps := OneMore(s2, FindFirst(t), steps);
    steps := OneMore(s1, AcquireRead(t), steps);
    steps := OneMore(s, Call(t, x), steps);
  }

  /** A load of a new name comes to hold the write lock. */
  lemma ToWrite(s: State, t: nat, x: Ident) returns (steps: seq<Step>)
    requires Quiet(s, t) && x !in s.loggers
    ensures IsRun(s, steps) && By(steps, t) && steps != [] && steps[0] == Call(t, x)
    ensures Final(s, steps) == s.(writer := Some(t), pc := s.pc[t := Writing(x)]) && forall a :: a in steps ==> !a.Create?
  {
    var s1 := Apply(s, Call(t, x));
    var s2 := Apply(s1, AcquireRead(t));
    var s3 := Apply(s2, FindFirst(t));
    var s4 := Apply(s3, AcquireWrite(t));
    assert s3.readers == {} && s4.pc == s.pc[t := Writing(x)];
    steps := OneMore(s3, AcquireWrite(t), []);
    steps := OneMore(s2, FindFirst(t), steps);
    steps := OneMore(s1, AcquireRead(t), steps);
    steps := OneMore(s, Call(t, x), steps);
  }

  /** A logger created is stored and returned. */
  lemma StoreThrough(s: State, t: nat, l: Logger) returns (steps: seq<Step>)
    requires t in s.pc && s.pc[t] == Created(l) && 0 < l.id < |s.cells|
    ensures IsRun(s, steps) && By(steps, t)
    ensures Final(s, steps) == s.(loggers := s.loggers[l.ident := l], cells := s.cells[l.id := Ref(l)][0 := Int(l.id)],
                                  writer := None, made := s.made + [l], pc := s.pc - {t}, given := s.given + {(l.ident, l)})
  {
    var s1 := Apply(s, StoreId(t));
    var s2 := Apply(s1, StoreCount(t));
    var s3 := Apply(s2, AddName(t));
    assert s3.pc - {t} == s.pc - {t};
    steps := OneMore(s3, Return(t), []);
    steps := OneMore(s2, AddName(t), steps);
    steps := OneMore(s1, StoreCount(t), steps);
    steps := OneMore(s, StoreId(t), steps);
  }

  /** With room and a logger that can be created, from the write lock to the return of it. */
  lemma WriteThrough(s: State, t: nat, x: Ident) returns (steps: seq<Step>)
    requires t in s.pc && s.pc[t] == Writing(x) && x !in s.loggers && |s.cells| == 256
    requires s.cells[0].Int? && s.cells[0].n < 255
    ensures IsRun(s, steps) && By(steps, t)
    ensures var l := Logger(s.serial, x, s.cells[0].n + 1);
            Final(s, steps) == s.(loggers := s.loggers[x := l], cells := s.cells[l.id := Ref(l)][0 := Int(l.id)],
                                  writer := None, serial := s.serial + 1, made := s.made + [l], pc := s.pc - {t},
                                  given := s.given + {(x, l)})
  {
    var s1 := Apply(s, FindAgain(t));
    var s2 := Apply(s1, Create(t, true));
    var l := Logger(s.serial, x, s.cells[0].n + 1);
    assert s2.pc - {t} == s.pc - {t};
    steps := StoreThrough(s2, t, l);
    steps := OneMore(s1, Create(t, true), steps);
    steps := OneMore(s, FindAgain(t), steps);
  }

  /** A load of a new name by a thread alone, with fewer than 255 loggers, makes its logger and hands it out. */
  lemma LoneLoadCreates(s: State, t: nat, x: Ident) returns (steps: seq<Step>, l: Logger)
    requires Inv(s) && Quiet(s, t) && x !in s.loggers && |s.made| < 255
    ensures IsRun(s, steps) && By(steps, t) && steps != [] && steps[0] == Call(t, x)
    ensures l.ident == x && l.id == |s.made| + 1
    ensures var u := Final(s, steps);
            && Inv(u) && Quiet(u, t) && u.pc == s.pc && u.made == s.made + [l] && u.loggers == s.loggers[x := l]
            && u.given == s.given + {(x, l)}
  {
    assert s.cells[0] == Int(|s.made|);
    var start := ToWrite(s, t, x);
    var u := Final(s, start);
    var rest := WriteThrough(u, t, x);
    RunConcat(s, start, rest);
    steps, l := start + rest, Logger(s.serial, x, |s.made| + 1);
    RunKeeps(s, steps);
    assert s.pc[t := Writing(x)] - {t} == s.pc;
  }

  /** When there are 255, or the logger cannot be created, the load gives none and changes nothing. */
  lemma LoneLoadRefused(s: State, t: nat, x: Ident) returns (steps: seq<Step>)
    requires Inv(s) && Quiet(s, t) && x !in s.loggers
    ensures IsRun(s, steps) && By(steps, t) && steps != [] && steps[0] == Call(t, x) && Final(s, steps) == s
    ensures |s.made| == 255 <==> forall a :: a in steps ==> !a.Create?
  {
    assert s.cells[0] == Int(|s.made|);
    var start := ToWrite(s, t, x);
    var u := Final(s, start);
    var u1 := Apply(u, FindAgain(t));
    var rest;
    if |s.made| == 255 {
      assert u1.pc - {t} == s.pc;
      rest := OneMore(u1, Return(t), []);
    } else {
      var u2 := Apply(u1, Create(t, false));
      assert u2.pc - {t} == s.pc;
      rest := OneMore(u2, Return(t), []);
      rest := OneMore(u1, Create(t, false), rest);
      assert rest[0] == Create(t, false);
    }
    var all := OneMore(u, FindAgain(t), rest);
    RunConcat(s, start, all);
    steps := start + all;
    assert |s.made| != 255 ==> all[1] == Create(t, false) && all[1] in steps;
  }
}
