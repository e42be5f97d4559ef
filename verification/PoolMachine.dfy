/**
 * The block allocator under any number of threads: the unlocked reading of the free
 * counter, the spinlock, the flag words masked one at a time, and the counter changed
 * after them, each as a step of its own.  A compare-and-swap that fails changes nothing,
 * so it is not a step.
 *
 * The fields base, owned and who are history: base is the row of flags without the work
 * of an unfinished call, owned the blocks granted and not given back (both change when
 * the counter does), who says whether a block is with a caller or inside a call of a
 * thread.  Two of them stand for what a caller of membuff_free brings along: it gives
 * back a block it was given and has not given back yet (who), and the header in front of
 * the block holds its number of bits (owned).  No other step looks at them.
 */
module PoolMachine {
  import opened Wrappers
  import opened Division
  import opened Ffs
  import opened Blocks
  import opened BlockPool

  datatype Pc =
    | WantsBlock(want: int)
    | Finding(want: int)
    | Marking(g: nat, n: nat, done: nat)
    | Granting(g: nat)
    | WantsFree(g: nat, n: nat)
    | Unmarking(g: nat, n: nat, done: nat)
    | Leaving

  datatype State = State(
    W: nat, bits: seq<bool>, unused: int, spinlock: bool, pc: map<nat, Pc>,
    base: seq<bool>, owned: map<nat, nat>, who: map<nat, Option<nat>>)

  datatype Step =
    | Ask(t: nat, n: int)
    | Grab(t: nat)
    | Find(t: nat, g: nat)
    | FindNone(t: nat)
    | Mark(t: nat)
    | Sub(t: nat)
    | Unmark(t: nat)
    | Add(t: nat)
    | Unlock(t: nat)
    | CallFree(t: nat, g: nat)

  function Init(W: nat, words: nat): State
    requires W > 0
  {
    var row := seq(W * words, _ => true);
    State(W, row, W * words, false, map[], row, map[], map[])
  }

  /** How many bits one round of the masking loop handles: up to the end of the word, or all that are left. */
  function Chunk(W: nat, at: nat, left: nat): (k: nat)
    requires W > 0
    ensures k <= left && (left > 0 ==> k > 0)
  {
    var k := W - at % W;
    if k > left then left else k
  }

  /** A round stays within one word, and ends with it or with the run. */
  lemma ChunkIsInWord(W: nat, at: nat, left: nat)
    requires W > 0 && left > 0
    ensures var k := Chunk(W, at, left); (at + k - 1) / W == at / W && (k == left || (at + k) % W == 0)
  {
    WordEnd(W, at, Chunk(W, at, left));
  }

  lemma WordEnd(W: nat, at: nat, k: nat)
    requires W > 0 && k <= W - at % W
    ensures k > 0 ==> (at + k - 1) / W == at / W
    ensures k == W - at % W ==> (at + k) % W == 0
  {
    var q, r := at / W, at % W;
    assert at == q * W + r;
    if k > 0 {
      DivUnique(at + k - 1, W, q, r + k - 1);
    }
    if k == W - r {
      assert at + k == (q + 1) * W;
      DivUnique(at + k, W, q + 1, 0);
    }
  }

  ghost predicate Enabled(s: State, a: Step) {
    match a
    case Ask(t, n) => t !in s.pc
    case Grab(t) => t in s.pc && (s.pc[t].WantsBlock? || s.pc[t].WantsFree?) && !s.spinlock
    case Find(t, g) =>
      && t in s.pc && s.pc[t].Finding? && s.pc[t].want >= 1
      && RunAt(s.bits, g, s.pc[t].want) && NoRunIn(s.bits, 0, g, s.pc[t].want)
    case FindNone(t) => t in s.pc && s.pc[t].Finding? && (s.pc[t].want < 1 || NoRunIn(s.bits, 0, |s.bits|, s.pc[t].want))
    case Mark(t) => t in s.pc && s.pc[t].Marking? && s.pc[t].done < s.pc[t].n
    case Sub(t) => t in s.pc && s.pc[t].Marking? && s.pc[t].done == s.pc[t].n
    case Unmark(t) => t in s.pc && s.pc[t].Unmarking? && s.pc[t].done < s.pc[t].n
    case Add(t) => t in s.pc && s.pc[t].Unmarking? && s.pc[t].done == s.pc[t].n
    case Unlock(t) => t in s.pc && (s.pc[t].Granting? || s.pc[t].Leaving?)
    case CallFree(t, g) => t !in s.pc && g in s.who && s.who[g] == None && g in s.owned
  }

  /** The checks membuff_alloc makes before it takes the lock. */
  predicate TurnedAway(s: State, n: int) {
    n == 0 || n > |s.bits| || n > s.unused
  }

  ghost function Apply(s: State, a: Step): (s': State)
    requires s.W > 0 && Enabled(s, a)
    ensures s'.W == s.W
  {
    match a
    case Ask(t, n) => if TurnedAway(s, n) then s else s.(pc := s.pc[t := WantsBlock(n)])
    case Grab(t) =>
      s.(spinlock := true,
         pc := s.pc[t := if s.pc[t].WantsBlock? then Finding(s.pc[t].want) else Unmarking(s.pc[t].g, s.pc[t].n, 0)])
    case Find(t, g) => s.(pc := s.pc[t := Marking(g, s.pc[t].want, 0)])
    case FindNone(t) => s.(pc := s.pc[t := Leaving])
    case Mark(t) =>
      var p := s.pc[t];
      var k := Chunk(s.W, p.g + p.done, p.n - p.done);
      s.(bits := Paint(s.bits, p.g + p.done, k, false), pc := s.pc[t := Marking(p.g, p.n, p.done + k)])
    case Sub(t) =>
      var p := s.pc[t];
      s.(unused := s.unused - p.n, pc := s.pc[t := Granting(p.g)],
         base := Paint(s.base, p.g, p.n, false), owned := s.owned[p.g := p.n], who := s.who[p.g := Some(t)])
    case Unmark(t) =>
      var p := s.pc[t];
      var k := Chunk(s.W, p.g + p.done, p.n - p.done);
      s.(bits := Paint(s.bits, p.g + p.done, k, true), pc := s.pc[t := Unmarking(p.g, p.n, p.done + k)])
    case Add(t) =>
      var p := s.pc[t];
      s.(unused := s.unused + p.n, pc := s.pc[t := Leaving],
         base := Paint(s.base, p.g, p.n, true), owned := s.owned - {p.g}, who := s.who - {p.g})
    case Unlock(t) =>
      s.(spinlock := false, pc := s.pc - {t}, who := if s.pc[t].Granting? then s.who[s.pc[t].g := None] else s.who)
    case CallFree(t, g) => s.(pc := s.pc[t := WantsFree(g, s.owned[g])], who := s.who[g := Some(t)])
  }

  /** One round of masking paints bits of one word, from where the last one stopped to its end or that of the run. */
  lemma RoundMasksOneWord(s: State, a: Step)
    requires s.W > 0 && (a.Mark? || a.Unmark?) && Enabled(s, a)
    ensures var u, p := Apply(s, a), s.pc[a.t];
            && a.t in u.pc && (if a.Mark? then u.pc[a.t].Marking? else u.pc[a.t].Unmarking?)
            && var q := u.pc[a.t];
            && q.g == p.g && q.n == p.n && p.done < q.done <= p.n
            && (p.g + q.done - 1) / s.W == (p.g + p.done) / s.W && (q.done == p.n || (p.g + q.done) % s.W == 0)
            && |u.bits| == |s.bits|
            && forall x :: 0 <= x < |s.bits| ==> u.bits[x] == if p.g + p.done <= x < p.g + q.done then a.Unmark? else s.bits[x]
  {
    var p := s.pc[a.t];
    ChunkIsInWord(s.W, p.g + p.done, p.n - p.done);
  }

  // ---------------------------------------------------------------- what every step keeps

  predicate Critical(p: Pc) {
    !p.WantsBlock? && !p.WantsFree?
  }

  /** The thread has block g in its hands: about to return it, or giving it back. */
  predicate Holds(p: Pc, g: nat) {
    (p.Granting? || p.WantsFree? || p.Unmarking?) && p.g == g
  }

  /** The flags are the row of finished calls plus the part done so far by the call with the lock. */
  ghost predicate PartDone(p: Pc, bits: seq<bool>, base: seq<bool>) {
    match p
    case Marking(g, n, done) => 
      n >= 1 && done <= n && RunAt(base, g, n) && NoRunIn(base, 0, g, n) && bits == Paint(base, g, done, false)
    case Unmarking(g, n, done) => done <= n && bits == Paint(base, g, done, true)
    case _ => bits == base
  }

  predicate FreesOwned(p: Pc, owned: map<nat, nat>) {
    p.WantsFree? || p.Unmarking? ==> p.g in owned && p.n == owned[p.g]
  }

  /** Only the thread past the lock has work under way. */
  ghost predicate OneInside(pc: map<nat, Pc>, spinlock: bool, bits: seq<bool>, base: seq<bool>) {
    && (forall t :: t in pc && Critical(pc[t]) ==> spinlock && PartDone(pc[t], bits, base))
    && (forall t, u :: t in pc && u in pc && Critical(pc[t]) && Critical(pc[u]) ==> t == u)
    && (!spinlock ==> bits == base) && |bits| == |base|
  }

  /** A block is with its caller, or in the hands of exactly the thread that who names. */
  ghost predicate Ownership(pc: map<nat, Pc>, owned: map<nat, nat>, who: map<nat, Option<nat>>) {
    && who.Keys == owned.Keys
    && (forall t :: t in pc ==> FreesOwned(pc[t], owned))
    && (forall t, g :: t in pc && Holds(pc[t], g) ==> KeptBy(who, g, t))
    && (forall g :: g in who && who[g].Some? ==> InHands(pc, who[g].value, g))
  }

  predicate KeptBy(who: map<nat, Option<nat>>, g: nat, t: nat) {
    g in who && who[g] == Some(t)
  }

  predicate InHands(pc: map<nat, Pc>, t: nat, g: nat) {
    t in pc && Holds(pc[t], g)
  }

  ghost predicate Inv(s: State) {
    && s.W > 0 && Sound(s.base, s.owned, s.unused)
    && OneInside(s.pc, s.spinlock, s.bits, s.base)
    && Ownership(s.pc, s.owned, s.who)
  }

  lemma InitInv(W: nat, words: nat)
    requires W > 0
    ensures Inv(Init(W, words))
  {
    CountUniform(Init(W, words).bits, true);
  }

  /** The thread past the lock works on. */
  lemma InsideMoves(pc: map<nat, Pc>, bits: seq<bool>, base: seq<bool>, t: nat, q: Pc, bits': seq<bool>, base': seq<bool>)
    requires OneInside(pc, true, bits, base) && t in pc && Critical(pc[t]) && Critical(q)
    requires PartDone(q, bits', base') && |bits'| == |base'|
    ensures OneInside(pc[t := q], true, bits', base')
  {
  }

  /** A thread moves on with the same block in its hands. */
  lemma HandsKept(pc: map<nat, Pc>, owned: map<nat, nat>, who: map<nat, Option<nat>>, t: nat, q: Pc)
    requires Ownership(pc, owned, who) && FreesOwned(q, owned)
    requires forall g :: Holds(q, g) <==> InHands(pc, t, g)
    ensures Ownership(pc[t := q], owned, who)
  {
    var pc' := pc[t := q];
    forall u, g | u in pc' && Holds(pc'[u], g)
      ensures KeptBy(who, g, u)
    {
      assert InHands(pc, u, g);
    }
    forall g | g in who && who[g].Some?
      ensures InHands(pc', who[g].value, g)
    {
      assert InHands(pc, who[g].value, g);
    }
  }

  lemma GrabInv(s: State, t: nat)
    requires Inv(s) && Enabled(s, Grab(t))
    ensures Inv(Apply(s, Grab(t)))
  {
    var s' := Apply(s, Grab(t));
    var p, q := s.pc[t], s'.pc[t];
    HandsKept(s.pc, s.owned, s.who, t, q);
    assert forall u :: u in s.pc ==> !Critical(s.pc[u]);
    assert Paint(s.base, if p.WantsFree? then p.g else 0, 0, true) == s.base;
    assert PartDone(q, s.bits, s.base);
  }

  lemma FindInv(s: State, t: nat, g: nat)
    requires Inv(s) && Enabled(s, Find(t, g))
    ensures Inv(Apply(s, Find(t, g)))
  {
    var q := Marking(g, s.pc[t].want, 0);
    assert Paint(s.base, g, 0, false) == s.base;
    InsideMoves(s.pc, s.bits, s.base, t, q, s.bits, s.base);
    HandsKept(s.pc, s.owned, s.who, t, q);
  }

  /** One round of masking. */
  lemma RoundInv(s: State, t: nat, q: Pc, bits: seq<bool>)
    requires Inv(s) && s.spinlock && t in s.pc && (s.pc[t].Marking? || s.pc[t].Unmarking?) && Critical(q)
    requires PartDone(q, bits, s.base) && |bits| == |s.base| && FreesOwned(q, s.owned)
    requires forall g :: Holds(q, g) <==> Holds(s.pc[t], g)
    ensures Inv(s.(bits := bits, pc := s.pc[t := q]))
  {
    InsideMoves(s.pc, s.bits, s.base, t, q, bits, s.base);
    HandsKept(s.pc, s.owned, s.who, t, q);
  }

  lemma MarkInv(s: State, t: nat)
    requires Inv(s) && Enabled(s, Mark(t))
    ensures Inv(Apply(s, Mark(t)))
  {
    var p, s' := s.pc[t], Apply(s, Mark(t));
    PaintOn(s.base, p.g, p.done, Chunk(s.W, p.g + p.done, p.n - p.done), false);
    RoundInv(s, t, s'.pc[t], s'.bits);
  }

  lemma UnmarkInv(s: State, t: nat)
    requires Inv(s) && Enabled(s, Unmark(t))
    ensures Inv(Apply(s, Unmark(t)))
  {
    var p, s' := s.pc[t], Apply(s, Unmark(t));
    PaintOn(s.base, p.g, p.done, Chunk(s.W, p.g + p.done, p.n - p.done), true);
    RoundInv(s, t, s'.pc[t], s'.bits);
  }

  /** A new block enters the hands of the thread that found it. */
  lemma HandsTake(pc: map<nat, Pc>, owned: map<nat, nat>, who: map<nat, Option<nat>>, t: nat, g: nat, n: nat)
    requires Ownership(pc, owned, who) && t in pc && pc[t].Marking? && g !in owned
    ensures Ownership(pc[t := Granting(g)], owned[g := n], who[g := Some(t)])
  {
    var pc', who' := pc[t := Granting(g)], who[g := Some(t)];
    forall u, h | u in pc' && Holds(pc'[u], h)
      ensures KeptBy(who', h, u)
    {
      if u != t {
        assert KeptBy(who, h, u);
      }
    }
    forall h | h in who' && who'[h].Some?
      ensures InHands(pc', who'[h].value, h)
    {
      if h != g {
        assert InHands(pc, who[h].value, h);
      }
    }
  }

  lemma SubInv(s: State, t: nat)
    requires Inv(s) && Enabled(s, Sub(t))
    ensures Inv(Apply(s, Sub(t)))
  {
    var p := s.pc[t];
    AllocSound(s.base, s.owned, s.unused, p.g, p.n);
    InsideMoves(s.pc, s.bits, s.base, t, Granting(p.g), s.bits, Paint(s.base, p.g, p.n, false));
    HandsTake(s.pc, s.owned, s.who, t, p.g, p.n);
  }

  /** The block a thread was giving back is gone. */
  lemma HandsDrop(pc: map<nat, Pc>, owned: map<nat, nat>, who: map<nat, Option<nat>>, t: nat, g: nat)
    requires Ownership(pc, owned, who) && t in pc && Holds(pc[t], g)
    ensures g in owned && Ownership(pc[t := Leaving], owned - {g}, who - {g})
  {
    var pc', who' := pc[t := Leaving], who - {g};
    assert KeptBy(who, g, t);
    forall u, h | u in pc' && Holds(pc'[u], h)
      ensures KeptBy(who', h, u)
    {
      assert KeptBy(who, h, u);
    }
    forall h | h in who' && who'[h].Some?
      ensures InHands(pc', who'[h].value, h)
    {
      assert InHands(pc, who[h].value, h);
    }
    forall u | u in pc'
      ensures FreesOwned(pc'[u], owned - {g})
    {
      if u != t && (pc[u].WantsFree? || pc[u].Unmarking?) {
        assert Holds(pc[u], pc[u].g) && KeptBy(who, pc[u].g, u);
      }
    }
  }

  lemma AddInv(s: State, t: nat)
    requires Inv(s) && Enabled(s, Add(t))
    ensures Inv(Apply(s, Add(t)))
  {
    var p := s.pc[t];
    HandsDrop(s.pc, s.owned, s.who, t, p.g);
    FreeSound(s.base, s.owned, s.unused, p.g);
    InsideMoves(s.pc, s.bits, s.base, t, Leaving, s.bits, Paint(s.base, p.g, p.n, true));
  }

  /** A thread returns, handing its block, if it has one, to the caller. */
  lemma HandsReturn(pc: map<nat, Pc>, owned: map<nat, nat>, who: map<nat, Option<nat>>, t: nat)
    requires Ownership(pc, owned, who) && t in pc && (pc[t].Granting? || pc[t].Leaving?)
    ensures Ownership(pc - {t}, owned, if pc[t].Granting? then who[pc[t].g := None] else who)
  {
    var pc', who' := pc - {t}, if pc[t].Granting? then who[pc[t].g := None] else who;
    assert pc[t].Granting? ==> Holds(pc[t], pc[t].g) && KeptBy(who, pc[t].g, t);
    assert who'.Keys == who.Keys;
    forall u, g | u in pc' && Holds(pc'[u], g)
      ensures KeptBy(who', g, u)
    {
      assert KeptBy(who, g, u);
    }
    forall g | g in who' && who'[g].Some?
      ensures InHands(pc', who'[g].value, g)
    {
      assert InHands(pc, who[g].value, g);
    }
    forall u | u in pc'
      ensures FreesOwned(pc'[u], owned)
    {
      assert FreesOwned(pc[u], owned);
    }
  }

  lemma UnlockInv(s: State, t: nat)
    requires Inv(s) && Enabled(s, Unlock(t))
    ensures Inv(Apply(s, Unlock(t)))
  {
    HandsReturn(s.pc, s.owned, s.who, t);
  }

  /** A caller hands a block in to be freed. */
  lemma HandsGive(pc: map<nat, Pc>, owned: map<nat, nat>, who: map<nat, Option<nat>>, t: nat, g: nat)
    requires Ownership(pc, owned, who) && t !in pc && g in who && who[g] == None
    ensures Ownership(pc[t := WantsFree(g, owned[g])], owned, who[g := Some(t)])
  {
    var pc', who' := pc[t := WantsFree(g, owned[g])], who[g := Some(t)];
    forall u, h | u in pc' && Holds(pc'[u], h)
      ensures KeptBy(who', h, u)
    {
      if u != t {
        assert KeptBy(who, h, u);
      }
    }
    forall h | h in who' && who'[h].Some?
      ensures InHands(pc', who'[h].value, h)
    {
      if h != g {
        assert InHands(pc, who[h].value, h);
      }
    }
  }

  lemma AskInv(s: State, t: nat, n: int)
    requires Inv(s) && Enabled(s, Ask(t, n))
    ensures Inv(Apply(s, Ask(t, n)))
  {
    if !TurnedAway(s, n) {
      HandsKept(s.pc, s.owned, s.who, t, WantsBlock(n));
    }
  }

  lemma FindNoneInv(s: State, t: nat)
    requires Inv(s) && Enabled(s, FindNone(t))
    ensures Inv(Apply(s, FindNone(t)))
  {
    InsideMoves(s.pc, s.bits, s.base, t, Leaving, s.bits, s.base);
    HandsKept(s.pc, s.owned, s.who, t, Leaving);
  }

  lemma CallFreeInv(s: State, t: nat, g: nat)
    requires Inv(s) && Enabled(s, CallFree(t, g))
    ensures Inv(Apply(s, CallFree(t, g)))
  {
    HandsGive(s.pc, s.owned, s.who, t, g);
  }

  lemma StepInv(s: State, a: Step)
    requires Inv(s) && Enabled(s, a)
    ensures Inv(Apply(s, a))
  {
    match a
    case Ask(t, n) => AskInv(s, t, n);
    case Grab(t) => GrabInv(s, t);
    case Find(t, g) => FindInv(s, t, g);
    case FindNone(t) => FindNoneInv(s, t);
    case Mark(t) => MarkInv(s, t);
    case Sub(t) => SubInv(s, t);
    case Unmark(t) => UnmarkInv(s, t);
    case Add(t) => AddInv(s, t);
    case Unlock(t) => UnlockInv(s, t);
    case CallFree(t, g) => CallFreeInv(s, t, g);
  }

  ghost predicate IsRun(s: State, steps: seq<Step>)
    decreases |steps|
  {
    steps == [] || (s.W > 0 && Enabled(s, steps[0]) && IsRun(Apply(s, steps[0]), steps[1..]))
  }

  ghost function Final(s: State, steps: seq<Step>): State
    requires IsRun(s, steps)
    decreases |steps|
  {
    if steps == [] then s else Final(Apply(s, steps[0]), steps[1..])
  }

  lemma {:induction false} RunInv(s: State, steps: seq<Step>)
    requires Inv(s) && IsRun(s, steps)
    ensures Inv(Final(s, steps))
    decreases |steps|
  {
    if steps != [] {
      StepInv(s, steps[0]);
      RunInv(Apply(s, steps[0]), steps[1..]);
    }
  }

  // ---------------------------------------------------------------- what it gives

  lemma InvMeans(s: State)
    requires Inv(s)
    ensures forall g :: g in s.owned ==> g + s.owned[g] <= |s.base|
    ensures forall g, h :: g in s.owned && h in s.owned && g != h ==> Disjoint(g, s.owned[g], h, s.owned[h])
    ensures forall t, u, g :: t in s.pc && u in s.pc && Holds(s.pc[t], g) && Holds(s.pc[u], g) ==> t == u
  {
    forall t, u, g | t in s.pc && u in s.pc && Holds(s.pc[t], g) && Holds(s.pc[u], g)
      ensures t == u
    {
      assert KeptBy(s.who, g, t) && KeptBy(s.who, g, u);
    }
  }

  /**
   * In every run: owned blocks are in bounds and pairwise disjoint, at most one thread is
   * past the lock, no two threads have the same block in their hands, and while the lock
   * is free a bit is set exactly when no owned block covers it and the counter counts the
   * set bits.
   */
  lemma EveryRunIsSafe(W: nat, words: nat, steps: seq<Step>)
    requires W > 0 && IsRun(Init(W, words), steps)
    ensures var s := Final(Init(W, words), steps);
            && (forall g :: g in s.owned ==> g + s.owned[g] <= |s.base|)
            && (forall g, h :: g in s.owned && h in s.owned && g != h ==> Disjoint(g, s.owned[g], h, s.owned[h]))
            && (forall t, u :: t in s.pc && u in s.pc && Critical(s.pc[t]) && Critical(s.pc[u]) ==> t == u)
            && (forall t, u, g :: t in s.pc && u in s.pc && Holds(s.pc[t], g) && Holds(s.pc[u], g) ==> t == u)
            && (!s.spinlock ==>
                 (forall x :: 0 <= x < |s.bits| ==> (s.bits[x] <==> !Covered(s.owned, x))) && s.unused == CountSet(s.bits))
  {
    InitInv(W, words);
    RunInv(Init(W, words), steps);
    InvMeans(Final(Init(W, words), steps));
  }

  /** A block being granted stays clear of every owned block, from the search on. */
  lemma GrantIsApart(s: State, t: nat, h: nat)
    requires Inv(s) && t in s.pc && s.pc[t].Marking? && h in s.owned
    ensures s.pc[t].g + s.pc[t].n <= |s.bits| && Disjoint(s.pc[t].g, s.pc[t].n, h, s.owned[h])
  {
    RunIsApart(s.base, s.owned, s.pc[t].g, s.pc[t].n, h);
  }

  /**
   * The steps refine a pool with atomic calls (base, owned, unused): it moves only when a
   * counter does, once as a first-fit grant and once as a release.
   */
  lemma StepRefinesPool(s: State, a: Step)
    requires Inv(s) && Enabled(s, a)
    ensures var s' := Apply(s, a);
            match a
            case Sub(t) =>
              var g, n := s.pc[t].g, s.pc[t].n;
              n >= 1 && RunAt(s.base, g, n) && NoRunIn(s.base, 0, g, n) && g !in s.owned
              && s'.base == Paint(s.base, g, n, false) && s'.owned == s.owned[g := n] && s'.unused == s.unused - n
            case Add(t) =>
              var g := s.pc[t].g;
              g in s.owned && s'.base == Paint(s.base, g, s.owned[g], true)
              && s'.owned == s.owned - {g} && s'.unused == s.unused + s.owned[g]
            case _ => s'.base == s.base && s'.owned == s.owned && s'.unused == s.unused
  {
    if a.Sub? {
      AllocSound(s.base, s.owned, s.unused, s.pc[a.t].g, s.pc[a.t].n);
    }
  }

  /** A call that gets no block is right about the pool of finished calls: no such run of free blocks exists. */
  lemma RefusalIsRight(s: State, a: Step, n: int)
    requires Inv(s) && Enabled(s, a) && n >= 1
    requires (a == Ask(a.t, n) && TurnedAway(s, n)) || (a.FindNone? && s.pc[a.t].want == n)
    ensures NoRun(s.base, n)
  {
    if a.FindNone? {
      NoRunAnywhere(s.base, n);
    } else if n > s.unused {
      NoRoom(s.base, n);
    }
  }

  // ---------------------------------------------------------------- calls do complete

  predicate By(steps: seq<Step>, t: nat) {
    forall a :: a in steps ==> a.t == t
  }

  lemma OneMore(s: State, a: Step, rest: seq<Step>) returns (steps: seq<Step>)
    requires s.W > 0 && Enabled(s, a) && IsRun(Apply(s, a), rest)
    ensures steps == [a] + rest && IsRun(s, steps) && Final(s, steps) == Final(Apply(s, a), rest)
  {
    steps := [a] + rest;
    assert steps[1..] == rest;
  }

  lemma {:induction false} RunConcat(s: State, a: seq<Step>, b: seq<Step>)
    requires s.W > 0 && IsRun(s, a) && IsRun(Final(s, a), b)
    ensures IsRun(s, a + b) && Final(s, a + b) == Final(Final(s, a), b)
    decreases |a|
  {
    if a == [] {
      assert a + b == b;
    } else {
      assert (a + b)[1..] == a[1..] + b;
      RunConcat(Apply(s, a[0]), a[1..], b);
    }
  }

  /** The masking loop of an allocation runs through. */
  lemma {:induction false} MarkRun(s: State, t: nat) returns (steps: seq<Step>)
    requires Inv(s) && t in s.pc && s.pc[t].Marking?
    ensures IsRun(s, steps) && By(steps, t)
    ensures var u, p := Final(s, steps), s.pc[t]; u == s.(bits := u.bits, pc := s.pc[t := Marking(p.g, p.n, p.n)]) && Inv(u)
    decreases s.pc[t].n - s.pc[t].done
  {
    var p := s.pc[t];
    if p.done == p.n {
      steps := [];
      assert s.pc[t := Marking(p.g, p.n, p.n)] == s.pc;
    } else {
      MarkInv(s, t);
      var u := Apply(s, Mark(t));
      var rest := MarkRun(u, t);
      steps := OneMore(s, Mark(t), rest);
      assert u.pc[t := Marking(p.g, p.n, p.n)] == s.pc[t := Marking(p.g, p.n, p.n)];
    }
  }

  /** The masking loop of a release runs through. */
  lemma {:induction false} UnmarkRun(s: State, t: nat) returns (steps: seq<Step>)
    requires Inv(s) && t in s.pc && s.pc[t].Unmarking?
    ensures IsRun(s, steps) && By(steps, t)
    ensures var u, p := Final(s, steps), s.pc[t]; u == s.(bits := u.bits, pc := s.pc[t := Unmarking(p.g, p.n, p.n)]) && Inv(u)
    decreases s.pc[t].n - s.pc[t].done
  {
    var p := s.pc[t];
    if p.done == p.n {
      steps := [];
      assert s.pc[t := Unmarking(p.g, p.n, p.n)] == s.pc;
    } else {
      UnmarkInv(s, t);
      var u := Apply(s, Unmark(t));
      var rest := UnmarkRun(u, t);
      steps := OneMore(s, Unmark(t), rest);
      assert u.pc[t := Unmarking(p.g, p.n, p.n)] == s.pc[t := Unmarking(p.g, p.n, p.n)];
    }
  }

  /** The least free run, given that there is one. */
  lemma {:induction false} LeastRun(bits: seq<bool>, n: int, h: nat, from: nat) returns (g: nat)
    requires RunAt(bits, h, n) && from <= h && NoRunIn(bits, 0, from, n)
    ensures g <= h && RunAt(bits, g, n) && NoRunIn(bits, 0, g, n)
    decreases h - from
  {
    if RunAt(bits, from, n) {
      g := from;
    } else {
      g := LeastRun(bits, n, h, from + 1);
    }
  }

  /** A request for a run that exists is not turned away. */
  lemma NotTurnedAway(s: State, n: int, h: nat)
    requires Inv(s) && !s.spinlock && n >= 1 && RunAt(s.bits, h, n)
    ensures !TurnedAway(s, n)
  {
    RunNeedsFree(s.bits, h, n);
  }

  /** From the request to the masking loop. */
  lemma StartAlloc(s: State, t: nat, n: int, g: nat) returns (steps: seq<Step>)
    requires Inv(s) && !s.spinlock && t !in s.pc && n >= 1 && RunAt(s.bits, g, n) && NoRunIn(s.bits, 0, g, n)
    ensures IsRun(s, steps) && By(steps, t) && steps != [] && steps[0] == Ask(t, n)
    ensures Final(s, steps) == s.(spinlock := true, pc := s.pc[t := Marking(g, n, 0)])
  {
    NotTurnedAway(s, n, g);
    var s1 := Apply(s, Ask(t, n));
    var s2 := Apply(s1, Grab(t));
    var s3 := Apply(s2, Find(t, g));
    assert s3.pc == s.pc[t := Marking(g, n, 0)];
    steps := OneMore(s2, Find(t, g), []);
    steps := OneMore(s1, Grab(t), steps);
    steps := OneMore(s, Ask(t, n), steps);
  }

  /** From the end of the masking loop to the return. */
  lemma EndAlloc(s: State, t: nat) returns (steps: seq<Step>)
    requires s.W > 0 && t in s.pc && s.pc[t].Marking? && s.pc[t].done == s.pc[t].n
    ensures IsRun(s, steps) && By(steps, t)
    ensures var p := s.pc[t];
            Final(s, steps) == s.(spinlock := false, pc := s.pc - {t}, unused := s.unused - p.n,
                                  base := Paint(s.base, p.g, p.n, false), owned := s.owned[p.g := p.n],
                                  who := s.who[p.g := None])
  {
    var p, s1 := s.pc[t], Apply(s, Sub(t));
    steps := OneMore(s1, Unlock(t), []);
    steps := OneMore(s, Sub(t), steps);
    assert s1.pc - {t} == s.pc - {t} && s1.who[p.g := None] == s.who[p.g := None];
  }

  /** A whole allocation of the least run. */
  lemma AllocRun(s: State, t: nat, n: int, g: nat) returns (steps: seq<Step>)
    requires Inv(s) && !s.spinlock && t !in s.pc && n >= 1 && RunAt(s.bits, g, n) && NoRunIn(s.bits, 0, g, n)
    ensures IsRun(s, steps) && By(steps, t) && steps != [] && steps[0] == Ask(t, n)
    ensures Final(s, steps) == s.(bits := Final(s, steps).bits, unused := s.unused - n,
                                  base := Paint(s.base, g, n, false), owned := s.owned[g := n], who := s.who[g := None])
  {
    var start := StartAlloc(s, t, n, g);
    RunInv(s, start);
    var rest := MarkToEnd(Final(s, start), t);
    RunConcat(s, start, rest);
    steps := start + rest;
    SameAgain(s.pc, t, Marking(g, n, 0));
  }

  lemma SameAgain(pc: map<nat, Pc>, t: nat, p: Pc)
    requires t !in pc
    ensures pc[t := p] - {t} == pc
  {
  }

  lemma MarkToEnd(s: State, t: nat) returns (steps: seq<Step>)
    requires Inv(s) && t in s.pc && s.pc[t].Marking?
    ensures IsRun(s, steps) && By(steps, t)
    ensures var p := s.pc[t];
            Final(s, steps) == s.(spinlock := false, pc := s.pc - {t}, bits := Final(s, steps).bits, unused := s.unused - p.n,
                                  base := Paint(s.base, p.g, p.n, false), owned := s.owned[p.g := p.n],
                                  who := s.who[p.g := None])
  {
    var mark := MarkRun(s, t);
    var end := EndAlloc(Final(s, mark), t);
    RunConcat(s, mark, end);
    steps := mark + end;
    assert s.pc[t := Marking(s.pc[t].g, s.pc[t].n, s.pc[t].n)] - {t} == s.pc - {t};
  }

  /**
   * With the lock free and a run of n free blocks somewhere, a thread alone gets the least
   * such run: it is cleared, counted off and with its caller, and the lock is free again.
   */
  lemma LoneAllocCompletes(s: State, t: nat, n: int, h: nat) returns (steps: seq<Step>, g: nat)
    requires Inv(s) && !s.spinlock && t !in s.pc && n >= 1 && RunAt(s.bits, h, n)
    ensures IsRun(s, steps) && By(steps, t) && steps != [] && steps[0] == Ask(t, n)
    ensures RunAt(s.bits, g, n) && NoRunIn(s.bits, 0, g, n) && g !in s.owned
    ensures var u := Final(s, steps);
            && Inv(u) && !u.spinlock && u.pc == s.pc && u.owned == s.owned[g := n] && u.who == s.who[g := None]
            && u.unused == s.unused - n && |u.bits| == |s.bits|
            && forall x :: 0 <= x < |s.bits| ==> u.bits[x] == (s.bits[x] && !(g <= x < g + n))
  {
    g := LeastRun(s.bits, n, h, 0);
    AllocSound(s.base, s.owned, s.unused, g, n);
    steps := AllocRun(s, t, n, g);
    RunInv(s, steps);
    PaintedBits(s, Final(s, steps), g, n, false);
  }

  lemma PaintedBits(s: State, u: State, g: nat, n: nat, v: bool)
    requires Inv(s) && Inv(u) && !s.spinlock && !u.spinlock && u.base == Paint(s.base, g, n, v)
    ensures |u.bits| == |s.bits| && forall x :: 0 <= x < |s.bits| ==> u.bits[x] == if g <= x < g + n then v else s.bits[x]
  {
  }

  /** Without such a run a thread alone gets nothing, and nothing has changed. */
  lemma LoneAllocRefused(s: State, t: nat, n: int) returns (steps: seq<Step>)
    requires Inv(s) && !s.spinlock && t !in s.pc && NoRun(s.bits, n)
    ensures IsRun(s, steps) && By(steps, t) && steps != [] && steps[0] == Ask(t, n) && Final(s, steps) == s
  {
    if TurnedAway(s, n) {
      steps := OneMore(s, Ask(t, n), []);
    } else {
      var s1 := Apply(s, Ask(t, n));
      var s2 := Apply(s1, Grab(t));
      var s3 := Apply(s2, FindNone(t));
      assert NoRunIn(s.bits, 0, |s.bits|, n);
      assert s3.pc - {t} == s.pc;
      steps := OneMore(s3, Unlock(t), []);
      steps := OneMore(s2, FindNone(t), steps);
      steps := OneMore(s1, Grab(t), steps);
      steps := OneMore(s, Ask(t, n), steps);
    }
  }

  lemma StartFree(s: State, t: nat, g: nat) returns (steps: seq<Step>)
    requires Inv(s) && !s.spinlock && t !in s.pc && g in s.who && s.who[g] == None
    ensures g in s.owned && IsRun(s, steps) && By(steps, t)
    ensures Final(s, steps) == s.(spinlock := true, pc := s.pc[t := Unmarking(g, s.owned[g], 0)], who := s.who[g := Some(t)])
  {
    var s1 := Apply(s, CallFree(t, g));
    var s2 := Apply(s1, Grab(t));
    assert s2.pc == s.pc[t := Unmarking(g, s.owned[g], 0)];
    steps := OneMore(s1, Grab(t), []);
    steps := OneMore(s, CallFree(t, g), steps);
  }

  lemma EndFree(s: State, t: nat) returns (steps: seq<Step>)
    requires s.W > 0 && t in s.pc && s.pc[t].Unmarking? && s.pc[t].done == s.pc[t].n
    ensures IsRun(s, steps) && By(steps, t)
    ensures var p := s.pc[t];
            Final(s, steps) == s.(spinlock := false, pc := s.pc - {t}, unused := s.unused + p.n,
                                  base := Paint(s.base, p.g, p.n, true), owned := s.owned - {p.g}, who := s.who - {p.g})
  {
    var s1 := Apply(s, Add(t));
    steps := OneMore(s1, Unlock(t), []);
    steps := OneMore(s, Add(t), steps);
    assert s1.pc - {t} == s.pc - {t};
  }

  /** A whole release. */
  lemma FreeRun(s: State, t: nat, g: nat) returns (steps: seq<Step>)
    requires Inv(s) && !s.spinlock && t !in s.pc && g in s.who && s.who[g] == None
    ensures g in s.owned && IsRun(s, steps) && By(steps, t)
    ensures Final(s, steps) == s.(bits := Final(s, steps).bits, unused := s.unused + s.owned[g],
                                  base := Paint(s.base, g, s.owned[g], true), owned := s.owned - {g}, who := s.who - {g})
  {
    var start := StartFree(s, t, g);
    RunInv(s, start);
    var rest := UnmarkToEnd(Final(s, start), t);
    RunConcat(s, start, rest);
    steps := start + rest;
    SameAgain(s.pc, t, Unmarking(g, s.owned[g], 0));
    assert s.who[g := Some(t)] - {g} == s.who - {g};
  }

  lemma UnmarkToEnd(s: State, t: nat) returns (steps: seq<Step>)
    requires Inv(s) && t in s.pc && s.pc[t].Unmarking?
    ensures IsRun(s, steps) && By(steps, t)
    ensures var p := s.pc[t];
            Final(s, steps) == s.(spinlock := false, pc := s.pc - {t}, bits := Final(s, steps).bits, unused := s.unused + p.n,
                                  base := Paint(s.base, p.g, p.n, true), owned := s.owned - {p.g}, who := s.who - {p.g})
  {
    var unmark := UnmarkRun(s, t);
    var end := EndFree(Final(s, unmark), t);
    RunConcat(s, unmark, end);
    steps := unmark + end;
    assert s.pc[t := Unmarking(s.pc[t].g, s.pc[t].n, s.pc[t].n)] - {t} == s.pc - {t};
  }

  /**
   * With the lock free, a thread alone gives back a block that is with its caller: its
   * bits are set, it is counted back and nobody's, and the lock is free again.
   */
  lemma LoneFreeCompletes(s: State, t: nat, g: nat) returns (steps: seq<Step>)
    requires Inv(s) && !s.spinlock && t !in s.pc && g in s.who && s.who[g] == None
    ensures IsRun(s, steps) && By(steps, t) && g in s.owned
    ensures var u, n := Final(s, steps), s.owned[g];
            && Inv(u) && !u.spinlock && u.pc == s.pc && u.owned == s.owned - {g} && u.who == s.who - {g}
            && u.unused == s.unused + n && |u.bits| == |s.bits|
            && forall x :: 0 <= x < |s.bits| ==> u.bits[x] == (s.bits[x] || g <= x < g + n)
  {
    steps := FreeRun(s, t, g);
    RunInv(s, steps);
    PaintedBits(s, Final(s, steps), g, s.owned[g], true);
  }
}
