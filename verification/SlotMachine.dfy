/**
 * The fixed-slot ring as a step machine: pushers and poppers each behind their own
 * try-lock, with snapshots of the other side's offset that may be stale when used.  A
 * failing try-lock changes nothing, so it is not a step.
 *
 * r, w, queue, pushed and popped, and rs and ws in the control states, are history.  hands
 * holds the elements that threads have in their possession: made, or popped and not
 * pushed back.
 */
module SlotMachine {
  import opened Wrappers
  import opened Division
  import opened RingLayout
  import opened SlotLayout

  datatype Writer<E> = WFree | WHeld(e: E) | WSnap(e: E, Ro: int, rs: Pos) | WStored(e: E) | WDone(ok: bool)

  datatype Reader<E> = RFree | RHeld | RSnap(Wo: int, ws: Pos) | RTaken(got: Option<E>) | RCleared(got: Option<E>) | RDone

  datatype State<E> = State(
    L: nat, B: seq<Option<E>>, R: int, W: int, writer: Writer<E>, reader: Reader<E>, hands: multiset<E>,
    r: Pos, w: Pos, queue: seq<E>, pushed: seq<E>, popped: seq<E>)

  datatype Step<E> =
    | Make(e: E)
    | PushLock(e: E) | PushSnapshot | PushStore | PushPublish | PushUnlock
    | PopLock | PopSnapshot | PopTake | PopClear | PopPublish | PopUnlock

  ghost function Init<E>(L: nat): State<E> {
    State(L, seq(L, _ => None), 0, 0, WFree, RFree, multiset{}, Pos(0, 0), Pos(0, 0), [], [], [])
  }

  ghost predicate Enabled<E>(s: State<E>, a: Step<E>) {
    match a
    case Make(_) => true
    case PushLock(e) => s.writer.WFree? && e in s.hands
    case PushSnapshot => s.writer.WHeld?
    case PushStore => s.writer.WSnap?
    case PushPublish => s.writer.WStored?
    case PushUnlock => s.writer.WDone?
    case PopLock => s.reader.RFree?
    case PopSnapshot => s.reader.RHeld?
    case PopTake => s.reader.RSnap?
    case PopClear => s.reader.RTaken?
    case PopPublish => s.reader.RCleared?
    case PopUnlock => s.reader.RDone?
  }

  ghost predicate Sized<E>(s: State<E>) {
    s.L > 0 && |s.B| == s.L
  }

  ghost function Room(L: int, Ro: int, Wo: int): int
    requires L > 0
  {
    L + Ro % L - RestoreWrap(Ro, Wo, L) * L - Wo % L
  }

  ghost function Apply<E>(s: State<E>, a: Step<E>): (t: State<E>)
    requires Sized(s) && Enabled(s, a)
    ensures Sized(t) && t.L == s.L
  {
    match a
    case Make(e) => s.(hands := s.hands + multiset{e})
    case PushLock(e) => s.(writer := WHeld(e))
    case PushSnapshot => s.(writer := WSnap(s.writer.e, s.R, s.r))
    case PushStore =>
      if Room(s.L, s.writer.Ro, s.W) > 0 then s.(B := s.B[s.W % s.L := Some(s.writer.e)], writer := WStored(s.writer.e))
      else s.(writer := WDone(false))
    case PushPublish =>
      s.(W := Normalize(s.W + 1, s.L), writer := WDone(true), hands := s.hands - multiset{s.writer.e},
         w := Adv(s.L, s.w, 1), queue := s.queue + [s.writer.e], pushed := s.pushed + [s.writer.e])
    case PushUnlock => s.(writer := WFree)
    case PopLock => s.(reader := RHeld)
    case PopSnapshot => s.(reader := RSnap(s.W, s.w))
    case PopTake =>
      if s.L - Room(s.L, s.R, s.reader.Wo) > 0 then s.(reader := RTaken(s.B[s.R % s.L])) else s.(reader := RDone)
    case PopClear => s.(B := s.B[s.R % s.L := None], reader := RCleared(s.reader.got))
    case PopPublish =>
      var out := if s.reader.got.Some? then [s.reader.got.value] else [];
      s.(R := Normalize(s.R + 1, s.L), reader := RDone, hands := s.hands + multiset(out),
         r := Adv(s.L, s.r, 1), queue := if s.queue == [] then [] else s.queue[1..], popped := s.popped + out)
    case PopUnlock => s.(reader := RFree)
  }

  // ---------------------------------------------------------------- what every step keeps

  /** What slot x holds: the queue, but for a head already cleared and an element not yet published. */
  ghost function Mem<E>(L: int, r: Pos, w: Pos, queue: seq<E>, writer: Writer<E>, reader: Reader<E>, x: int): Option<E> {
    if reader.RCleared? && x == r.off then None
    else if writer.WStored? && x == w.off then Some(writer.e)
    else Expected(L, r.off, queue, x)
  }

  ghost predicate Slots<E>(s: State<E>)
    requires Sized(s)
  {
    forall x :: 0 <= x < s.L ==> s.B[x] == Mem(s.L, s.r, s.w, s.queue, s.writer, s.reader, x)
  }

  ghost predicate Offsets<E>(s: State<E>) {
    && s.L > 0 && Ahead(s.L, s.r, s.w) && Dist(s.L, s.r, s.w) == |s.queue|
    && s.R == Code(s.L, s.r) && s.W == Code(s.L, s.w)
  }

  /** A stale snapshot errs on the safe side. */
  ghost predicate Pushing<E>(s: State<E>)
    requires s.L > 0
  {
    match s.writer
    case WHeld(e) => e in s.hands
    case WSnap(e, Ro, rs) => e in s.hands && Ahead(s.L, rs, s.w) && |s.queue| <= Dist(s.L, rs, s.w) && Ro == Code(s.L, rs)
    case WStored(e) => e in s.hands && |s.queue| < s.L
    case _ => true
  }

  ghost predicate Popping<E>(s: State<E>)
    requires s.L > 0
  {
    match s.reader
    case RSnap(Wo, ws) => Ahead(s.L, s.r, ws) && Dist(s.L, s.r, ws) <= |s.queue| && Wo == Code(s.L, ws)
    case RTaken(got) => s.queue != [] && got == Some(s.queue[0])
    case RCleared(got) => s.queue != [] && got == Some(s.queue[0])
    case _ => true
  }

  ghost predicate Inv<E>(s: State<E>) {
    Sized(s) && Offsets(s) && Slots(s) && Pushing(s) && Popping(s) && s.pushed == s.popped + s.queue
  }

  lemma InitInv<E>(L: nat)
    requires L > 0
    ensures Inv(Init<E>(L))
  {
  }

  lemma RoomIs<E>(s: State<E>)
    requires Inv(s)
    ensures s.writer.WSnap? ==> Room(s.L, s.writer.Ro, s.W) == s.L - Dist(s.L, s.writer.rs, s.w)
    ensures s.reader.RSnap? ==> Room(s.L, s.R, s.reader.Wo) == s.L - Dist(s.L, s.r, s.reader.ws)
    ensures s.W % s.L == s.w.off && s.R % s.L == s.r.off
  {
    OffsetsTellDistance(s.L, s.r, s.w);
    if s.writer.WSnap? {
      OffsetsTellDistance(s.L, s.writer.rs, s.w);
    }
    if s.reader.RSnap? {
      OffsetsTellDistance(s.L, s.r, s.reader.ws);
    }
  }

  lemma StoreInv<E>(s: State<E>)
    requires Inv(s) && Enabled(s, PushStore)
    ensures Inv(Apply(s, PushStore))
  {
    RoomIs(s);
    var t := Apply(s, PushStore);
    if t.writer.WStored? {
      PushSlots(s.L, s.r, s.w, s.queue, s.writer.e);
    }
    assert Slots(t);
  }

  lemma PushPublishInv<E>(s: State<E>)
    requires Inv(s) && Enabled(s, PushPublish)
    ensures Inv(Apply(s, PushPublish))
  {
    var t := Apply(s, PushPublish);
    PushSlots(s.L, s.r, s.w, s.queue, s.writer.e);
    NormalizeAdv(s.L, s.w, 1);
    assert Slots(t);
    assert t.pushed == t.popped + t.queue;
  }

  lemma TakeInv<E>(s: State<E>)
    requires Inv(s) && Enabled(s, PopTake)
    ensures Inv(Apply(s, PopTake))
  {
    RoomIs(s);
    if Apply(s, PopTake).reader.RTaken? {
      PopSlots(s.L, s.r, s.w, s.queue);
      assert s.B[s.r.off] == Mem(s.L, s.r, s.w, s.queue, s.writer, s.reader, s.r.off);
    }
  }

  lemma ClearInv<E>(s: State<E>)
    requires Inv(s) && Enabled(s, PopClear)
    ensures Inv(Apply(s, PopClear))
  {
    RoomIs(s);
    assert Slots(Apply(s, PopClear));
  }

  lemma PopPublishInv<E>(s: State<E>)
    requires Inv(s) && Enabled(s, PopPublish)
    ensures Inv(Apply(s, PopPublish))
  {
    var t := Apply(s, PopPublish);
    PopSlots(s.L, s.r, s.w, s.queue);
    NormalizeAdv(s.L, s.r, 1);
    assert Slots(t);
    assert s.queue == [s.queue[0]] + s.queue[1..];
    assert t.pushed == t.popped + t.queue;
  }

  lemma SnapshotInv<E>(s: State<E>, a: Step<E>)
    requires Inv(s) && Enabled(s, a) && (a.PushSnapshot? || a.PopSnapshot?)
    ensures Inv(Apply(s, a))
  {
    assert Slots(Apply(s, a));
  }

  lemma StepInv<E>(s: State<E>, a: Step<E>)
    requires Inv(s) && Enabled(s, a)
    ensures Inv(Apply(s, a))
  {
    match a
    case PushStore => StoreInv(s);
    case PushPublish => PushPublishInv(s);
    case PopTake => TakeInv(s);
    case PopClear => ClearInv(s);
    case PopPublish => PopPublishInv(s);
    case PushSnapshot => SnapshotInv(s, a);
    case PopSnapshot => SnapshotInv(s, a);
    case _ => assert Slots(Apply(s, a));
  }

  ghost predicate IsRun<E>(s: State<E>, steps: seq<Step<E>>)
    requires Sized(s)
    decreases |steps|
  {
    steps == [] || (Enabled(s, steps[0]) && IsRun(Apply(s, steps[0]), steps[1..]))
  }

  ghost function Final<E>(s: State<E>, steps: seq<Step<E>>): (t: State<E>)
    requires Sized(s) && IsRun(s, steps)
    ensures Sized(t) && t.L == s.L
    decreases |steps|
  {
    if steps == [] then s else Final(Apply(s, steps[0]), steps[1..])
  }

  lemma {:induction false} RunInv<E>(s: State<E>, steps: seq<Step<E>>)
    requires Inv(s) && IsRun(s, steps)
    ensures Inv(Final(s, steps))
    decreases |steps|
  {
    if steps != [] {
      StepInv(s, steps[0]);
      RunInv(Apply(s, steps[0]), steps[1..]);
    }
  }

  // ---------------------------------------------------------------- what it gives

  /** The slot i places after the one the read offset points to. */
  ghost function SlotAt<E>(s: State<E>, i: nat): Option<E>
    requires Sized(s)
  {
    s.B[(s.R % s.L + i) % s.L]
  }

  /** What is there: the queue, but for a head already cleared and an element not yet published; otherwise NULL. */
  ghost function QueuedAt<E>(s: State<E>, i: nat): Option<E> {
    if i < |s.queue| then if i == 0 && s.reader.RCleared? then None else Some(s.queue[i])
    else if i == |s.queue| && s.writer.WStored? then Some(s.writer.e) else None
  }

  lemma SlotIsQueued<E>(s: State<E>, i: nat)
    requires Inv(s) && i < s.L
    ensures SlotAt(s, i) == QueuedAt(s, i)
  {
    RoomIs(s);
    var x := if s.r.off + i < s.L then s.r.off + i else s.r.off + i - s.L;
    DivUnique(s.r.off + i, s.L, if s.r.off + i < s.L then 0 else 1, x);
    assert s.B[x] == Mem(s.L, s.r, s.w, s.queue, s.writer, s.reader, x) && Rel(s.L, s.r.off, x) == i;
    if s.writer.WStored? {
      PushSlots(s.L, s.r, s.w, s.queue, s.writer.e);
    }
  }

  /**
   * In every run, what was popped and then what is queued is what was pushed, in order;
   * and from the slot the read offset points to on, the array holds the queue and then
   * only NULL.
   */
  lemma EveryRunIsFifo<E>(L: nat, steps: seq<Step<E>>)
    requires L > 0 && IsRun(Init(L), steps)
    ensures var s := Final(Init(L), steps);
            && s.pushed == s.popped + s.queue && |s.queue| <= L
            && forall i :: 0 <= i < L ==> SlotAt(s, i) == QueuedAt(s, i)
  {
    InitInv<E>(L);
    RunInv(Init(L), steps);
    var s := Final(Init(L), steps);
    forall i | 0 <= i < L
      ensures SlotAt(s, i) == QueuedAt(s, i)
    {
      SlotIsQueued(s, i);
    }
  }

  /** The elements the array and the two offsets show, a head already cleared being the one its reader took. */
  ghost function Shown<E>(s: State<E>): seq<Option<E>>
    requires Sized(s)
  {
    var n := s.L - Room(s.L, s.R, s.W);
    seq(if n < 0 then 0 else n, i requires 0 <= i => if i == 0 && s.reader.RCleared? then s.reader.got else SlotAt(s, i))
  }

  ghost function Somes<E>(queue: seq<E>): (r: seq<Option<E>>)
    ensures |r| == |queue|
  {
    seq(|queue|, i requires 0 <= i < |queue| => Some(queue[i]))
  }

  lemma SomesMove<E>(queue: seq<E>, e: E)
    ensures Somes(queue + [e]) == Somes(queue) + [Some(e)]
    ensures Somes([e] + queue) == [Some(e)] + Somes(queue)
  {
  }

  lemma ShownIsQueue<E>(s: State<E>)
    requires Inv(s)
    ensures Shown(s) == Somes(s.queue)
  {
    OffsetsTellDistance(s.L, s.r, s.w);
    forall i | 0 <= i < |s.queue|
      ensures Shown(s)[i] == Some(s.queue[i])
    {
      SlotIsQueued(s, i);
    }
  }

  lemma QueueMoves<E>(s: State<E>, a: Step<E>)
    requires Inv(s) && Enabled(s, a)
    ensures var q := Apply(s, a).queue;
            match a
            case PushPublish => q == s.queue + [s.writer.e]
            case PopPublish => s.reader.got.Some? && s.queue == [s.reader.got.value] + q
            case _ => q == s.queue
  {
  }

  /** What the memory shows moves only when an offset is published: one element in at the back, or the head out. */
  lemma StepRefinesQueue<E>(s: State<E>, a: Step<E>)
    requires Inv(s) && Enabled(s, a)
    ensures var t := Apply(s, a);
            match a
            case PushPublish => Shown(t) == Shown(s) + [Some(s.writer.e)]
            case PopPublish => Shown(s) == [s.reader.got] + Shown(t)
            case _ => Shown(t) == Shown(s)
  {
    StepInv(s, a);
    ShownIsQueue(s);
    ShownIsQueue(Apply(s, a));
    QueueMoves(s, a);
    match a
    case PushPublish => SomesMove(s.queue, s.writer.e);
    case PopPublish => SomesMove(Apply(s, a).queue, s.reader.got.value);
    case _ =>
  }

  /** Everything in the ring and in hands. */
  ghost function Elements<E>(s: State<E>): multiset<E> {
    multiset(s.queue) + s.hands
  }

  lemma PopMoves<E>(queue: seq<E>, hands: multiset<E>)
    requires queue != []
    ensures multiset(queue[1..]) + (hands + multiset([queue[0]])) == multiset(queue) + hands
  {
    assert queue == [queue[0]] + queue[1..];
  }

  lemma PushMoves<E>(queue: seq<E>, hands: multiset<E>, e: E)
    requires e in hands
    ensures multiset(queue + [e]) + (hands - multiset{e}) == multiset(queue) + hands
  {
  }

  lemma StepConserves<E>(s: State<E>, a: Step<E>)
    requires Inv(s) && Enabled(s, a)
    ensures Elements(Apply(s, a)) == if a.Make? then Elements(s) + multiset{a.e} else Elements(s)
  {
    match a
    case PushPublish => PushMoves(s.queue, s.hands, s.writer.e);
    case PopPublish => PopMoves(s.queue, s.hands);
    case _ =>
  }

  /** A ring with a slot for every element there is, where no push has seen it full. */
  ghost predicate Pooled<E>(s: State<E>) {
    && Inv(s) && |Elements(s)| <= s.L
    && (s.writer.WSnap? ==> Dist(s.L, s.writer.rs, s.w) < s.L)
    && s.writer != WDone(false)
  }

  /** The elements made in a run. */
  ghost function MadeIn<E>(steps: seq<Step<E>>): multiset<E>
  {
    if steps == [] then multiset{}
    else (if steps[0].Make? then multiset{steps[0].e} else multiset{}) + MadeIn(steps[1..])
  }

  lemma MadeInOne<E>(a: Step<E>)
    ensures MadeIn([a]) == if a.Make? then multiset{a.e} else multiset{}
  {
    assert [a][1..] == [];
  }

  /** No push sees the ring full. */
  lemma RoomLasts<E>(s: State<E>, a: Step<E>)
    requires Pooled(s) && Enabled(s, a)
    ensures var t := Apply(s, a); (t.writer.WSnap? ==> Dist(t.L, t.writer.rs, t.w) < t.L) && t.writer != WDone(false)
  {
    if a.PushSnapshot? {
      HandsTakeRoom(s, s.writer.e);
    } else if a.PushStore? {
      RoomIs(s);
    }
  }

  lemma PooledStep<E>(s: State<E>, a: Step<E>)
    requires Pooled(s) && Enabled(s, a) && (a.Make? ==> |Elements(s)| < s.L)
    ensures Pooled(Apply(s, a)) && Elements(Apply(s, a)) == Elements(s) + MadeIn([a])
  {
    StepInv(s, a);
    StepConserves(s, a);
    MadeInOne(a);
    RoomLasts(s, a);
  }

  lemma HandsTakeRoom<E>(s: State<E>, e: E)
    requires e in s.hands
    ensures |s.queue| < |Elements(s)|
  {
    assert |multiset(s.queue)| == |s.queue|;
    assert s.hands == multiset{e} + (s.hands - multiset{e});
  }

  lemma {:induction false} PooledRun<E>(s: State<E>, steps: seq<Step<E>>)
    requires Pooled(s) && IsRun(s, steps) && |Elements(s)| + |MadeIn(steps)| <= s.L
    ensures Pooled(Final(s, steps)) && Elements(Final(s, steps)) == Elements(s) + MadeIn(steps)
    decreases |steps|
  {
    if steps != [] {
      var a, rest := steps[0], steps[1..];
      assert [a][1..] == [] && MadeIn(steps) == MadeIn([a]) + MadeIn(rest);
      PooledStep(s, a);
      PooledRun(Apply(s, a), rest);
    }
  }

  /**
   * The logger's use of the ring as a pool: in every run that makes no more buffers than
   * there are slots, no buffer is lost or doubled, and no push that got the lock has been
   * refused.
   */
  lemma PoolIsKept<E>(L: nat, steps: seq<Step<E>>)
    requires L > 0 && IsRun(Init(L), steps) && |MadeIn(steps)| <= L
    ensures var s := Final(Init(L), steps);
            multiset(s.queue) + s.hands == MadeIn(steps) && s.writer != WDone(false)
  {
    InitInv<E>(L);
    PooledRun(Init(L), steps);
  }

  // ---------------------------------------------------------------- calls do complete

  lemma OneMore<E>(s: State<E>, a: Step<E>, rest: seq<Step<E>>) returns (steps: seq<Step<E>>)
    requires Sized(s) && Enabled(s, a) && IsRun(Apply(s, a), rest)
    ensures steps == [a] + rest && IsRun(s, steps) && Final(s, steps) == Final(Apply(s, a), rest)
  {
    steps := [a] + rest;
    assert steps[1..] == rest;
  }

  /** From the element read out of its slot to the lock given up. */
  lemma FinishPop<E>(s: State<E>) returns (steps: seq<Step<E>>)
    requires Inv(s) && s.reader.RTaken?
    ensures IsRun(s, steps) && s.queue != []
    ensures var t := Final(s, steps);
            && t == s.(B := t.B, R := t.R, reader := RFree, hands := t.hands, r := t.r, queue := s.queue[1..],
                       popped := t.popped)
            && t.popped == s.popped + [s.queue[0]] && t.hands == s.hands + multiset{s.queue[0]}
  {
    var s1 := Apply(s, PopClear);
    var s2 := Apply(s1, PopPublish);
    steps := OneMore(s2, PopUnlock, []);
    steps := OneMore(s1, PopPublish, steps);
    steps := OneMore(s, PopClear, steps);
    assert multiset([s.queue[0]]) == multiset{s.queue[0]};
  }

  /** A thread alone among poppers takes the head of a queue, whatever a pusher is doing. */
  lemma LonePopTakes<E>(s: State<E>) returns (steps: seq<Step<E>>)
    requires Inv(s) && s.reader.RFree? && s.queue != []
    ensures IsRun(s, steps)
    ensures var t := Final(s, steps);
            && Inv(t) && t.reader.RFree? && t.writer == s.writer && t.queue == s.queue[1..]
            && t.popped == s.popped + [s.queue[0]] && t.hands == s.hands + multiset{s.queue[0]} && t.pushed == s.pushed
  {
    var s1 := Apply(s, PopLock);
    StepInv(s, PopLock);
    var s2 := Apply(s1, PopSnapshot);
    StepInv(s1, PopSnapshot);
    RoomIs(s2);
    StepInv(s2, PopTake);
    steps := FinishPop(Apply(s2, PopTake));
    steps := OneMore(s2, PopTake, steps);
    steps := OneMore(s1, PopSnapshot, steps);
    steps := OneMore(s, PopLock, steps);
    RunInv(s, steps);
  }

  /** On an empty ring a pop gives nothing and changes nothing. */
  lemma LonePopEmpty<E>(s: State<E>) returns (steps: seq<Step<E>>)
    requires Inv(s) && s.reader.RFree? && s.queue == []
    ensures IsRun(s, steps) && Final(s, steps) == s && PopTake in steps
  {
    var s1 := Apply(s, PopLock);
    StepInv(s, PopLock);
    var s2 := Apply(s1, PopSnapshot);
    StepInv(s1, PopSnapshot);
    RoomIs(s2);
    var s3 := Apply(s2, PopTake);
    steps := OneMore(s3, PopUnlock, []);
    steps := OneMore(s2, PopTake, steps);
    steps := OneMore(s1, PopSnapshot, steps);
    steps := OneMore(s, PopLock, steps);
    assert steps[2] == PopTake;
  }

  /** A thread alone among pushers queues an element it has, when there is a free slot, whatever a popper is doing. */
  lemma LonePushQueues<E>(s: State<E>, e: E) returns (steps: seq<Step<E>>)
    requires Inv(s) && s.writer.WFree? && e in s.hands && |s.queue| < s.L
    ensures IsRun(s, steps)
    ensures var t := Final(s, steps);
            && Inv(t) && t.writer.WFree? && t.reader == s.reader && t.queue == s.queue + [e]
            && t.pushed == s.pushed + [e] && t.hands == s.hands - multiset{e} && t.popped == s.popped
  {
    var s1 := Apply(s, PushLock(e));
    StepInv(s, PushLock(e));
    var s2 := Apply(s1, PushSnapshot);
    StepInv(s1, PushSnapshot);
    RoomIs(s2);
    var s3 := Apply(s2, PushStore);
    var s4 := Apply(s3, PushPublish);
    steps := OneMore(s4, PushUnlock, []);
    steps := OneMore(s3, PushPublish, steps);
    steps := OneMore(s2, PushStore, steps);
    steps := OneMore(s1, PushSnapshot, steps);
    steps := OneMore(s, PushLock(e), steps);
    RunInv(s, steps);
  }

  /** On a full ring a push is refused and changes nothing. */
  lemma LonePushRefused<E>(s: State<E>, e: E) returns (steps: seq<Step<E>>)
    requires Inv(s) && s.writer.WFree? && e in s.hands && |s.queue| == s.L
    ensures IsRun(s, steps) && Final(s, steps) == s && PushStore in steps
  {
    var s1 := Apply(s, PushLock(e));
    StepInv(s, PushLock(e));
    var s2 := Apply(s1, PushSnapshot);
    StepInv(s1, PushSnapshot);
    RoomIs(s2);
    var s3 := Apply(s2, PushStore);
    steps := OneMore(s3, PushUnlock, []);
    steps := OneMore(s2, PushStore, steps);
    steps := OneMore(s1, PushSnapshot, steps);
    steps := OneMore(s, PushLock(e), steps);
    assert steps[2] == PushStore;
  }

  lemma {:induction false} RunConcat<E>(s: State<E>, a: seq<Step<E>>, b: seq<Step<E>>)
    requires Sized(s) && IsRun(s, a) && IsRun(Final(s, a), b)
    ensures IsRun(s, a + b) && Final(s, a + b) == Final(Final(s, a), b)
    decreases |a|
  {
    if a == [] {
      assert a + b == b;
    } else {
      TailConcat(a, b);
      RunConcat(Apply(s, a[0]), a[1..], b);
    }
  }

  lemma TailConcat<T>(a: seq<T>, b: seq<T>)
    requires a != []
    ensures a + b != [] && (a + b)[0] == a[0] && (a + b)[1..] == a[1..] + b
  {
  }

  lemma MakeAndPush<E>(s: State<E>, e: E) returns (steps: seq<Step<E>>)
    requires Inv(s) && s.writer.WFree? && |s.queue| < s.L
    ensures IsRun(s, steps)
    ensures var t := Final(s, steps);
            Inv(t) && t.queue == s.queue + [e] && t.writer.WFree? && t.reader == s.reader && t.hands == s.hands
  {
    var s1 := Apply(s, Make(e));
    StepInv(s, Make(e));
    var push := LonePushQueues(s1, e);
    steps := OneMore(s, Make(e), push);
    assert s.hands + multiset{e} - multiset{e} == s.hands;
  }

  lemma HeadOver<T>(a: seq<T>, b: seq<T>)
    requires b != []
    ensures a + [b[0]] + b[1..] == a + b
  {
  }

  /** Making and pushing elements one by one, as long as there are free slots. */
  lemma {:induction false} Fills<E>(s: State<E>, buffers: seq<E>) returns (steps: seq<Step<E>>)
    requires Inv(s) && s.writer.WFree? && |s.queue| + |buffers| <= s.L
    ensures IsRun(s, steps)
    ensures var t := Final(s, steps);
            t.queue == s.queue + buffers && t.writer.WFree? && t.reader == s.reader && t.hands == s.hands
    decreases |buffers|
  {
    if buffers == [] {
      steps := [];
    } else {
      var more := MakeAndPush(s, buffers[0]);
      var u := Final(s, more);
      var rest := Fills(u, buffers[1..]);
      RunConcat(s, more, rest);
      steps := more + rest;
      HeadOver(s.queue, buffers);
    }
  }

  /** A pool is filled by making its buffers and pushing them, up to as many as there are slots. */
  lemma PoolFills<E>(L: nat, buffers: seq<E>) returns (steps: seq<Step<E>>)
    requires 0 < L && |buffers| <= L
    ensures IsRun(Init(L), steps)
    ensures var t := Final(Init(L), steps);
            Inv(t) && t.queue == buffers && t.writer.WFree? && t.reader.RFree? && t.hands == multiset{}
  {
    InitInv<E>(L);
    steps := Fills(Init(L), buffers);
    RunInv(Init(L), steps);
  }
}
