/**
 * The ring buffer as a step machine: any number of writers and readers, each side
 * serialised by its own try-lock, snapshots of the other side's offset that may be
 * stale by the time they are used, memory written and read one byte at a time in any
 * order, and (for the process-shared twin) owners that die at any step and are
 * recovered by the next one to try the lock.
 *
 * A failed try-lock changes nothing, so it is not a step.  The fields r, w, slots,
 * accepted and delivered, and base, rs, ws, k and drop inside the two control states,
 * are history: no step looks at them to decide what the code does.
 */
module RingMachine {
  import opened Division
  import opened LittleEndian
  import opened RingLayout
  import opened RingPlans

  datatype Writer =
    | WFree
    | WHeld(data: seq<Byte>, base: seq<seq<Byte>>)
    | WSnap(data: seq<Byte>, base: seq<seq<Byte>>, Ro: int, rs: Pos)
    | WFill(data: seq<Byte>, base: seq<seq<Byte>>, plan: WritePlan, done: set<int>, rs: Pos)
    | WDone(data: seq<Byte>, base: seq<seq<Byte>>, ok: bool)
    | WDead(data: seq<Byte>, base: seq<seq<Byte>>, ok: bool)

  datatype Reader =
    | RFree
    | RHeld
    | RSnap(Wo: int, k: nat, ws: Pos)
    | RSkip(next: int)
    | RCopy(at: int, size: nat, next: int, drop: nat, got: map<int, Byte>)
    | RDone
    | RFatal
    | RDead

  datatype State = State(
    L: nat, buf: seq<Byte>, Ro: int, Wo: int, writer: Writer, reader: Reader,
    r: Pos, w: Pos, slots: seq<Slot>, accepted: seq<seq<Byte>>, delivered: seq<seq<Byte>>)

  datatype Step =
    | WriterLock(data: seq<Byte>) | WriterSnapshot | WriterPlan | WriterByte(x: int) | WriterPublish | WriterUnlock
    | ReaderLock | ReaderSnapshot | ReaderLook | ReaderSkip | ReaderByte(x: int) | ReaderCommit(again: bool)
    | ReaderDecline | ReaderUnlock
    | WriterDies | WriterRecovered | ReaderDies | ReaderRecovered

  function Init(L: nat): State {
    State(L, seq(L, _ => 0), 0, 0, WFree, RFree, Pos(0, 0), Pos(0, 0), [], [], [])
  }

  /** The entries ringbufst_write does not turn away before it tries the lock. */
  predicate Admissible(L: int, d: seq<Byte>) {
    8 * EntrySize(|d|) <= L
  }

  predicate InSlot(L: int, at: int, size: nat, x: int) {
    at + HDR <= x < at + HDR + size && 0 <= x < L
  }

  predicate Enabled(s: State, a: Step)
    requires s.L > 0 && |s.buf| == s.L
  {
    match a
    case WriterLock(d) => s.writer.WFree? && Admissible(s.L, d)
    case WriterSnapshot => s.writer.WHeld?
    case WriterPlan => s.writer.WSnap?
    case WriterByte(x) =>
      && s.writer.WFill? && s.writer.plan.Place? && 0 <= x < s.L
      && Fills(s.L, s.writer.plan.at, s.writer.plan.wipe, s.Wo % s.L, |s.writer.data|, x)
    case WriterPublish =>
      && s.writer.WFill? && s.writer.plan.Place?
      && forall x :: 0 <= x < s.L && Fills(s.L, s.writer.plan.at, s.writer.plan.wipe, s.Wo % s.L, |s.writer.data|, x)
           ==> x in s.writer.done
    case WriterUnlock => s.writer.WDone?
    case ReaderLock => s.reader.RFree?
    case ReaderSnapshot => s.reader.RHeld?
    case ReaderLook => s.reader.RSnap? && 0 <= s.Ro % s.L && s.Ro % s.L + HDR <= s.L
    case ReaderSkip => s.reader.RSkip?
    case ReaderByte(x) => s.reader.RCopy? && InSlot(s.L, s.reader.at, s.reader.size, x)
    case ReaderCommit(_) =>
      s.reader.RCopy? && forall x :: 0 <= x < s.L && InSlot(s.L, s.reader.at, s.reader.size, x) ==> x in s.reader.got
    case ReaderDecline => s.reader.RCopy?
    case ReaderUnlock => s.reader.RDone?
    case WriterDies => !s.writer.WFree? && !s.writer.WDead?
    case WriterRecovered => s.writer.WDead?
    case ReaderDies => !s.reader.RFree? && !s.reader.RFatal? && !s.reader.RDead?
    case ReaderRecovered => s.reader.RDead?
  }

  function Dropped(slots: seq<Slot>, k: nat): seq<Slot> {
    if k <= |slots| then slots[k..] else []
  }

  function Taken(slots: seq<Slot>, k: nat): seq<Slot> {
    if k <= |slots| then slots[..k] else slots
  }

  /** The entry a reader assembled from the bytes it copied. */
  function Assemble(at: int, size: nat, got: map<int, Byte>): (d: seq<Byte>)
    ensures |d| == size
  {
    seq(size, i requires 0 <= i < size => if at + HDR + i in got then got[at + HDR + i] else 0)
  }

  function Apply(s: State, a: Step): (t: State)
    requires s.L > 0 && |s.buf| == s.L && Enabled(s, a)
    ensures t.L == s.L && |t.buf| == |s.buf|
  {
    match a
    case WriterLock(d) => s.(writer := WHeld(d, s.accepted))
    case WriterSnapshot => s.(writer := WSnap(s.writer.data, s.writer.base, s.Ro, s.r))
    case WriterPlan =>
      var plan := PlanWrite(s.L, s.writer.Ro, s.Wo, EntrySize(|s.writer.data|));
      s.(writer := if plan == Refuse then WDone(s.writer.data, s.writer.base, false)
                   else WFill(s.writer.data, s.writer.base, plan, {}, s.writer.rs))
    case WriterByte(x) =>
      s.(buf := s.buf[x := ImageByte(s.writer.plan.at, s.writer.data, x)],
         writer := s.writer.(done := s.writer.done + {x}))
    case WriterPublish =>
      var d, plan := s.writer.data, s.writer.plan;
      s.(Wo := plan.next, writer := WDone(d, s.writer.base, true),
         w := NextPos(s.L, s.w, EntrySize(|d|), plan.wipe),
         slots := s.slots + NewSlots(s.L, s.w.off, plan.wipe, d),
         accepted := s.accepted + [d])
    case WriterUnlock => s.(writer := WFree)
    case ReaderLock => s.(reader := RHeld)
    case ReaderSnapshot => s.(reader := RSnap(s.Wo, |s.slots|, s.w))
    case ReaderLook =>
      (match PlanRead(s.L, s.Ro, s.reader.Wo, s.buf)
       case Nothing => s.(reader := RDone)
       case Fatal => s.(reader := RFatal)
       case Skip(next) => s.(reader := RSkip(next))
       case Deliver(at, size, next) =>
         s.(reader := RCopy(at, size, next, if s.slots != [] && s.slots[0].Gap? then 2 else 1, map[])))
    case ReaderSkip =>
      s.(Ro := s.reader.next, reader := RDone, r := End(s.L, Taken(s.slots, 1), s.r), slots := Dropped(s.slots, 1))
    case ReaderByte(x) => s.(reader := s.reader.(got := s.reader.got[x := s.buf[x]]))
    case ReaderCommit(again) =>
      s.(Ro := s.reader.next, reader := if again then RHeld else RDone,
         r := End(s.L, Taken(s.slots, s.reader.drop), s.r), slots := Dropped(s.slots, s.reader.drop),
         delivered := s.delivered + [Assemble(s.reader.at, s.reader.size, s.reader.got)])
    case ReaderDecline => s.(reader := RDone)
    case ReaderUnlock => s.(reader := RFree)
    case WriterDies => s.(writer := WDead(s.writer.data, s.writer.base, s.writer.WDone? && s.writer.ok))
    case WriterRecovered => s.(writer := WFree)
    case ReaderDies => s.(reader := RDead)
    case ReaderRecovered => s.(reader := RFree)
  }

  // ---------------------------------------------------------------- the invariant

  predicate Writing(L: nat, buf: seq<Byte>, r: Pos, w: Pos, accepted: seq<seq<Byte>>, c: Writer)
    requires |buf| == L > 0
  {
    match c
    case WFree => true
    case WHeld(d, base) => Admissible(L, d) && accepted == base
    case WSnap(d, base, Ro, rs) => Admissible(L, d) && accepted == base && Snapshot(L, rs, r, w) && Ro == Code(L, rs)
    case WFill(d, base, plan, done, rs) =>
      && Admissible(L, d) && accepted == base && Snapshot(L, rs, r, w)
      && plan == PlanWrite(L, Code(L, rs), Code(L, w), EntrySize(|d|)) && plan.Place?
      && forall x :: x in done ==> 0 <= x < L && buf[x] == ImageByte(plan.at, d, x)
    case WDone(d, base, ok) => accepted == base + (if ok then [d] else [])
    case WDead(d, base, ok) => accepted == base + (if ok then [d] else [])
  }

  /** The entry a reader is copying is the head of the queue, behind at most one short hole. */
  predicate Copying(L: nat, r: Pos, slots: seq<Slot>, c: Reader)
    requires c.RCopy?
  {
    && (c.drop == 1 || (c.drop == 2 && |slots| > 1 && slots[0].Gap?))
    && c.drop <= |slots| && slots[c.drop - 1].Msg?
    && (c.drop == 1 ==> c.at == r.off) && (c.drop == 2 ==> c.at == 0)
    && c.size == |slots[c.drop - 1].data|
    && c.next == Code(L, End(L, slots[..c.drop], r))
    && forall x :: x in c.got && InSlot(L, c.at, c.size, x) ==> c.got[x] == slots[c.drop - 1].data[x - c.at - HDR]
  }

  predicate Reading(L: nat, r: Pos, slots: seq<Slot>, c: Reader) {
    match c
    case RSnap(Wo, k, ws) =>
      && k <= |slots| && (k > 0 ==> slots[k - 1].Msg?)
      && ws == End(L, slots[..k], r) && Wo == Code(L, ws)
    case RSkip(next) => slots != [] && slots[0].Gap? && next == Code(L, Pos(r.lap + 1, 0))
    case RCopy(_, _, _, _, _) => Copying(L, r, slots, c)
    case RFatal => false
    case _ => true
  }

  predicate Inv(s: State) {
    && RingOk(s.L, s.buf, s.r, s.w, s.slots)
    && s.Ro == Code(s.L, s.r) && s.Wo == Code(s.L, s.w)
    && s.accepted == s.delivered + Msgs(s.slots) && [] !in s.accepted
    && Writing(s.L, s.buf, s.r, s.w, s.accepted, s.writer) && Reading(s.L, s.r, s.slots, s.reader)
  }

  lemma InitInv(L: nat)
    requires ValidLength(L)
    ensures Inv(Init(L))
  {
    PagesAreAligned(L);
    assert RingOk(L, Init(L).buf, Pos(0, 0), Pos(0, 0), []);
  }

  lemma PagesAreAligned(L: int)
    requires ValidLength(L)
    ensures RingLength(L)
  {
    assert L == (512 * (L / PAGE)) * HDR;
    DivUnique(L, HDR, 512 * (L / PAGE), 0);
  }

  // ---------------------------------------------------------------- one step

  lemma FillByte(L: nat, buf: seq<Byte>, r: Pos, w: Pos, slots: seq<Slot>, accepted: seq<seq<Byte>>, c: Writer, x: int)
    requires RingOk(L, buf, r, w, slots) && c.WFill? && Writing(L, buf, r, w, accepted, c)
    requires Fills(L, c.plan.at, c.plan.wipe, w.off, |c.data|, x)
    ensures 0 <= x < L
    ensures var buf' := buf[x := ImageByte(c.plan.at, c.data, x)];
            && RingOk(L, buf', r, w, slots)
            && Writing(L, buf', r, w, accepted, c.(done := c.done + {x}))
  {
    FillOutside(L, buf, c.rs, r, w, slots, c.data, c.plan, x);
    RingFrame(L, buf, buf[x := ImageByte(c.plan.at, c.data, x)], r, w, slots);
  }

  lemma WriterByteInv(s: State, x: int)
    requires Inv(s) && Enabled(s, WriterByte(x))
    ensures Inv(Apply(s, WriterByte(x)))
  {
    RingFacts(s.L, s.buf, s.r, s.w, s.slots);
    CodeDivMod(s.L, s.w);
    FillByte(s.L, s.buf, s.r, s.w, s.slots, s.accepted, s.writer, x);
  }

  /** A reader's view is not disturbed by entries added behind what it sees. */
  lemma ReadingGrows(L: nat, r: Pos, slots: seq<Slot>, more: seq<Slot>, c: Reader)
    requires Reading(L, r, slots, c)
    ensures Reading(L, r, slots + more, c)
  {
    if c.RSnap? {
      assert (slots + more)[..c.k] == slots[..c.k];
    } else if c.RCopy? {
      assert (slots + more)[..c.drop] == slots[..c.drop];
    }
  }

  lemma WriterPublishInv(s: State)
    requires Inv(s) && Enabled(s, WriterPublish) && s.writer.data != []
    ensures Inv(Apply(s, WriterPublish))
    ensures Msgs(Apply(s, WriterPublish).slots) == Msgs(s.slots) + [s.writer.data]
  {
    var c := s.writer;
    RingFacts(s.L, s.buf, s.r, s.w, s.slots);
    CodeDivMod(s.L, s.w);
    Publish(s.L, s.buf, c.rs, s.r, s.w, s.slots, c.data, c.plan);
    ReadingGrows(s.L, s.r, s.slots, NewSlots(s.L, s.w.off, c.plan.wipe, c.data), s.reader);
  }

  lemma LookInv(s: State)
    requires Inv(s) && s.reader.RSnap?
    ensures Enabled(s, ReaderLook) && Inv(Apply(s, ReaderLook))
  {
    PlanReadMeaning(s.L, s.buf, s.r, s.w, s.slots, s.reader.k, s.reader.ws);
    TakeEnd(s.L, s.slots, s.r);
    if s.slots != [] && s.slots[0].Gap? {
      assert s.slots[1].Msg? && Stored(s.L, s.buf, s.slots, s.r);
      assert Adv(s.L, s.r, SizeOf(s.slots[0])) == Pos(s.r.lap + 1, 0);
    }
  }

  lemma CopyByte(L: nat, buf: seq<Byte>, r: Pos, w: Pos, slots: seq<Slot>, c: Reader, x: int)
    requires RingOk(L, buf, r, w, slots) && c.RCopy? && Copying(L, r, slots, c) && InSlot(L, c.at, c.size, x)
    ensures buf[x] == slots[c.drop - 1].data[x - c.at - HDR]
    ensures Covers(L, slots, r, x)
  {
    HeadBytes(L, buf, r, w, slots);
    ByteOfRange(buf, c.at + HDR, slots[c.drop - 1].data, x);
    CopyCovered(L, buf, r, slots, c, x);
  }

  lemma ByteOfRange(buf: seq<Byte>, at: nat, d: seq<Byte>, x: int)
    requires at + |d| <= |buf| && buf[at..at + |d|] == d && at <= x < at + |d|
    ensures buf[x] == d[x - at]
  {
    assert buf[at..at + |d|][x - at] == buf[x];
  }

  lemma CopyCovered(L: nat, buf: seq<Byte>, r: Pos, slots: seq<Slot>, c: Reader, x: int)
    requires |buf| == L && Stored(L, buf, slots, r) && c.RCopy? && Copying(L, r, slots, c) && InSlot(L, c.at, c.size, x)
    ensures Covers(L, slots, r, x)
  {
    EntrySizeFacts(c.size);
    if c.drop == 2 {
      SecondStored(L, buf, r, slots);
      assert Covers(L, slots[1..], Pos(r.lap + 1, 0), x);
    }
  }

  lemma ReaderByteInv(s: State, x: int)
    requires Inv(s) && Enabled(s, ReaderByte(x))
    ensures Inv(Apply(s, ReaderByte(x)))
  {
    CopyByte(s.L, s.buf, s.r, s.w, s.slots, s.reader, x);
    CopiedByte(s.L, s.r, s.slots, s.reader, x, s.buf[x]);
  }

  lemma CopiedByte(L: nat, r: Pos, slots: seq<Slot>, c: Reader, x: int, v: Byte)
    requires c.RCopy? && Copying(L, r, slots, c) && InSlot(L, c.at, c.size, x) && v == slots[c.drop - 1].data[x - c.at - HDR]
    ensures Reading(L, r, slots, c.(got := c.got[x := v]))
  {
  }

  /** What a reader has assembled when it commits is the head entry, byte for byte. */
  lemma CommitDeliversHead(s: State)
    requires Inv(s) && Enabled(s, ReaderCommit(false))
    ensures s.slots[s.reader.drop - 1].Msg?
    ensures Assemble(s.reader.at, s.reader.size, s.reader.got) == s.slots[s.reader.drop - 1].data
  {
    HeadBytes(s.L, s.buf, s.r, s.w, s.slots);
    var c := s.reader;
    forall i | 0 <= i < c.size
      ensures Assemble(c.at, c.size, c.got)[i] == s.slots[c.drop - 1].data[i]
    {
      assert InSlot(s.L, c.at, c.size, c.at + HDR + i);
    }
  }

  /** A step that only moves the read side forward keeps the invariant. */
  lemma MoveReadOffset(s: State, t: State)
    requires Inv(s) && t == s.(Ro := t.Ro, reader := t.reader, r := t.r, slots := t.slots, delivered := t.delivered)
    requires t.reader in {RHeld, RDone} && t.Ro == Code(t.L, t.r) && RingOk(t.L, t.buf, t.r, t.w, t.slots)
    requires s.r.lap < t.r.lap || (s.r.lap == t.r.lap && s.r.off <= t.r.off)
    requires t.delivered + Msgs(t.slots) == s.delivered + Msgs(s.slots)
    ensures Inv(t)
  {
  }

  lemma SkipInv(s: State)
    requires Inv(s) && Enabled(s, ReaderSkip)
    ensures Inv(Apply(s, ReaderSkip))
    ensures Msgs(Apply(s, ReaderSkip).slots) == Msgs(s.slots)
  {
    var r' := Pos(s.r.lap + 1, 0);
    TakeEnd(s.L, s.slots, s.r);
    DropHead(s.L, s.buf, s.r, s.w, s.slots);
    SecondLap(s.L, s.buf, s.r, s.slots);
    assert Taken(s.slots, 1) == s.slots[..1];
    MoveReadOffset(s, s.(Ro := s.reader.next, reader := RDone, r := r', slots := s.slots[1..]));
  }

  lemma SecondLap(L: nat, buf: seq<Byte>, r: Pos, slots: seq<Slot>)
    requires |buf| == L && slots != [] && slots[0].Gap? && Stored(L, buf, slots, r)
    ensures Adv(L, r, SizeOf(slots[0])) == Pos(r.lap + 1, 0) && Msgs(slots) == Msgs(slots[1..])
  {
  }

  lemma CommitInv(s: State, again: bool)
    requires Inv(s) && Enabled(s, ReaderCommit(again))
    ensures Inv(Apply(s, ReaderCommit(again)))
    ensures Msgs(s.slots) == [Assemble(s.reader.at, s.reader.size, s.reader.got)] + Msgs(Apply(s, ReaderCommit(again)).slots)
  {
    var c := s.reader;
    CommitDeliversHead(s);
    DropSlots(s.L, s.buf, s.r, s.w, s.slots, c.drop);
    var d, rest := s.slots[c.drop - 1].data, s.slots[c.drop..];
    HeadMoves(s.delivered, d, Msgs(rest));
    assert Taken(s.slots, c.drop) == s.slots[..c.drop];
    MoveReadOffset(s, s.(Ro := c.next, reader := if again then RHeld else RDone, r := End(s.L, s.slots[..c.drop], s.r),
                         slots := rest, delivered := s.delivered + [d]));
  }

  lemma HeadMoves(a: seq<seq<Byte>>, d: seq<Byte>, b: seq<seq<Byte>>)
    ensures (a + [d]) + b == a + ([d] + b)
  {
  }

  lemma SnapshotInv(s: State)
    requires Inv(s) && s.reader.RHeld?
    ensures Inv(Apply(s, ReaderSnapshot))
  {
    assert s.slots[..|s.slots|] == s.slots;
    if s.slots != [] {
      assert s.slots[|s.slots| - 1].Msg?;
    }
  }

  lemma PlanInv(s: State)
    requires Inv(s) && s.writer.WSnap?
    ensures Inv(Apply(s, WriterPlan))
  {
  }

  lemma WriterSnapshotInv(s: State)
    requires Inv(s) && s.writer.WHeld?
    ensures Inv(Apply(s, WriterSnapshot))
  {
    RingFacts(s.L, s.buf, s.r, s.w, s.slots);
  }

  /** Taking or giving up a lock, and dying or being recovered, change nothing else. */
  lemma LockInv(s: State, a: Step)
    requires Inv(s) && Enabled(s, a)
    requires a.WriterLock? || a.WriterUnlock? || a.ReaderLock? || a.ReaderDecline? || a.ReaderUnlock?
             || a.WriterDies? || a.WriterRecovered? || a.ReaderDies? || a.ReaderRecovered?
    ensures Inv(Apply(s, a))
    ensures Apply(s, a) == s.(writer := Apply(s, a).writer, reader := Apply(s, a).reader)
  {
  }

  /** The one step that does harm: publishing an entry of no bytes, whose header is the marker of a hole. */
  predicate PublishesNothing(s: State, a: Step) {
    a.WriterPublish? && s.writer.WFill? && s.writer.data == []
  }

  /** Every other step keeps the invariant. */
  lemma StepInv(s: State, a: Step)
    requires Inv(s) && Enabled(s, a)
    ensures Inv(Apply(s, a)) <==> !PublishesNothing(s, a)
  {
    match a
    case WriterByte(x) => WriterByteInv(s, x);
    case WriterPublish =>
      if s.writer.data != [] {
        WriterPublishInv(s);
      } else {
        assert [] in Apply(s, a).accepted;
      }
    case WriterSnapshot => WriterSnapshotInv(s);
    case WriterPlan => PlanInv(s);
    case ReaderSnapshot => SnapshotInv(s);
    case ReaderLook => LookInv(s);
    case ReaderSkip => SkipInv(s);
    case ReaderByte(x) => ReaderByteInv(s, x);
    case ReaderCommit(again) => CommitInv(s, again);
    case _ => LockInv(s, a);
  }

  // ---------------------------------------------------------------- whole runs

  predicate IsRun(s: State, steps: seq<Step>)
    requires s.L > 0 && |s.buf| == s.L
    decreases |steps|
  {
    steps == [] || (Enabled(s, steps[0]) && IsRun(Apply(s, steps[0]), steps[1..]))
  }

  function Final(s: State, steps: seq<Step>): (t: State)
    requires s.L > 0 && |s.buf| == s.L && IsRun(s, steps)
    ensures t.L == s.L && |t.buf| == |s.buf|
    decreases |steps|
  {
    if steps == [] then s else Final(Apply(s, steps[0]), steps[1..])
  }

  /** The queue held in memory: what a lone reader would take out. */
  function Queue(s: State): seq<seq<Byte>>
    requires s.L > 0 && |s.buf| == s.L
  {
    Drain(s.L, s.buf, s.Ro, s.Wo, s.L)
  }

  /** Index x is in the live region the two offsets delimit. */
  predicate Live(s: State, x: int)
    requires s.L > 0
  {
    if RestoreWrap(s.Ro, s.Wo, s.L) == 0 then s.Ro % s.L <= x < s.Wo % s.L
    else s.Ro % s.L <= x || x < s.Wo % s.L
  }

  /** Index x is one the writer holding the lock may still write. */
  predicate Filling(s: State, x: int)
    requires s.L > 0
  {
    && s.writer.WFill? && s.writer.plan.Place?
    && Fills(s.L, s.writer.plan.at, s.writer.plan.wipe, s.Wo % s.L, |s.writer.data|, x)
  }

  /** Index x is one the reader holding the lock may still copy. */
  predicate Copied(s: State, x: int) {
    s.reader.RCopy? && InSlot(s.L, s.reader.at, s.reader.size, x)
  }

  /** Nothing that was accepted is forgotten. */
  lemma {:induction false} AcceptedGrows(s: State, steps: seq<Step>)
    requires s.L > 0 && |s.buf| == s.L && IsRun(s, steps)
    ensures s.accepted <= Final(s, steps).accepted
    decreases |steps|
  {
    if steps != [] {
      AcceptedGrows(Apply(s, steps[0]), steps[1..]);
    }
  }

  lemma EmptyStays(s: State, a: Step, accepted: seq<seq<Byte>>)
    requires s.L > 0 && |s.buf| == s.L && Enabled(s, a) && PublishesNothing(s, a) && Apply(s, a).accepted <= accepted
    ensures [] in accepted
  {
    assert accepted[|s.accepted|] == [];
  }

  lemma {:induction false} RunInv(s: State, steps: seq<Step>)
    requires Inv(s) && IsRun(s, steps) && [] !in Final(s, steps).accepted
    ensures Inv(Final(s, steps))
    decreases |steps|
  {
    if steps != [] {
      var u := Apply(s, steps[0]);
      AcceptedGrows(u, steps[1..]);
      StepInv(s, steps[0]);
      if PublishesNothing(s, steps[0]) {
        EmptyStays(s, steps[0], Final(s, steps).accepted);
        assert false;
      }
      RunInv(u, steps[1..]);
    }
  }

  /** No entry is delivered without a byte, and a reader that copies one copies at least one. */
  predicate SomeBytes(s: State) {
    [] !in s.delivered && (s.reader.RCopy? ==> s.reader.size > 0)
  }

  lemma StepSomeBytes(s: State, a: Step)
    requires s.L > 0 && |s.buf| == s.L && SomeBytes(s) && Enabled(s, a)
    ensures SomeBytes(Apply(s, a))
  {
    if a.ReaderLook? {
      DeliverIsNotEmpty(s.L, s.Ro, s.reader.Wo, s.buf);
    }
  }

  /** Whatever is written, no run delivers an entry of no bytes. */
  lemma {:induction false} RunSomeBytes(s: State, steps: seq<Step>)
    requires s.L > 0 && |s.buf| == s.L && SomeBytes(s) && IsRun(s, steps)
    ensures SomeBytes(Final(s, steps))
    decreases |steps|
  {
    if steps != [] {
      StepSomeBytes(s, steps[0]);
      RunSomeBytes(Apply(s, steps[0]), steps[1..]);
    }
  }

  lemma QueueIsSlots(s: State)
    requires Inv(s)
    ensures Queue(s) == Msgs(s.slots)
  {
    SlotCount(s.L, s.buf, s.slots, s.r);
    DrainIsQueue(s.L, s.buf, s.r, s.w, s.slots, s.L);
  }

  /**
   * In every interleaving, with stale views and deaths, the delivered entries followed by
   * the queue in memory are the accepted entries, in order and byte for byte, exactly as
   * long as no entry of no bytes has been accepted; until then no reader meets what the code
   * calls fatal.
   */
  lemma EveryRunIsFifo(L: nat, steps: seq<Step>)
    requires ValidLength(L) && IsRun(Init(L), steps)
    ensures var t := Final(Init(L), steps);
            && (t.delivered + Queue(t) == t.accepted <==> [] !in t.accepted)
            && ([] !in t.accepted ==> t.reader != RFatal)
  {
    var t := Final(Init(L), steps);
    if [] in t.accepted {
      RunSomeBytes(Init(L), steps);
      EmptyEntryIsLost(t.L, t.buf, t.Ro, t.Wo, t.L, t.accepted, t.delivered);
    } else {
      InitInv(L);
      RunInv(Init(L), steps);
      QueueIsSlots(t);
    }
  }

  /** Each step enqueues one entry at its publishing store, dequeues one, or leaves the queue alone. */
  lemma StepRefinesFifo(s: State, a: Step)
    requires Inv(s) && Enabled(s, a)
    ensures match a
            case WriterPublish => Queue(Apply(s, a)) == Queue(s) + [s.writer.data] <==> s.writer.data != []
            case ReaderCommit(_) => Queue(s) == [Assemble(s.reader.at, s.reader.size, s.reader.got)] + Queue(Apply(s, a))
            case _ => Queue(Apply(s, a)) == Queue(s)
  {
    if PublishesNothing(s, a) {
      NotInQueue(s, Apply(s, a), s.writer.data);
      return;
    }
    StepInv(s, a);
    QueueIsSlots(s);
    QueueIsSlots(Apply(s, a));
    match a
    case WriterPublish => WriterPublishInv(s);
    case ReaderCommit(again) => CommitInv(s, again);
    case ReaderSkip => SkipInv(s);
    case _ => OtherStepsKeepSlots(s, a);
  }

  /** The queue in memory never has an entry of no bytes. */
  lemma NotInQueue(s: State, t: State, d: seq<Byte>)
    requires s.L > 0 && |s.buf| == s.L && t.L > 0 && |t.buf| == t.L && d == []
    ensures Queue(t) != Queue(s) + [d]
  {
    DrainHasNoEmpty(t.L, t.buf, t.Ro, t.Wo, t.L);
    assert d in Queue(s) + [d];
  }

  lemma OtherStepsKeepSlots(s: State, a: Step)
    requires Inv(s) && Enabled(s, a) && !a.WriterPublish? && !a.ReaderCommit? && !a.ReaderSkip?
    ensures Apply(s, a).slots == s.slots
  {
  }

  // ---------------------------------------------------------------- deaths and recovery

  predicate SameWriteCall(steps: seq<Step>) {
    forall a :: a in steps ==> !a.WriterLock? && !a.WriterUnlock? && !a.WriterRecovered?
  }

  /** The writer's call has accepted its own entry or nothing. */
  predicate CallAccounted(s: State) {
    && !s.writer.WFree?
    && s.accepted == s.writer.base + if (s.writer.WDone? || s.writer.WDead?) && s.writer.ok then [s.writer.data] else []
  }

  lemma StepAccounted(s: State, a: Step)
    requires s.L > 0 && |s.buf| == s.L && CallAccounted(s) && Enabled(s, a)
    requires !a.WriterLock? && !a.WriterUnlock? && !a.WriterRecovered?
    ensures var t := Apply(s, a); CallAccounted(t) && t.writer.base == s.writer.base && t.writer.data == s.writer.data
  {
  }

  /** Whatever the others do, one write call keeps its own entry and what was accepted before it. */
  lemma {:induction false} CallKeepsBase(s: State, steps: seq<Step>)
    requires s.L > 0 && |s.buf| == s.L && CallAccounted(s) && IsRun(s, steps) && SameWriteCall(steps)
    ensures var t := Final(s, steps);
            CallAccounted(t) && t.writer.base == s.writer.base && t.writer.data == s.writer.data
    decreases |steps|
  {
    if steps != [] {
      assert steps[0] in steps;
      StepAccounted(s, steps[0]);
      CallKeepsBase(Apply(s, steps[0]), steps[1..]);
    }
  }

  /**
   * A writer that takes the lock may die at any later step of the same call.  That leaves
   * either the entries accepted before or those and its own complete entry; unless that has
   * no bytes, memory still decodes to what is not yet delivered, and recovery of the lock
   * keeps it so.
   */
  lemma DeathIsAllOrNothing(s: State, d: seq<Byte>, steps: seq<Step>) returns (t: State)
    requires Inv(s) && s.writer.WFree? && Admissible(s.L, d)
    requires IsRun(Apply(s, WriterLock(d)), steps) && SameWriteCall(steps)
    ensures var u := Final(Apply(s, WriterLock(d)), steps);
            if u.writer.WDead? then t == u else Enabled(u, WriterDies) && t == Apply(u, WriterDies)
    ensures t.L == s.L && |t.buf| == s.L && t.writer.WDead? && Enabled(t, WriterRecovered)
    ensures Apply(t, WriterRecovered) == t.(writer := WFree)
    ensures t.accepted == s.accepted || t.accepted == s.accepted + [d]
    ensures [] !in t.accepted ==>
              && t.delivered + Queue(t) == t.accepted
              && Inv(Apply(t, WriterRecovered)) && Queue(Apply(t, WriterRecovered)) == Queue(t)
  {
    var s1 := Apply(s, WriterLock(d));
    StepInv(s, WriterLock(d));
    CallKeepsBase(s1, steps);
    var u := Final(s1, steps);
    t := if u.writer.WDead? then u else Apply(u, WriterDies);
    if [] !in t.accepted {
      RunInv(s1, steps);
      if !u.writer.WDead? {
        StepInv(u, WriterDies);
      }
      QueueIsSlots(t);
      StepInv(t, WriterRecovered);
      StepRefinesFifo(t, WriterRecovered);
    }
  }

  /** The steps of one read call that takes a single entry, and of any writers meanwhile. */
  predicate SameReadCall(steps: seq<Step>) {
    forall a :: a in steps ==> !a.ReaderLock? && !a.ReaderUnlock? && !a.ReaderRecovered? && a != ReaderCommit(true)
  }

  /** What the reader's call has delivered: nothing before it commits, at most one entry then. */
  predicate ReadAccounted(s: State, before: seq<seq<Byte>>) {
    && !s.reader.RFree?
    && (s.delivered == before
        || ((s.reader.RDone? || s.reader.RDead?) && |s.delivered| == |before| + 1 && before <= s.delivered))
  }

  lemma StepReadAccounted(s: State, a: Step, before: seq<seq<Byte>>)
    requires s.L > 0 && |s.buf| == s.L && ReadAccounted(s, before) && Enabled(s, a)
    requires !a.ReaderLock? && !a.ReaderUnlock? && !a.ReaderRecovered? && a != ReaderCommit(true)
    ensures ReadAccounted(Apply(s, a), before)
  {
  }

  lemma {:induction false} ReadCallAccounted(s: State, steps: seq<Step>, before: seq<seq<Byte>>)
    requires s.L > 0 && |s.buf| == s.L && ReadAccounted(s, before) && IsRun(s, steps) && SameReadCall(steps)
    ensures ReadAccounted(Final(s, steps), before)
    decreases |steps|
  {
    if steps != [] {
      assert steps[0] in steps;
      StepReadAccounted(s, steps[0], before);
      ReadCallAccounted(Apply(s, steps[0]), steps[1..], before);
    }
  }

  /**
   * A reader that takes the lock may die at any later step of the same call.  It has then
   * taken nothing off the queue, or its head and that whole; the rest is queued, behind it
   * what writers added meanwhile, and recovery of the lock keeps it so.  An entry is taken by
   * the store that steps past it: one copied before that stays for the next reader.
   */
  lemma ReaderDeathTakesHeadOrNothing(s: State, steps: seq<Step>) returns (t: State)
    requires Inv(s) && s.reader.RFree? && IsRun(Apply(s, ReaderLock), steps) && SameReadCall(steps)
    requires [] !in Final(Apply(s, ReaderLock), steps).accepted
    ensures var u := Final(Apply(s, ReaderLock), steps);
            if u.reader.RDead? then t == u else Enabled(u, ReaderDies) && t == Apply(u, ReaderDies)
    ensures t.L == s.L && |t.buf| == s.L && t.reader.RDead? && s.accepted <= t.accepted
    ensures var more := t.accepted[|s.accepted|..];
            || (t.delivered == s.delivered && Queue(t) == Queue(s) + more)
            || (Queue(s) + more != [] && t.delivered == s.delivered + [(Queue(s) + more)[0]]
                && Queue(t) == (Queue(s) + more)[1..])
    ensures Enabled(t, ReaderRecovered) && Apply(t, ReaderRecovered) == t.(reader := RFree)
    ensures Inv(Apply(t, ReaderRecovered)) && Queue(Apply(t, ReaderRecovered)) == Queue(t)
  {
    var s1 := Apply(s, ReaderLock);
    var u := Final(s1, steps);
    StepInv(s, ReaderLock);
    RunInv(s1, steps);
    AcceptedGrows(s1, steps);
    ReadCallAccounted(s1, steps, s.delivered);
    t := DeadReader(s, u);
  }

  /** What a dying reader leaves. */
  lemma DeadReader(s: State, u: State) returns (t: State)
    requires Inv(s) && Inv(u) && s.L == u.L && s.accepted <= u.accepted && ReadAccounted(u, s.delivered)
    ensures if u.reader.RDead? then t == u else Enabled(u, ReaderDies) && t == Apply(u, ReaderDies)
    ensures t.L == s.L && |t.buf| == s.L && t.reader.RDead? && t.accepted == u.accepted
    ensures var more := t.accepted[|s.accepted|..];
            || (t.delivered == s.delivered && Queue(t) == Queue(s) + more)
            || (Queue(s) + more != [] && t.delivered == s.delivered + [(Queue(s) + more)[0]]
                && Queue(t) == (Queue(s) + more)[1..])
    ensures Enabled(t, ReaderRecovered) && Apply(t, ReaderRecovered) == t.(reader := RFree)
    ensures Inv(Apply(t, ReaderRecovered)) && Queue(Apply(t, ReaderRecovered)) == Queue(t)
  {
    t := if u.reader.RDead? then u else Apply(u, ReaderDies);
    if !u.reader.RDead? {
      ReaderDiesInv(u);
    }
    QueueIsSlots(s);
    QueueIsSlots(t);
    QueueMoves(s.delivered, Queue(s), s.accepted, t.delivered, Queue(t), t.accepted);
    RecoverReader(t);
  }

  lemma ReaderDiesInv(u: State)
    requires Inv(u) && !u.reader.RFree? && !u.reader.RDead?
    ensures Enabled(u, ReaderDies) && Inv(Apply(u, ReaderDies))
  {
    StepInv(u, ReaderDies);
  }

  lemma RecoverReader(t: State)
    requires Inv(t) && t.reader.RDead?
    ensures var u := Apply(t, ReaderRecovered); Inv(u) && u.delivered == t.delivered && Queue(u) == Queue(t)
  {
    StepInv(t, ReaderRecovered);
    StepRefinesFifo(t, ReaderRecovered);
  }

  /** More accepted, and at most one more delivered: what became of the queue. */
  lemma QueueMoves(a: seq<seq<Byte>>, q: seq<seq<Byte>>, was: seq<seq<Byte>>,
                   b: seq<seq<Byte>>, rest: seq<seq<Byte>>, now: seq<seq<Byte>>)
    requires a + q == was && b + rest == now && was <= now && (b == a || (|b| == |a| + 1 && a <= b))
    ensures var more := now[|was|..];
            (b == a && rest == q + more) || (q + more != [] && b == a + [(q + more)[0]] && rest == (q + more)[1..])
  {
    var more := now[|was|..];
    assert now == a + (q + more);
    HeadOrNothing(a, q + more, b, rest);
  }

  lemma HeadOrNothing(a: seq<seq<Byte>>, q: seq<seq<Byte>>, b: seq<seq<Byte>>, rest: seq<seq<Byte>>)
    requires a + q == b + rest && (b == a || (|b| == |a| + 1 && a <= b))
    ensures (b == a && rest == q) || (q != [] && b == a + [q[0]] && rest == q[1..])
  {
    if b == a {
      AppendCancels(a, q, rest);
    } else {
      assert b == a + [b[|a|]];
      AppendCancels(a, q, [b[|a|]] + rest);
    }
  }

  lemma {:induction false} RunConcat(s: State, a: seq<Step>, b: seq<Step>)
    requires s.L > 0 && |s.buf| == s.L && IsRun(s, a) && IsRun(Final(s, a), b)
    ensures IsRun(s, a + b) && Final(s, a + b) == Final(Final(s, a), b)
    decreases |a|
  {
    if a == [] {
      assert a + b == b;
    } else {
      assert (a + b)[1..] == a[1..] + b;
      RunConcat(Apply(s, a[0]), a[1..], b);
    }
  }

  lemma RunSnoc(s: State, a: seq<Step>, b: Step)
    requires s.L > 0 && |s.buf| == s.L && IsRun(s, a) && Enabled(Final(s, a), b)
    ensures IsRun(s, a + [b]) && Final(s, a + [b]) == Apply(Final(s, a), b)
  {
    assert [b][1..] == [];
    RunConcat(s, a, [b]);
  }

  /** The lock holder can write all its bytes from index x on. */
  lemma {:induction false} FillRun(s: State, x: nat) returns (steps: seq<Step>)
    requires s.L > 0 && |s.buf| == s.L && s.writer.WFill? && s.writer.plan.Place? && x <= s.L
    requires forall y :: 0 <= y < x && Filling(s, y) ==> y in s.writer.done
    ensures IsRun(s, steps)
    ensures var t := Final(s, steps);
            && t == s.(buf := t.buf, writer := t.writer) && t.writer.WFill?
            && t.writer == s.writer.(done := t.writer.done)
            && forall y :: 0 <= y < s.L && Filling(s, y) ==> y in t.writer.done
    decreases s.L - x
  {
    if x == s.L {
      steps := [];
    } else if Filling(s, x) {
      var t := Apply(s, WriterByte(x));
      assert forall y :: Filling(t, y) == Filling(s, y);
      var rest := FillRun(t, x + 1);
      steps := [WriterByte(x)] + rest;
      assert steps[1..] == rest;
    } else {
      steps := FillRun(s, x + 1);
    }
  }

  lemma StartWrite(s: State, d: seq<Byte>) returns (steps: seq<Step>)
    requires Inv(s) && (s.writer.WFree? || s.writer.WDead?) && Admissible(s.L, d)
    requires PlanWrite(s.L, s.Ro, s.Wo, EntrySize(|d|)).Place?
    ensures IsRun(s, steps)
    ensures Final(s, steps) == s.(writer := WFill(d, s.accepted, PlanWrite(s.L, s.Ro, s.Wo, EntrySize(|d|)), {}, s.r))
  {
    steps := [];
    if s.writer.WDead? {
      RunSnoc(s, steps, WriterRecovered);
      steps := steps + [WriterRecovered];
    }
    RunSnoc(s, steps, WriterLock(d));
    steps := steps + [WriterLock(d)];
    RunSnoc(s, steps, WriterSnapshot);
    steps := steps + [WriterSnapshot];
    RunSnoc(s, steps, WriterPlan);
    steps := steps + [WriterPlan];
  }

  lemma FinishWrite(s: State) returns (steps: seq<Step>)
    requires Inv(s) && s.writer.WFill?
    ensures IsRun(s, steps)
    ensures var t := Final(s, steps);
            && t.writer.WFree? && t.accepted == s.accepted + [s.writer.data] && t.delivered == s.delivered
            && (s.writer.data != [] ==> Inv(t))
  {
    var fill := FillRun(s, 0);
    RunSnoc(s, fill, WriterPublish);
    RunSnoc(s, fill + [WriterPublish], WriterUnlock);
    steps := fill + [WriterPublish] + [WriterUnlock];
    if s.writer.data != [] {
      RunInv(s, steps);
    }
  }

  /**
   * With the write lock free, or its owner dead, a writer alone completes whenever the
   * entries in the ring take at most three quarters of it; its entry is then queued, unless
   * it has no bytes.
   */
  lemma LoneWriteCompletes(s: State, d: seq<Byte>) returns (steps: seq<Step>)
    requires Inv(s) && (s.writer.WFree? || s.writer.WDead?) && Admissible(s.L, d)
    requires 4 * EntryBytes(Queue(s)) <= 3 * s.L
    ensures IsRun(s, steps)
    ensures var t := Final(s, steps);
            && t.writer.WFree? && t.accepted == s.accepted + [d] && t.delivered == s.delivered
            && (Queue(t) == Queue(s) + [d] <==> d != [])
  {
    QueueIsSlots(s);
    LiveIsEntries(s.slots);
    EntrySizeFacts(|d|);
    if PlanWrite(s.L, s.Ro, s.Wo, EntrySize(|d|)) == Refuse {
      RefusedOnlyWhenCrowded(s.L, s.buf, s.r, s.w, s.slots, EntrySize(|d|));
    }
    var start := StartWrite(s, d);
    RunInv(s, start);
    var finish := FinishWrite(Final(s, start));
    RunConcat(s, start, finish);
    steps := start + finish;
    var t := Final(s, steps);
    if d == [] {
      NotInQueue(s, t, d);
    } else {
      QueueIsSlots(t);
      AppendCancels(s.delivered, Queue(s) + [d], Queue(t));
    }
  }

  /** How often a run takes the read lock. */
  function ReaderLocks(steps: seq<Step>): nat {
    if steps == [] then 0 else (if steps[0].ReaderLock? then 1 else 0) + ReaderLocks(steps[1..])
  }

  lemma {:induction false} ReaderLocksConcat(a: seq<Step>, b: seq<Step>)
    ensures ReaderLocks(a + b) == ReaderLocks(a) + ReaderLocks(b)
  {
    if a == [] {
      assert a + b == b;
    } else {
      assert (a + b)[1..] == a[1..] + b;
      ReaderLocksConcat(a[1..], b);
    }
  }

  /** One more step of a run, counting read locks. */
  lemma OneMore(s: State, a: seq<Step>, b: Step)
    requires s.L > 0 && |s.buf| == s.L && IsRun(s, a) && Enabled(Final(s, a), b)
    ensures IsRun(s, a + [b]) && Final(s, a + [b]) == Apply(Final(s, a), b)
    ensures ReaderLocks(a + [b]) == ReaderLocks(a) + if b.ReaderLock? then 1 else 0
  {
    RunSnoc(s, a, b);
    ReaderLocksConcat(a, [b]);
    assert [b][1..] == [];
  }

  /** A reader can copy all bytes of its entry from index x on. */
  lemma {:induction false} CopyRun(s: State, x: nat) returns (steps: seq<Step>)
    requires s.L > 0 && |s.buf| == s.L && s.reader.RCopy? && x <= s.L
    requires forall y :: 0 <= y < x && InSlot(s.L, s.reader.at, s.reader.size, y) ==> y in s.reader.got
    ensures IsRun(s, steps) && ReaderLocks(steps) == 0
    ensures var t := Final(s, steps);
            && t == s.(reader := t.reader) && t.reader.RCopy? && t.reader == s.reader.(got := t.reader.got)
            && Enabled(t, ReaderCommit(false))
    decreases s.L - x
  {
    if x == s.L {
      steps := [];
    } else if InSlot(s.L, s.reader.at, s.reader.size, x) {
      var rest := CopyRun(Apply(s, ReaderByte(x)), x + 1);
      steps := [ReaderByte(x)] + rest;
      assert steps[1..] == rest;
    } else {
      steps := CopyRun(s, x + 1);
    }
  }

  /** A reader on its own comes to copy the head entry, or to a marker in front of it. */
  lemma LookRun(s: State) returns (steps: seq<Step>)
    requires Inv(s) && s.reader.RFree? && s.slots != []
    ensures IsRun(s, steps) && ReaderLocks(steps) == 1
    ensures var t := Final(s, steps);
            Inv(t) && t == s.(reader := t.reader) && (t.reader.RCopy? || (t.reader.RSkip? && s.slots[0].Gap?))
  {
    OneMore(s, [], ReaderLock);
    OneMore(s, [ReaderLock], ReaderSnapshot);
    var u := Final(s, [ReaderLock] + [ReaderSnapshot]);
    RunInv(s, [ReaderLock] + [ReaderSnapshot]);
    LookInv(u);
    LooksAtAll(s.L, s.buf, s.r, s.w, s.slots);
    OneMore(s, [ReaderLock] + [ReaderSnapshot], ReaderLook);
    steps := [ReaderLock] + [ReaderSnapshot] + [ReaderLook];
  }

  /** From there it commits the entry and gives up the lock. */
  lemma CommitRun(s: State) returns (steps: seq<Step>)
    requires Inv(s) && s.reader.RCopy?
    ensures IsRun(s, steps) && ReaderLocks(steps) == 0
    ensures var t := Final(s, steps);
            Inv(t) && t.reader.RFree? && Queue(s) != [] && t.delivered == s.delivered + [Queue(s)[0]]
  {
    var copy := CopyRun(s, 0);
    var u := Final(s, copy);
    RunInv(s, copy);
    StepRefinesFifo(u, ReaderCommit(false));
    OneMore(s, copy, ReaderCommit(false));
    OneMore(s, copy + [ReaderCommit(false)], ReaderUnlock);
    steps := copy + [ReaderCommit(false)] + [ReaderUnlock];
    RunInv(s, steps);
  }

  /** Or it steps over the marker, and the head is then an entry. */
  lemma SkipRun(s: State) returns (steps: seq<Step>)
    requires Inv(s) && s.reader.RSkip?
    ensures IsRun(s, steps) && ReaderLocks(steps) == 0
    ensures var t := Final(s, steps);
            && Inv(t) && t.reader.RFree? && t.delivered == s.delivered && Queue(t) == Queue(s)
            && t.slots != [] && t.slots[0].Msg? && t.accepted == s.accepted && ReaderSkip in steps
  {
    StepRefinesFifo(s, ReaderSkip);
    OneMore(s, [], ReaderSkip);
    OneMore(s, [] + [ReaderSkip], ReaderUnlock);
    steps := [] + [ReaderSkip] + [ReaderUnlock];
    RunInv(s, steps);
    assert s.slots[0].Gap? && s.slots[1].Msg?;
  }

  /** From the lock on, with nothing in the ring, to the lock given up. */
  lemma HeldEmpty(s: State) returns (steps: seq<Step>)
    requires Inv(s) && s.reader.RHeld? && s.slots == []
    ensures IsRun(s, steps) && ReaderLocks(steps) == 0 && Final(s, steps) == s.(reader := RFree)
  {
    OneMore(s, [], ReaderSnapshot);
    var u := Apply(s, ReaderSnapshot);
    StepInv(s, ReaderSnapshot);
    LookInv(u);
    LooksAtAll(s.L, s.buf, s.r, s.w, s.slots);
    OneMore(s, [] + [ReaderSnapshot], ReaderLook);
    OneMore(s, [] + [ReaderSnapshot] + [ReaderLook], ReaderUnlock);
    steps := [] + [ReaderSnapshot] + [ReaderLook] + [ReaderUnlock];
  }

  lemma HeldLook(s: State) returns (steps: seq<Step>)
    requires Inv(s) && s.reader.RHeld? && s.slots != []
    ensures IsRun(s, steps) && ReaderLocks(steps) == 0
    ensures var t := Final(s, steps);
            Inv(t) && t == s.(reader := t.reader) && (t.reader.RCopy? || (t.reader.RSkip? && s.slots[0].Gap?))
  {
    OneMore(s, [], ReaderSnapshot);
    var u := Apply(s, ReaderSnapshot);
    StepInv(s, ReaderSnapshot);
    LookInv(u);
    LooksAtAll(s.L, s.buf, s.r, s.w, s.slots);
    OneMore(s, [] + [ReaderSnapshot], ReaderLook);
    steps := [] + [ReaderSnapshot] + [ReaderLook];
  }

  /** A batch commits an entry and keeps the lock. */
  lemma CommitAgain(s: State) returns (steps: seq<Step>)
    requires Inv(s) && s.reader.RCopy?
    ensures IsRun(s, steps) && ReaderLocks(steps) == 0
    ensures var t := Final(s, steps);
            Inv(t) && t.reader.RHeld? && t.accepted == s.accepted && |t.slots| < |s.slots|
  {
    var copy := CopyRun(s, 0);
    OneMore(s, copy, ReaderCommit(true));
    steps := copy + [ReaderCommit(true)];
    RunInv(s, steps);
  }

  /** Within one lock a lone batch reader delivers all there is, unless it comes to a marker. */
  lemma {:induction false} HeldBatch(s: State) returns (steps: seq<Step>)
    requires Inv(s) && s.reader.RHeld?
    ensures IsRun(s, steps) && ReaderLocks(steps) == 0
    ensures var t := Final(s, steps);
            Inv(t) && t.reader.RFree? && t.accepted == s.accepted && (t.slots == [] || ReaderSkip in steps)
    decreases |s.slots|
  {
    if s.slots == [] {
      steps := HeldEmpty(s);
      RunInv(s, steps);
    } else {
      steps := HeldLook(s);
      var u := Final(s, steps);
      var rest;
      if u.reader.RCopy? {
        var commit := CommitAgain(u);
        rest := HeldBatch(Final(u, commit));
        RunConcat(u, commit, rest);
        ReaderLocksConcat(commit, rest);
        rest := commit + rest;
      } else {
        rest := SkipRun(u);
      }
      RunConcat(s, steps, rest);
      ReaderLocksConcat(steps, rest);
      steps := steps + rest;
    }
  }

  /**
   * A lone batch reader takes the lock once and delivers the whole queue, in order, or the
   * part of it in front of a marker.
   */
  lemma LoneBatchDelivers(s: State) returns (steps: seq<Step>)
    requires Inv(s) && s.reader.RFree?
    ensures IsRun(s, steps) && ReaderLocks(steps) == 1
    ensures var t := Final(s, steps);
            t.reader.RFree? && t.delivered + Queue(t) == s.delivered + Queue(s) && (Queue(t) == [] || ReaderSkip in steps)
  {
    StepInv(s, ReaderLock);
    OneMore(s, [], ReaderLock);
    var batch := HeldBatch(Apply(s, ReaderLock));
    RunConcat(s, [ReaderLock], batch);
    ReaderLocksConcat([ReaderLock], batch);
    assert [ReaderLock][1..] == [];
    steps := [ReaderLock] + batch;
    QueueIsSlots(s);
    QueueIsSlots(Final(s, steps));
  }

  /** Or it declines the entry, and nothing has changed. */
  lemma LoneDeclineKeeps(s: State) returns (steps: seq<Step>)
    requires Inv(s) && s.reader.RFree? && s.slots != [] && s.slots[0].Msg?
    ensures IsRun(s, steps) && ReaderLocks(steps) == 1 && ReaderDecline in steps && Final(s, steps) == s
  {
    var look := LookRun(s);
    OneMore(s, look, ReaderDecline);
    OneMore(s, look + [ReaderDecline], ReaderUnlock);
    steps := look + [ReaderDecline] + [ReaderUnlock];
    assert steps[|look|] == ReaderDecline;
  }

  /** One round of a lone reader on a ring whose head slot is an entry. */
  lemma ReadEntryRun(s: State) returns (steps: seq<Step>)
    requires Inv(s) && s.reader.RFree? && s.slots != [] && s.slots[0].Msg?
    ensures IsRun(s, steps) && ReaderLocks(steps) == 1
    ensures var t := Final(s, steps);
            t.reader.RFree? && Queue(s) != [] && t.delivered == s.delivered + [Queue(s)[0]]
  {
    var look := LookRun(s);
    var commit := CommitRun(Final(s, look));
    RunConcat(s, look, commit);
    ReaderLocksConcat(look, commit);
    steps := look + commit;
  }

  /**
   * With the read lock free, or its owner dead, a reader alone delivers the head of a
   * non-empty queue within two rounds of taking and giving up the lock.
   */
  lemma LoneReadCompletes(s: State) returns (steps: seq<Step>)
    requires Inv(s) && (s.reader.RFree? || s.reader.RDead?) && Queue(s) != []
    ensures IsRun(s, steps) && ReaderLocks(steps) <= 2
    ensures var t := Final(s, steps); t.reader.RFree? && t.delivered == s.delivered + [Queue(s)[0]]
  {
    QueueIsSlots(s);
    if s.reader.RDead? {
      StepInv(s, ReaderRecovered);
      var rest := LoneReadFromFree(Apply(s, ReaderRecovered));
      steps := [ReaderRecovered] + rest;
      assert steps[1..] == rest;
    } else {
      steps := LoneReadFromFree(s);
    }
  }

  lemma LoneReadFromFree(s: State) returns (steps: seq<Step>)
    requires Inv(s) && s.reader.RFree? && s.slots != []
    ensures IsRun(s, steps) && ReaderLocks(steps) <= 2
    ensures var t := Final(s, steps); t.reader.RFree? && Queue(s) != [] && t.delivered == s.delivered + [Queue(s)[0]]
  {
    var look := LookRun(s);
    var u := Final(s, look);
    if u.reader.RCopy? {
      var commit := CommitRun(u);
      RunConcat(s, look, commit);
      ReaderLocksConcat(look, commit);
      steps := look + commit;
    } else {
      var skip := SkipRun(u);
      var read := ReadEntryRun(Final(u, skip));
      RunConcat(u, skip, read);
      RunConcat(s, look, skip + read);
      ReaderLocksConcat(skip, read);
      ReaderLocksConcat(look, skip + read);
      steps := look + (skip + read);
    }
  }

  lemma AppendCancels(a: seq<seq<Byte>>, b: seq<seq<Byte>>, c: seq<seq<Byte>>)
    requires a + b == a + c
    ensures b == c
  {
    assert (a + b)[|a|..] == b && (a + c)[|a|..] == c;
  }
}
