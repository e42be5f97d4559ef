/**
 * What every run of the ring keeps whatever memory holds, entries of no bytes included:
 * a writer fills free bytes only and a reader copies live ones only.  It follows from the
 * offsets and the code's own bounds checks, so nothing here looks at what memory means.
 */
module RingBounds {
  import opened Division
  import opened LittleEndian
  import opened RingLayout
  import opened RingPlans
  import opened RingMachine

  /** Where on the tape the read offset is, and the offsets the writer and the reader have seen. */
  datatype View = View(r: Pos, rs: Pos, ws: Pos)

  /** Two positions at boundaries of headers, r at or behind w by at most a ring length. */
  predicate InRing(L: nat, r: Pos, w: Pos) {
    Snapshot(L, r, r, w) && L % HDR == 0 && r.off % HDR == 0 && w.off % HDR == 0
  }

  /** ws lies between r and w. */
  predicate Seen(L: nat, r: Pos, ws: Pos, w: Pos) {
    InRing(L, r, ws) && (ws.lap < w.lap || (ws.lap == w.lap && ws.off <= w.off))
  }

  /** An entry of aligned size A at index at lies between r and w, and next is where it ends. */
  predicate Inside(L: nat, r: Pos, w: Pos, at: int, A: nat, next: int) {
    || (at == r.off && r.off + A <= (if w.lap == r.lap then w.off else L) && next == Code(L, Adv(L, r, A)))
    || (at == 0 && w.lap == r.lap + 1 && A <= w.off && next == Code(L, Pos(r.lap + 1, A)))
  }

  predicate WriterInside(L: nat, r: Pos, rs: Pos, w: Pos, c: Writer) {
    match c
    case WHeld(d, _) => Admissible(L, d)
    case WSnap(d, _, Ro, _) => Admissible(L, d) && Ro == Code(L, rs) && Snapshot(L, rs, r, w)
    case WFill(d, _, plan, _, _) =>
      Admissible(L, d) && Snapshot(L, rs, r, w) && plan == PlanWrite(L, Code(L, rs), Code(L, w), EntrySize(|d|)) && plan.Place?
    case _ => true
  }

  predicate ReaderInside(L: nat, r: Pos, ws: Pos, w: Pos, c: Reader) {
    match c
    case RSnap(Wo, _, _) => Wo == Code(L, ws) && Seen(L, r, ws, w)
    case RSkip(next) => next == Code(L, Pos(r.lap + 1, 0)) && w.lap == r.lap + 1
    case RCopy(at, size, next, _, _) => Inside(L, r, w, at, EntrySize(size), next)
    case _ => true
  }

  /** The offsets are those of the view, with both sides inside the ring. */
  predicate Bounded(s: State, v: View) {
    && s.L >= HDR && |s.buf| == s.L
    && s.Ro == Code(s.L, v.r) && s.Wo == Code(s.L, s.w) && InRing(s.L, v.r, s.w)
    && WriterInside(s.L, v.r, v.rs, s.w, s.writer) && ReaderInside(s.L, v.r, v.ws, s.w, s.reader)
  }

  /** Publishing moves the write position on, inside the ring. */
  lemma PublishBounded(L: nat, rs: Pos, r: Pos, w: Pos, A: nat, plan: WritePlan)
    requires 0 < A && 8 * A <= L && A % HDR == 0 && Snapshot(L, rs, r, w) && InRing(L, r, w)
    requires plan == PlanWrite(L, Code(L, rs), Code(L, w), A) && plan.Place?
    ensures var w' := NextPos(L, w, A, plan.wipe);
            && plan.next == Code(L, w') && InRing(L, r, w')
            && (w.lap < w'.lap || (w.lap == w'.lap && w.off <= w'.off))
  {
    PlanWriteMeaning(L, rs, w, A);
    if !plan.wipe {
      AdvAligned(L, w, A);
    }
  }

  lemma WriterPublishBounded(s: State, v: View)
    requires Bounded(s, v) && Enabled(s, WriterPublish)
    ensures Bounded(Apply(s, WriterPublish), v)
  {
    EntrySizeFacts(|s.writer.data|);
    PublishBounded(s.L, v.rs, v.r, s.w, EntrySize(|s.writer.data|), s.writer.plan);
  }

  /** Whatever is in memory, the read code offers only what lies between its two offsets. */
  lemma LookInside(L: nat, r: Pos, ws: Pos, buf: seq<Byte>)
    requires L >= HDR && |buf| == L && InRing(L, r, ws)
    requires 0 <= Code(L, r) % L && Code(L, r) % L + HDR <= L
    ensures match PlanRead(L, Code(L, r), Code(L, ws), buf)
            case Deliver(at, size, next) => Inside(L, r, ws, at, EntrySize(size), next)
            case Skip(next) => next == Code(L, Pos(r.lap + 1, 0)) && ws.lap == r.lap + 1
            case _ => true
  {
    CodeDivMod(L, r);
    CodeDivMod(L, ws);
    assert ws.lap == r.lap + 1 ==> ws.lap % 2 != r.lap % 2;
    var plan := PlanRead(L, Code(L, r), Code(L, ws), buf);
    if plan.Deliver? && plan.at == r.off && r.off + EntrySize(plan.size) <= L {
      NormalizeAdv(L, r, EntrySize(plan.size));
    }
  }

  lemma InsideGrows(L: nat, r: Pos, ws: Pos, w: Pos, at: int, A: nat, next: int)
    requires Seen(L, r, ws, w) && InRing(L, r, w) && Inside(L, r, ws, at, A, next)
    ensures Inside(L, r, w, at, A, next)
  {
  }

  lemma ReaderLookBounded(s: State, v: View)
    requires Bounded(s, v) && Enabled(s, ReaderLook)
    ensures Bounded(Apply(s, ReaderLook), v)
  {
    LookInside(s.L, v.r, v.ws, s.buf);
    var plan := PlanRead(s.L, s.Ro, s.reader.Wo, s.buf);
    if plan.Deliver? {
      InsideGrows(s.L, v.r, v.ws, s.w, plan.at, EntrySize(plan.size), plan.next);
    }
  }

  /** Where the read offset goes when the reader moves it on. */
  function Forward(L: nat, r: Pos, c: Reader): Pos {
    match c
    case RCopy(at, size, next, _, _) =>
      var A := EntrySize(size);
      if at == r.off && r.off + A <= L && next == Code(L, Adv(L, r, A)) then Adv(L, r, A) else Pos(r.lap + 1, A)
    case _ => Pos(r.lap + 1, 0)
  }

  lemma ForwardInside(L: nat, r: Pos, rs: Pos, w: Pos, c: Reader, writer: Writer)
    requires (c.RSkip? || c.RCopy?) && ReaderInside(L, r, r, w, c) && InRing(L, r, w) && WriterInside(L, r, rs, w, writer)
    ensures var r' := Forward(L, r, c);
            c.next == Code(L, r') && InRing(L, r', w) && WriterInside(L, r', rs, w, writer)
  {
    if c.RCopy? {
      EntrySizeFacts(c.size);
      if Forward(L, r, c) == Adv(L, r, EntrySize(c.size)) && r.off + EntrySize(c.size) <= L {
        AdvAligned(L, r, EntrySize(c.size));
      }
    }
  }

  /** The view after a step. */
  function Next(s: State, a: Step, v: View): View {
    match a
    case WriterSnapshot => v.(rs := v.r)
    case ReaderSnapshot => v.(ws := s.w)
    case ReaderSkip => v.(r := Forward(s.L, v.r, s.reader))
    case ReaderCommit(_) => v.(r := Forward(s.L, v.r, s.reader))
    case _ => v
  }

  /** Every step keeps both sides inside the ring. */
  lemma StepBounded(s: State, a: Step, v: View)
    requires Bounded(s, v) && Enabled(s, a)
    ensures Bounded(Apply(s, a), Next(s, a, v))
  {
    match a
    case WriterPublish => WriterPublishBounded(s, v);
    case ReaderLook => ReaderLookBounded(s, v);
    case ReaderSkip => ForwardInside(s.L, v.r, v.rs, s.w, s.reader, s.writer);
    case ReaderCommit(_) => ForwardInside(s.L, v.r, v.rs, s.w, s.reader, s.writer);
    case _ =>
  }

  lemma {:induction false} RunBounded(s: State, steps: seq<Step>, v: View) returns (u: View)
    requires Bounded(s, v) && IsRun(s, steps)
    ensures Bounded(Final(s, steps), u)
    decreases |steps|
  {
    if steps == [] {
      u := v;
    } else {
      StepBounded(s, steps[0], v);
      u := RunBounded(Apply(s, steps[0]), steps[1..], Next(s, steps[0], v));
    }
  }

  /** In terms of the offsets: what is live lies between the two positions. */
  lemma LiveIsBetween(s: State, r: Pos, x: int)
    requires s.L > 0 && s.Ro == Code(s.L, r) && s.Wo == Code(s.L, s.w) && InRing(s.L, r, s.w)
    ensures Live(s, x) <==> Between(r, s.w, x)
  {
    CodeDivMod(s.L, r);
    CodeDivMod(s.L, s.w);
    assert s.w.lap == r.lap + 1 ==> s.w.lap % 2 != r.lap % 2;
  }

  /**
   * In every interleaving, with stale views, deaths, entries of no bytes and whatever is in
   * memory: a writer fills bytes of the ring that are not live, a reader copies live ones,
   * and the header it looks at is inside the ring.
   */
  lemma EveryRunKeepsApart(L: nat, steps: seq<Step>, x: int)
    requires ValidLength(L) && IsRun(Init(L), steps)
    ensures var t := Final(Init(L), steps);
            && (Filling(t, x) ==> 0 <= x < L && !Live(t, x))
            && (Copied(t, x) ==> Live(t, x))
            && (t.reader.RSnap? ==> Enabled(t, ReaderLook))
  {
    PagesAreAligned(L);
    var start := Pos(0, 0);
    var v := RunBounded(Init(L), steps, View(start, start, start));
    KeepsApart(Final(Init(L), steps), v, x);
  }

  lemma KeepsApart(s: State, v: View, x: int)
    requires Bounded(s, v)
    ensures Filling(s, x) ==> 0 <= x < s.L && !Live(s, x)
    ensures Copied(s, x) ==> Live(s, x)
    ensures s.reader.RSnap? ==> Enabled(s, ReaderLook)
  {
    CodeDivMod(s.L, s.w);
    CodeDivMod(s.L, v.r);
    RoomForHeader(s.L, v.r.off);
    LiveIsBetween(s, v.r, x);
    if Filling(s, x) {
      FillsFree(s.L, v.rs, v.r, s.w, |s.writer.data|, s.writer.plan, x);
    }
    if Copied(s, x) {
      EntrySizeFacts(s.reader.size);
    }
  }
}
