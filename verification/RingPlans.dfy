/**
 * What the two decisions of the ring code mean on the tape: a write plan, even one
 * made from a stale read offset, fills free bytes only; a read plan, even one made
 * from a stale write offset, finds exactly the head of the queue.
 */
module RingPlans {
  import opened LittleEndian
  import opened RingLayout

  // ---------------------------------------------------------------- writing

  /** rs is at or behind r, and w is at most one ring length ahead of rs. */
  predicate Snapshot(L: nat, rs: Pos, r: Pos, w: Pos) {
    && rs.off < L && w.off < L
    && (rs.lap < r.lap || (rs.lap == r.lap && rs.off <= r.off))
    && ((w.lap == rs.lap && rs.off <= w.off) || (w.lap == rs.lap + 1 && w.off <= rs.off))
  }

  function NextPos(L: nat, w: Pos, A: nat, wipe: bool): Pos {
    if wipe then Pos(w.lap + 1, A) else Adv(L, w, A)
  }

  lemma PlanWriteMeaning(L: nat, rs: Pos, w: Pos, A: nat)
    requires 0 < A && 8 * A <= L && Snapshot(L, rs, rs, w)
    ensures match PlanWrite(L, Code(L, rs), Code(L, w), A)
            case Refuse =>
              if w.lap == rs.lap then L - w.off < A && rs.off < A else rs.off - w.off < A
            case Place(at, wipe, next) =>
              && next == Code(L, NextPos(L, w, A, wipe))
              && (if wipe then at == 0 && w.lap == rs.lap && L - w.off < A <= rs.off
                  else at == w.off && w.off + A <= (if w.lap == rs.lap then L else rs.off))
  {
    CodeDivMod(L, rs);
    CodeDivMod(L, w);
    if w.off + A <= L {
      NormalizeAdv(L, w, A);
    }
    assert w.lap == rs.lap + 1 ==> w.lap % 2 != rs.lap % 2;
    assert (w.lap + 1) % 2 == 1 - w.lap % 2;
  }

  /**
   * A writer with an up-to-date view is refused only when entries, holes not counted,
   * fill more than three quarters of the ring.
   */
  lemma RefusedOnlyWhenCrowded(L: int, buf: seq<Byte>, r: Pos, w: Pos, slots: seq<Slot>, A: nat)
    requires RingOk(L, buf, r, w, slots) && 0 < A && 8 * A <= L
    requires PlanWrite(L, Code(L, r), Code(L, w), A) == Refuse
    ensures 4 * LiveBytes(slots) > 3 * L
  {
    RingFacts(L, buf, r, w, slots);
    HolesBounded(L, buf, slots, r);
    PlanWriteMeaning(L, r, w, A);
  }

  /** An empty ring takes any admissible entry, wherever its offsets stand. */
  lemma EmptyAcceptsAll(L: int, buf: seq<Byte>, r: Pos, w: Pos, A: nat)
    requires RingOk(L, buf, r, w, []) && 0 < A && 8 * A <= L
    ensures PlanWrite(L, Code(L, r), Code(L, w), A).Place?
  {
    if PlanWrite(L, Code(L, r), Code(L, w), A) == Refuse {
      RefusedOnlyWhenCrowded(L, buf, r, w, [], A);
    }
  }

  /** The bytes a write touches: header and chunk, and the rest of the lap when it wipes. */
  predicate Fills(L: int, at: int, wipe: bool, W: int, n: nat, x: int) {
    at <= x < at + HDR + n || (wipe && W <= x < L)
  }

  /** The value a write leaves at x. */
  function ImageByte(at: int, d: seq<Byte>, x: int): Byte {
    if at <= x < at + HDR then Encode(|d|, HDR)[x - at]
    else if at + HDR <= x < at + HDR + |d| then d[x - at - HDR]
    else 0
  }

  /** Every byte a write touches has its value. */
  predicate Written(L: int, buf: seq<Byte>, at: int, wipe: bool, W: int, d: seq<Byte>)
    requires |buf| == L
  {
    forall x :: 0 <= x < L && Fills(L, at, wipe, W, |d|, x) ==> buf[x] == ImageByte(at, d, x)
  }

  function NewSlots(L: int, W: int, wipe: bool, d: seq<Byte>): seq<Slot> {
    if wipe then [Gap(if W <= L then L - W else 0), Msg(d)] else [Msg(d)]
  }

  /** Every byte a placed write touches, even one planned from a stale view, is outside the live region. */
  lemma FillsFree(L: nat, rs: Pos, r: Pos, w: Pos, n: nat, p: WritePlan, x: int)
    requires Snapshot(L, rs, r, w) && Snapshot(L, r, r, w) && 8 * EntrySize(n) <= L
    requires p == PlanWrite(L, Code(L, rs), Code(L, w), EntrySize(n)) && p.Place? && Fills(L, p.at, p.wipe, w.off, n, x)
    ensures 0 <= x < L && !Between(r, w, x)
  {
    EntrySizeFacts(n);
    PlanWriteMeaning(L, rs, w, EntrySize(n));
  }

  /** And not in any slot. */
  lemma FillOutside(L: int, buf: seq<Byte>, rs: Pos, r: Pos, w: Pos, slots: seq<Slot>, d: seq<Byte>, p: WritePlan, x: int)
    requires RingOk(L, buf, r, w, slots) && Snapshot(L, rs, r, w)
    requires 8 * EntrySize(|d|) <= L
    requires p == PlanWrite(L, Code(L, rs), Code(L, w), EntrySize(|d|)) && p.Place?
    requires Fills(L, p.at, p.wipe, w.off, |d|, x)
    ensures 0 <= x < L && !Between(r, w, x) && !Covers(L, slots, r, x)
  {
    RingFacts(L, buf, r, w, slots);
    FillsFree(L, rs, r, w, |d|, p, x);
    if Covers(L, slots, r, x) {
      CoversBetween(L, buf, slots, r, x);
    }
  }

  lemma ImageStored(L: int, buf: seq<Byte>, at: nat, d: seq<Byte>)
    requires |buf| == L && 1 <= |d| && 8 * EntrySize(|d|) <= L && at + EntrySize(|d|) <= L
    requires forall x :: at <= x < at + HDR + |d| ==> x < L && buf[x] == ImageByte(at, d, x)
    ensures StoredAt(L, buf, at, Msg(d))
  {
    EntrySizeFacts(|d|);
    assert buf[at..at + HDR] == Encode(|d|, HDR);
    assert buf[at + HDR..at + HDR + |d|] == d;
  }

  lemma TwoMore(slots: seq<Slot>, g: Slot, m: Slot)
    ensures slots + [g] + [m] == slots + [g, m]
  {
  }

  lemma AppendGapMsg(L: int, buf: seq<Byte>, slots: seq<Slot>, r: Pos, g: Slot, m: Slot)
    requires |buf| == L && Stored(L, buf, slots, r) && g.Gap? && m.Msg?
    requires End(L, slots, r).off < L && StoredAt(L, buf, End(L, slots, r).off, g) && StoredAt(L, buf, 0, m)
    ensures Stored(L, buf, slots + [g, m], r)
    ensures End(L, slots + [g, m], r) == Adv(L, Pos(End(L, slots, r).lap + 1, 0), SizeOf(m))
    ensures Total(slots + [g, m]) == Total(slots) + g.len + SizeOf(m)
    ensures Msgs(slots + [g, m]) == Msgs(slots) + [m.data]
  {
    var more := slots + [g];
    AppendSlot(L, buf, slots, r, g);
    AppendSlot(L, buf, more, r, m);
    TwoMore(slots, g, m);
  }

  /** Memory holding a complete image of a placed entry satisfies the ring invariant with the entry added. */
  lemma PlacedOk(L: int, buf: seq<Byte>, r: Pos, w: Pos, slots: seq<Slot>, d: seq<Byte>)
    requires RingOk(L, buf, r, w, slots)
    requires w.off < L && StoredAt(L, buf, w.off, Msg(d)) && Total(slots) + EntrySize(|d|) <= L
    ensures RingOk(L, buf, r, Adv(L, w, EntrySize(|d|)), slots + [Msg(d)])
    ensures Msgs(slots + [Msg(d)]) == Msgs(slots) + [d]
  {
    AppendSlot(L, buf, slots, r, Msg(d));
  }

  lemma WrappedOk(L: int, buf: seq<Byte>, r: Pos, w: Pos, slots: seq<Slot>, d: seq<Byte>)
    requires RingOk(L, buf, r, w, slots)
    requires w.off < L && StoredAt(L, buf, w.off, Gap(L - w.off)) && StoredAt(L, buf, 0, Msg(d))
    requires Total(slots) + (L - w.off) + EntrySize(|d|) <= L
    ensures RingOk(L, buf, r, Pos(w.lap + 1, EntrySize(|d|)), slots + [Gap(L - w.off), Msg(d)])
    ensures Msgs(slots + [Gap(L - w.off), Msg(d)]) == Msgs(slots) + [d]
  {
    AppendGapMsg(L, buf, slots, r, Gap(L - w.off), Msg(d));
    assert 8 * EntrySize(|d|) <= L;
  }

  /** Both ways of placing an entry. */
  lemma AddedOk(L: int, buf: seq<Byte>, r: Pos, w: Pos, slots: seq<Slot>, d: seq<Byte>, wipe: bool)
    requires RingOk(L, buf, r, w, slots) && w.off < L
    requires StoredAt(L, buf, if wipe then 0 else w.off, Msg(d)) && (wipe ==> StoredAt(L, buf, w.off, Gap(L - w.off)))
    requires Total(slots) + EntrySize(|d|) + (if wipe then L - w.off else 0) <= L
    ensures RingOk(L, buf, r, NextPos(L, w, EntrySize(|d|), wipe), slots + NewSlots(L, w.off, wipe, d))
    ensures Msgs(slots + NewSlots(L, w.off, wipe, d)) == Msgs(slots) + [d]
  {
    if wipe {
      WrappedOk(L, buf, r, w, slots, d);
    } else {
      PlacedOk(L, buf, r, w, slots, d);
    }
  }

  /** Once its bytes are in place, publishing the new offset appends exactly the new entry. */
  lemma Publish(L: int, buf: seq<Byte>, rs: Pos, r: Pos, w: Pos, slots: seq<Slot>, d: seq<Byte>, p: WritePlan)
    requires RingOk(L, buf, r, w, slots) && Snapshot(L, rs, r, w)
    requires 1 <= |d| && 8 * EntrySize(|d|) <= L
    requires p == PlanWrite(L, Code(L, rs), Code(L, w), EntrySize(|d|)) && p.Place?
    requires Written(L, buf, p.at, p.wipe, w.off, d)
    ensures w.off <= L && p.next == Code(L, NextPos(L, w, EntrySize(|d|), p.wipe))
    ensures RingOk(L, buf, r, NextPos(L, w, EntrySize(|d|), p.wipe), slots + NewSlots(L, w.off, p.wipe, d))
    ensures Msgs(slots + NewSlots(L, w.off, p.wipe, d)) == Msgs(slots) + [d]
  {
    RingFacts(L, buf, r, w, slots);
    PlacementFits(L, rs, r, w, EntrySize(|d|), Total(slots), p);
    WrittenOk(L, buf, r, w, slots, d, p.at, p.wipe);
  }

  lemma WrittenOk(L: int, buf: seq<Byte>, r: Pos, w: Pos, slots: seq<Slot>, d: seq<Byte>, at: int, wipe: bool)
    requires RingOk(L, buf, r, w, slots) && 1 <= |d| && 8 * EntrySize(|d|) <= L && w.off < L
    requires 0 <= at && at + EntrySize(|d|) <= L && at == (if wipe then 0 else w.off) && (wipe ==> L - w.off < EntrySize(|d|))
    requires Total(slots) + EntrySize(|d|) + (if wipe then L - w.off else 0) <= L
    requires Written(L, buf, at, wipe, w.off, d)
    ensures RingOk(L, buf, r, NextPos(L, w, EntrySize(|d|), wipe), slots + NewSlots(L, w.off, wipe, d))
    ensures Msgs(slots + NewSlots(L, w.off, wipe, d)) == Msgs(slots) + [d]
  {
    RingFacts(L, buf, r, w, slots);
    ImageIsSlots(L, buf, at, wipe, w.off, d);
    AddedOk(L, buf, r, w, slots, d, wipe);
  }

  lemma ImageIsSlots(L: int, buf: seq<Byte>, at: nat, wipe: bool, W: nat, d: seq<Byte>)
    requires |buf| == L && L % HDR == 0 && W < L && W % HDR == 0
    requires 1 <= |d| && 8 * EntrySize(|d|) <= L && at + EntrySize(|d|) <= L
    requires wipe ==> at == 0 && L < W + EntrySize(|d|)
    requires Written(L, buf, at, wipe, W, d)
    ensures StoredAt(L, buf, at, Msg(d))
    ensures wipe ==> StoredAt(L, buf, W, Gap(L - W))
  {
    EntrySizeFacts(|d|);
    forall x | at <= x < at + HDR + |d|
      ensures x < L && buf[x] == ImageByte(at, d, x)
    {
      assert Fills(L, at, wipe, W, |d|, x);
    }
    ImageStored(L, buf, at, d);
    if wipe {
      forall x | W <= x < L && EntrySize(|d|) <= x
        ensures buf[x] == 0
      {
        assert Fills(L, at, wipe, W, |d|, x);
      }
      WipedIsGap(L, buf, W, EntrySize(|d|));
    }
  }

  /** A placed entry fits between the write position and the snapshot, so inside the ring. */
  lemma PlacementFits(L: nat, rs: Pos, r: Pos, w: Pos, A: nat, t: nat, p: WritePlan)
    requires 0 < A && 8 * A <= L && Snapshot(L, rs, r, w) && r.off < L
    requires p == PlanWrite(L, Code(L, rs), Code(L, w), A) && p.Place?
    requires (w.lap == r.lap && w.off == r.off + t) || (w.lap == r.lap + 1 && t == L + w.off - r.off)
    ensures p.next == Code(L, NextPos(L, w, A, p.wipe))
    ensures 0 <= p.at && p.at + A <= L && (!p.wipe ==> p.at == w.off)
    ensures p.wipe ==> p.at == 0 && L - w.off < A
    ensures t + A + (if p.wipe then L - w.off else 0) <= L
  {
    PlanWriteMeaning(L, rs, w, A);
  }

  lemma WipedIsGap(L: int, buf: seq<Byte>, W: nat, A: nat)
    requires |buf| == L && L % HDR == 0 && W % HDR == 0 && W < L < W + A && 8 * A <= L
    requires forall x :: W <= x < L && A <= x ==> buf[x] == 0
    ensures StoredAt(L, buf, W, Gap(L - W))
  {
    assert (L - W) % HDR == 0;
    DecodeZeros(buf[W..W + HDR]);
  }

  // ---------------------------------------------------------------- reading

  /** The read plan for a reader that sees the first k slots, given in terms of the head slot. */
  predicate FindsHead(L: nat, r: Pos, slots: seq<Slot>, plan: ReadPlan)
    requires slots != [] && (slots[0].Gap? ==> |slots| > 1 && slots[1].Msg?)
  {
    match slots[0]
    case Msg(d) => plan == Deliver(r.off, |d|, Code(L, Adv(L, r, EntrySize(|d|))))
    case Gap(n) =>
      var p := Pos(r.lap + 1, 0);
      if n > HDR then plan == Skip(Code(L, p))
      else plan == Deliver(0, |slots[1].data|, Code(L, Adv(L, p, EntrySize(|slots[1].data|))))
  }

  lemma HeaderOfMsg(L: int, buf: seq<Byte>, off: nat, d: seq<Byte>)
    requires |buf| == L && L < 0x8000_0000 && StoredAt(L, buf, off, Msg(d))
    ensures off + HDR <= L && HeaderAt(buf, off) == |d|
  {
    EntrySizeFacts(|d|);
    Pow256Of8();
    RoundTrip(|d|, HDR);
  }

  /** The read code's arithmetic when the head is an entry of n bytes at r. */
  lemma ReadEntryAt(L: int, buf: seq<Byte>, r: Pos, ws: Pos, n: nat)
    requires |buf| == L && r.off + HDR <= L && ws.off < L && HeaderAt(buf, r.off) == n >= 1
    requires r.off + EntrySize(n) <= L
    requires (ws.lap == r.lap && r.off + EntrySize(n) <= ws.off) || ws.lap == r.lap + 1
    ensures Code(L, r) % L == r.off
    ensures PlanRead(L, Code(L, r), Code(L, ws), buf) == Deliver(r.off, n, Code(L, Adv(L, r, EntrySize(n))))
  {
    CodeDivMod(L, r);
    CodeDivMod(L, ws);
    EntrySizeFacts(n);
    assert ws.lap == r.lap + 1 ==> ws.lap % 2 != r.lap % 2;
    NormalizeAdv(L, r, EntrySize(n));
  }

  /** The same when the head is a hole: a marker if it is longer than a header, otherwise stepped over. */
  lemma ReadHoleAt(L: int, buf: seq<Byte>, r: Pos, ws: Pos, n: nat)
    requires |buf| == L >= HDR && r.off + HDR <= L && ws.off < L && ws.lap == r.lap + 1
    requires HeaderAt(buf, r.off) == 0 && HeaderAt(buf, 0) == n >= 1 && 8 * EntrySize(n) <= L
    requires EntrySize(n) <= ws.off
    ensures Code(L, r) % L == r.off
    ensures PlanRead(L, Code(L, r), Code(L, ws), buf) ==
            if L - r.off > HDR then Skip(Code(L, Pos(r.lap + 1, 0)))
            else Deliver(0, n, Code(L, Adv(L, Pos(r.lap + 1, 0), EntrySize(n))))
  {
    CodeDivMod(L, r);
    CodeDivMod(L, ws);
    EntrySizeFacts(n);
    assert ws.lap % 2 != r.lap % 2;
  }

  /** What the first k slots tell about the position they end at. */
  lemma SeenFacts(L: int, buf: seq<Byte>, r: Pos, w: Pos, slots: seq<Slot>, k: nat)
    requires RingOk(L, buf, r, w, slots) && k <= |slots|
    ensures var ws := End(L, slots[..k], r);
            && ws.off < L
            && (ws.lap == r.lap || (ws.lap == r.lap + 1 && ws.off <= r.off))
            && (k >= 1 && ws.lap == r.lap ==> r.off + SizeOf(slots[0]) <= ws.off)
            && (k >= 2 && slots[0].Gap? ==> ws.lap == r.lap + 1 && SizeOf(slots[1]) <= ws.off)
  {
    PrefixFacts(L, buf, slots, r, k);
    var seen := slots[..k];
    EndFacts(L, buf, seen, r);
    if k >= 2 && slots[0].Gap? {
      var p := Adv(L, r, SizeOf(slots[0]));
      EndFacts(L, buf, seen[1..], p);
      assert seen[1..][0] == slots[1];
    }
  }

  lemma RoomForHeader(L: int, off: nat)
    requires L % HDR == 0 && off % HDR == 0 && off < L
    ensures off + HDR <= L
  {
  }

  lemma SecondStored(L: int, buf: seq<Byte>, r: Pos, slots: seq<Slot>)
    requires |buf| == L && Stored(L, buf, slots, r) && |slots| > 1 && slots[0].Gap?
    ensures r.off < L && StoredAt(L, buf, r.off, slots[0]) && StoredAt(L, buf, 0, slots[1])
  {
    assert Stored(L, buf, slots[1..], Pos(r.lap + 1, 0));
  }

  /**
   * A reader that sees the first k slots, up to an entry boundary, finds nothing when
   * k is 0 and otherwise the head: never Fatal, and never past what it sees.
   */
  lemma PlanReadMeaning(L: int, buf: seq<Byte>, r: Pos, w: Pos, slots: seq<Slot>, k: nat, ws: Pos)
    requires RingOk(L, buf, r, w, slots)
    requires k <= |slots| && (k > 0 ==> slots[k - 1].Msg?) && ws == End(L, slots[..k], r)
    ensures Code(L, r) % L == r.off && r.off + HDR <= L
    ensures var plan := PlanRead(L, Code(L, r), Code(L, ws), buf);
            if k == 0 then plan == Nothing else FindsHead(L, r, slots, plan)
  {
    RingFacts(L, buf, r, w, slots);
    CodeDivMod(L, r);
    RoomForHeader(L, r.off);
    SeenFacts(L, buf, r, w, slots, k);
    if k == 0 {
      assert slots[..k] == [];
    } else if slots[0].Msg? {
      HeaderOfMsg(L, buf, r.off, slots[0].data);
      ReadEntryAt(L, buf, r, ws, |slots[0].data|);
    } else {
      SecondStored(L, buf, r, slots);
      HeaderOfMsg(L, buf, 0, slots[1].data);
      ReadHoleAt(L, buf, r, ws, |slots[1].data|);
    }
  }

  /** Moving the read offset past the head slot keeps the invariant. */
  lemma DropHead(L: int, buf: seq<Byte>, r: Pos, w: Pos, slots: seq<Slot>)
    requires RingOk(L, buf, r, w, slots) && slots != []
    ensures RingOk(L, buf, Adv(L, r, SizeOf(slots[0])), w, slots[1..])
    ensures slots[0].Gap? ==> Adv(L, r, SizeOf(slots[0])) == Pos(r.lap + 1, 0)
    ensures Msgs(slots) == (if slots[0].Msg? then [slots[0].data] else []) + Msgs(slots[1..])
  {
    RingFacts(L, buf, r, w, slots);
    SlotSize(L, buf, r.off, slots[0]);
    AdvAligned(L, r, SizeOf(slots[0]));
    forall i | 0 <= i < |slots[1..]| && slots[1..][i].Gap?
      ensures i + 1 < |slots[1..]| && slots[1..][i + 1].Msg?
    {
      assert slots[i + 1].Gap?;
    }
  }

  /** Writes to bytes outside the slots keep the invariant. */
  lemma RingFrame(L: int, buf: seq<Byte>, buf': seq<Byte>, r: Pos, w: Pos, slots: seq<Slot>)
    requires RingOk(L, buf, r, w, slots) && |buf'| == |buf|
    requires forall x :: 0 <= x < L && Covers(L, slots, r, x) ==> buf[x] == buf'[x]
    ensures RingOk(L, buf', r, w, slots)
  {
    StoredFrame(L, buf, buf', slots, r);
  }

  // ---------------------------------------------------------------- decoding the live region

  /** The entries a lone reader takes out, looking at memory and the two offsets only. */
  function Drain(L: int, buf: seq<Byte>, Ro: int, Wo: int, fuel: nat): seq<seq<Byte>>
    requires L > 0 && |buf| == L
    decreases fuel
  {
    if fuel == 0 || !(0 <= Ro % L && Ro % L + HDR <= L) then []
    else
      match PlanRead(L, Ro, Wo, buf)
      case Deliver(at, size, next) =>
        if 0 <= at && at + HDR + size <= L
        then [buf[at + HDR..at + HDR + size]] + Drain(L, buf, next, Wo, fuel - 1)
        else []
      case Skip(next) => Drain(L, buf, next, Wo, fuel - 1)
      case _ => []
  }

  lemma {:induction false} SlotCount(L: nat, buf: seq<Byte>, slots: seq<Slot>, p: Pos)
    requires |buf| == L && Stored(L, buf, slots, p)
    ensures HDR * |slots| <= Total(slots)
  {
    if slots != [] {
      SlotSize(L, buf, p.off, slots[0]);
      SlotCount(L, buf, slots[1..], Adv(L, p, SizeOf(slots[0])));
    }
  }

  lemma LooksAtAll(L: int, buf: seq<Byte>, r: Pos, w: Pos, slots: seq<Slot>)
    requires RingOk(L, buf, r, w, slots)
    ensures Code(L, r) % L == r.off && r.off + HDR <= L
    ensures var plan := PlanRead(L, Code(L, r), Code(L, w), buf);
            if slots == [] then plan == Nothing else FindsHead(L, r, slots, plan)
  {
    assert slots[..|slots|] == slots;
    if slots != [] {
      assert slots[|slots| - 1].Msg?;
    }
    PlanReadMeaning(L, buf, r, w, slots, |slots|, w);
  }

  /** The head entry's bytes are where the plan says. */
  lemma HeadBytes(L: int, buf: seq<Byte>, r: Pos, w: Pos, slots: seq<Slot>)
    requires RingOk(L, buf, r, w, slots) && slots != []
    ensures slots[0].Msg? ==> r.off + HDR + |slots[0].data| <= L
                              && buf[r.off + HDR..r.off + HDR + |slots[0].data|] == slots[0].data
    ensures slots[0].Gap? ==> |slots| > 1 && slots[1].Msg? && HDR + |slots[1].data| <= L
                              && buf[HDR..HDR + |slots[1].data|] == slots[1].data
  {
    if slots[0].Msg? {
      EntrySizeFacts(|slots[0].data|);
    } else {
      SecondStored(L, buf, r, slots);
      EntrySizeFacts(|slots[1].data|);
    }
  }

  lemma DrainDeliver(L: int, buf: seq<Byte>, Ro: int, Wo: int, fuel: nat, at: nat, size: nat, next: int)
    requires L > 0 && |buf| == L && fuel > 0 && 0 <= Ro % L && Ro % L + HDR <= L
    requires PlanRead(L, Ro, Wo, buf) == Deliver(at, size, next) && at + HDR + size <= L
    ensures Drain(L, buf, Ro, Wo, fuel) == [buf[at + HDR..at + HDR + size]] + Drain(L, buf, next, Wo, fuel - 1)
  {
  }

  /** How many slots one read takes: the head entry, a marker, or an entry behind a short hole. */
  function HeadSpan(slots: seq<Slot>): nat
    requires slots != []
  {
    if slots[0].Gap? && slots[0].len <= HDR then 2 else 1
  }

  lemma TakeEnd(L: nat, slots: seq<Slot>, r: Pos)
    ensures |slots| >= 1 ==> End(L, slots[..1], r) == Adv(L, r, SizeOf(slots[0]))
    ensures |slots| >= 2 ==> End(L, slots[..2], r) == Adv(L, Adv(L, r, SizeOf(slots[0])), SizeOf(slots[1]))
  {
    if |slots| >= 1 {
      assert slots[..1][1..] == [];
    }
    if |slots| >= 2 {
      var p := Adv(L, r, SizeOf(slots[0]));
      assert slots[..2][1..] == [slots[1]];
      assert End(L, [slots[1]], p) == Adv(L, p, SizeOf(slots[1])) by {
        assert [slots[1]][1..] == [];
      }
    }
  }

  /** Dropping the head slots moves r forward, never past a snapshot of it. */
  lemma DropSlots(L: nat, buf: seq<Byte>, r: Pos, w: Pos, slots: seq<Slot>, n: nat)
    requires RingOk(L, buf, r, w, slots) && 1 <= n <= 2 && n <= |slots| && (n == 2 ==> slots[0].Gap?)
    ensures var r' := End(L, slots[..n], r);
            && RingOk(L, buf, r', w, slots[n..])
            && (r.lap < r'.lap || (r.lap == r'.lap && r.off <= r'.off))
            && Msgs(slots) == (if slots[n - 1].Msg? then [slots[n - 1].data] else []) + Msgs(slots[n..])
  {
    TakeEnd(L, slots, r);
    DropHead(L, buf, r, w, slots);
    if n == 2 {
      DropHead(L, buf, Adv(L, r, SizeOf(slots[0])), w, slots[1..]);
      assert slots[1..][1..] == slots[2..];
    }
  }

  /** One step of draining, in terms of the head slots. */
  lemma DrainHead(L: int, buf: seq<Byte>, r: Pos, w: Pos, slots: seq<Slot>, fuel: nat)
    requires RingOk(L, buf, r, w, slots) && slots != [] && fuel > 0
    ensures HeadSpan(slots) <= |slots|
    ensures var n := HeadSpan(slots);
            Drain(L, buf, Code(L, r), Code(L, w), fuel) ==
            (if slots[n - 1].Msg? then [slots[n - 1].data] else [])
            + Drain(L, buf, Code(L, End(L, slots[..n], r)), Code(L, w), fuel - 1)
  {
    LooksAtAll(L, buf, r, w, slots);
    HeadBytes(L, buf, r, w, slots);
    TakeEnd(L, slots, r);
    match slots[0]
    case Msg(d) =>
      DrainDeliver(L, buf, Code(L, r), Code(L, w), fuel, r.off, |d|, Code(L, Adv(L, r, EntrySize(|d|))));
    case Gap(n) =>
      DropHead(L, buf, r, w, slots);
      if n <= HDR {
        var d := slots[1].data;
        DrainDeliver(L, buf, Code(L, r), Code(L, w), fuel, 0, |d|, Code(L, Adv(L, Pos(r.lap + 1, 0), EntrySize(|d|))));
      }
  }

  lemma {:induction false} DrainIsQueue(L: int, buf: seq<Byte>, r: Pos, w: Pos, slots: seq<Slot>, fuel: nat)
    requires RingOk(L, buf, r, w, slots) && fuel >= |slots|
    ensures Drain(L, buf, Code(L, r), Code(L, w), fuel) == Msgs(slots)
    decreases |slots|
  {
    if slots == [] {
      LooksAtAll(L, buf, r, w, slots);
    } else {
      var n := HeadSpan(slots);
      DrainHead(L, buf, r, w, slots, fuel);
      DropSlots(L, buf, r, w, slots, n);
      DrainIsQueue(L, buf, End(L, slots[..n], r), w, slots[n..], fuel - 1);
    }
  }

  predicate DeliversHead(L: int, buf: seq<Byte>, plan: ReadPlan, d: seq<Byte>)
    requires |buf| == L
  {
    && plan.Deliver? && plan.size == |d|
    && 0 <= plan.at && plan.at + HDR + plan.size <= L
    && buf[plan.at + HDR..plan.at + HDR + plan.size] == d
  }

  lemma HeadOfMsgs(slots: seq<Slot>)
    requires slots != [] && GapsFollowed(slots)
    ensures slots[0].Gap? ==> |slots| > 1 && slots[1].Msg?
    ensures Msgs(slots) != [] && Msgs(slots)[0] == if slots[0].Msg? then slots[0].data else slots[1].data
  {
    if slots[0].Gap? {
      assert Msgs(slots) == Msgs(slots[1..]) && slots[1..][0] == slots[1];
    }
  }

  /** With no marker in front, one quiescent read delivers the head. */
  lemma HeadAtOnce(L: int, buf: seq<Byte>, r: Pos, w: Pos, slots: seq<Slot>)
    requires RingOk(L, buf, r, w, slots) && slots != [] && (slots[0].Gap? ==> slots[0].len <= HDR)
    ensures Code(L, r) % L == r.off && r.off + HDR <= L
    ensures Msgs(slots) != [] && DeliversHead(L, buf, PlanRead(L, Code(L, r), Code(L, w), buf), Msgs(slots)[0])
  {
    LooksAtAll(L, buf, r, w, slots);
    HeadBytes(L, buf, r, w, slots);
    HeadOfMsgs(slots);
  }

  /** Quiescent reads deliver the head at the first or, past a marker, at the second attempt. */
  lemma HeadWithinTwoReads(L: int, buf: seq<Byte>, r: Pos, w: Pos, slots: seq<Slot>)
    requires RingOk(L, buf, r, w, slots) && Msgs(slots) != []
    ensures Code(L, r) % L == r.off && r.off + HDR <= L
    ensures var first := PlanRead(L, Code(L, r), Code(L, w), buf);
            || DeliversHead(L, buf, first, Msgs(slots)[0])
            || (first.Skip? && 0 <= first.next % L && first.next % L + HDR <= L
                && DeliversHead(L, buf, PlanRead(L, first.next, Code(L, w), buf), Msgs(slots)[0]))
  {
    if slots[0].Gap? && slots[0].len > HDR {
      var p := Pos(r.lap + 1, 0);
      LooksAtAll(L, buf, r, w, slots);
      DropHead(L, buf, r, w, slots);
      HeadAtOnce(L, buf, p, w, slots[1..]);
    } else {
      HeadAtOnce(L, buf, r, w, slots);
    }
  }

  lemma DeliverIsNotEmpty(L: int, Ro: int, Wo: int, buf: seq<Byte>)
    requires L > 0 && |buf| == L && 0 <= Ro % L && Ro % L + HDR <= L
    ensures PlanRead(L, Ro, Wo, buf).Deliver? ==> PlanRead(L, Ro, Wo, buf).size > 0
  {
  }

  /** Whatever memory and offsets hold, no entry read out is empty. */
  lemma {:induction false} DrainHasNoEmpty(L: int, buf: seq<Byte>, Ro: int, Wo: int, fuel: nat)
    requires L > 0 && |buf| == L
    ensures [] !in Drain(L, buf, Ro, Wo, fuel)
    decreases fuel
  {
    if fuel > 0 && 0 <= Ro % L && Ro % L + HDR <= L {
      DeliverIsNotEmpty(L, Ro, Wo, buf);
      match PlanRead(L, Ro, Wo, buf)
      case Deliver(at, size, next) => DrainHasNoEmpty(L, buf, next, Wo, fuel - 1);
      case Skip(next) => DrainHasNoEmpty(L, buf, next, Wo, fuel - 1);
      case _ =>
    }
  }

  /**
   * Why a chunk of size 0 must never be written: whatever was delivered one entry at a time
   * and whatever memory still yields, an empty entry that was accepted is in neither.
   */
  lemma EmptyEntryIsLost(L: int, buf: seq<Byte>, Ro: int, Wo: int, fuel: nat,
                         accepted: seq<seq<Byte>>, delivered: seq<seq<Byte>>)
    requires L > 0 && |buf| == L && [] in accepted && [] !in delivered
    ensures delivered + Drain(L, buf, Ro, Wo, fuel) != accepted
  {
    DrainHasNoEmpty(L, buf, Ro, Wo, fuel);
    assert [] !in delivered + Drain(L, buf, Ro, Wo, fuel);
  }

  /** The whole effect of an undisturbed write on memory and queue. */
  lemma WriteEffect(L: int, buf: seq<Byte>, buf': seq<Byte>, r: Pos, w: Pos, slots: seq<Slot>, d: seq<Byte>, p: WritePlan)
    requires RingOk(L, buf, r, w, slots) && |buf'| == L
    requires 1 <= |d| && 8 * EntrySize(|d|) <= L
    requires p == PlanWrite(L, Code(L, r), Code(L, w), EntrySize(|d|)) && p.Place?
    requires forall x :: 0 <= x < L ==>
               buf'[x] == if Fills(L, p.at, p.wipe, w.off, |d|, x) then ImageByte(p.at, d, x) else buf[x]
    ensures p.next == Code(L, NextPos(L, w, EntrySize(|d|), p.wipe))
    ensures RingOk(L, buf', r, NextPos(L, w, EntrySize(|d|), p.wipe), slots + NewSlots(L, w.off, p.wipe, d))
    ensures Msgs(slots + NewSlots(L, w.off, p.wipe, d)) == Msgs(slots) + [d]
  {
    RingFacts(L, buf, r, w, slots);
    forall x | 0 <= x < L && Covers(L, slots, r, x)
      ensures buf[x] == buf'[x]
    {
      if Fills(L, p.at, p.wipe, w.off, |d|, x) {
        FillOutside(L, buf, r, r, w, slots, d, p, x);
      }
    }
    RingFrame(L, buf, buf', r, w, slots);
    Publish(L, buf', r, r, w, slots, d, p);
  }
}
