/**
 * The static ring buffer object (ringbufst.h): one memory block, two offsets and two
 * try-locks, all updated in place.  These are the uncontended calls; a call that finds
 * its lock taken returns 0 and changes nothing.
 */
module RingBufferSt {
  import opened Division
  import opened LittleEndian
  import opened RingLayout
  import opened RingPlans
  import RingMachine

  const LENGTH_MAX := 0x01FFFF
  const LENGTH_MIN := 2

  function Clamp(length: int): int {
    if length < LENGTH_MIN then LENGTH_MIN else if length > LENGTH_MAX then LENGTH_MAX else length
  }

  function AlignPage(fsz: nat): nat {
    (fsz + PAGE - 1) / PAGE * PAGE
  }

  lemma AlignPageIsLength(n: nat)
    requires 0 < n <= 0x3FFF_F000
    ensures ValidLength(AlignPage(n)) && RingLength(AlignPage(n)) && n <= AlignPage(n) < n + 4096 && AlignPage(n) % 4096 == 0
  {
    var q := (n + PAGE - 1) / PAGE;
    PagesOf(n + PAGE - 1, q, (n + PAGE - 1) % PAGE);
  }

  /** q whole pages. */
  lemma PagesOf(x: nat, q: nat, rest: nat)
    requires x == q * PAGE + rest && rest < PAGE && PAGE <= x < 0x4000_0000
    ensures 0 < q * PAGE && 2 * (q * PAGE) <= 0x7FFF_FFFF && (q * PAGE) % PAGE == 0 && (q * PAGE) % HDR == 0
  {
    assert 1 <= q < 0x4_0000;
    DivUnique(q * PAGE, PAGE, q, 0);
    DivUnique(q * PAGE, HDR, 512 * q, 0);
  }

  /** The read side of the ring: its position and the slots ahead of it. */
  datatype View = View(r: Pos, slots: seq<Slot>)

  predicate MarkerAhead(slots: seq<Slot>) {
    slots != [] && slots[0].Gap? && slots[0].len > HDR
  }

  /** What one uncontended read does. */
  predicate ReadOutcome(v: View, v': View, callback: seq<Byte> -> bool, ret: int, shown: seq<seq<Byte>>) {
    var q := Msgs(v.slots);
    if v.slots == [] then ret == 0 && v' == v && shown == []
    else if MarkerAhead(v.slots) then
      ret == 0 && shown == [] && v'.r == Pos(v.r.lap + 1, 0) && Msgs(v'.slots) == q != [] && !MarkerAhead(v'.slots)
    else
      && q != [] && shown == [q[0]]
      && (if callback(q[0]) then ret == 1 && Msgs(v'.slots) == q[1..] && v.r.lap <= v'.r.lap else ret == 0 && v' == v)
  }

  lemma ReadOutcomeFacts(v: View, v': View, callback: seq<Byte> -> bool, ret: int, shown: seq<seq<Byte>>)
    requires ReadOutcome(v, v', callback, ret, shown)
    ensures v.r.lap <= v'.r.lap
    ensures ret == 1 ==> Msgs(v.slots) == shown + Msgs(v'.slots) && |shown| == 1 && callback(shown[0])
    ensures ret != 1 ==> ret == 0 && Msgs(v.slots) == Msgs(v'.slots)
    ensures ret != 1 ==> Msgs(v'.slots) == [] || !callback(Msgs(v'.slots)[0]) || v'.r == Pos(v.r.lap + 1, 0)
  {
  }

  /** A batch took num entries off the front, all accepted by the callback. */
  predicate Batched(before: seq<seq<Byte>>, after: seq<seq<Byte>>, callback: seq<Byte> -> bool,
                    num: int, taken: seq<seq<Byte>>)
  {
    num == |taken| && before == taken + after && forall d :: d in taken ==> callback(d)
  }

  lemma BatchGrows(start: seq<seq<Byte>>, before: seq<seq<Byte>>, after: seq<seq<Byte>>, callback: seq<Byte> -> bool,
                   num: int, taken: seq<seq<Byte>>, shown: seq<seq<Byte>>)
    requires Batched(start, before, callback, num, taken) && before == shown + after && |shown| == 1 && callback(shown[0])
    ensures Batched(start, after, callback, num + 1, taken + shown)
  {
  }

  /** The head slots gone: where the read offset then is. */
  lemma HeadTaken(L: int, mem: seq<Byte>, r: Pos, w: Pos, slots: seq<Slot>)
    requires RingOk(L, mem, r, w, slots) && slots != []
    ensures HeadSpan(slots) <= |slots|
    ensures var n := HeadSpan(slots);
            var r' := End(L, slots[..n], r);
            && RingOk(L, mem, r', w, slots[n..]) && r.lap <= r'.lap && |slots[n..]| < |slots|
            && Code(L, r) % L == r.off && r.off + HDR <= L
            && (var plan := PlanRead(L, Code(L, r), Code(L, w), mem);
                (plan.Skip? || plan.Deliver?) && plan.next == Code(L, r'))
            && (MarkerAhead(slots) ==> r' == Pos(r.lap + 1, 0))
  {
    LooksAtAll(L, mem, r, w, slots);
    TakeEnd(L, slots, r);
    DropSlots(L, mem, r, w, slots, HeadSpan(slots));
    if slots[0].Gap? {
      DropHead(L, mem, r, w, slots);
    }
  }

  lemma RestOfTwo(slots: seq<Slot>)
    requires |slots| >= 2 && slots[0].Gap? && slots[1].Msg?
    ensures Msgs(slots) == [slots[1].data] + Msgs(slots[2..])
  {
    assert slots[1..][1..] == slots[2..] && slots[1..][0] == slots[1];
    assert Msgs(slots) == Msgs(slots[1..]);
  }

  /** And what is left of the queue. */
  lemma HeadTakenQueue(slots: seq<Slot>)
    requires slots != [] && GapsFollowed(slots) && HeadSpan(slots) <= |slots|
    ensures var rest := slots[HeadSpan(slots)..];
            && (MarkerAhead(slots) ==> Msgs(rest) == Msgs(slots) && rest != [] && rest[0].Msg?)
            && (!MarkerAhead(slots) ==> Msgs(slots) != [] && Msgs(rest) == Msgs(slots)[1..])
  {
    if HeadSpan(slots) == 2 {
      RestOfTwo(slots);
    }
  }

  const TWO63: nat := 0x8000_0000_0000_0000
  const TWO64: nat := 0x1_0000_0000_0000_0000

  /** RINGBUFST_ALIGN_ENTRYSIZE in 64-bit words, read as a signed number. */
  function AlignedEntry(chunksz: nat): int {
    var sum := (chunksz + HDR) % TWO64;
    var aligned := ((sum + HDR - 1) % TWO64) / HDR * HDR;
    if aligned < TWO63 then aligned else aligned - TWO64
  }

  /** The chunk sizes ringbufst_write turns away. */
  predicate TurnedAway(L: nat, chunksz: nat) {
    var A := AlignedEntry(chunksz);
    A == 0 || A == -1 || A > L / HDR
  }

  /** The sizes for which the rounding does not leave the positive numbers or wrap around to a small one. */
  predicate SizeCheckMeant(chunksz: nat) {
    chunksz <= TWO63 - 16 || TWO64 - 15 <= chunksz <= TWO64 - 8
  }

  lemma WrapsOnce(x: nat)
    requires x < 2 * TWO64
    ensures x % TWO64 == if x < TWO64 then x else x - TWO64
  {
    if x < TWO64 {
      DivUnique(x, TWO64, 0, x);
    } else {
      DivUnique(x, TWO64, 1, x - TWO64);
    }
  }

  lemma RoundsDown(x: nat)
    ensures x - HDR < x / HDR * HDR <= x && (x / HDR * HDR) % HDR == 0
  {
  }

  /** What the rounding comes to, over all sizes. */
  lemma AlignedCases(chunksz: nat)
    requires chunksz < TWO64
    ensures chunksz <= TWO63 - 16 ==> AlignedEntry(chunksz) == EntrySize(chunksz)
    ensures TWO63 - 16 < chunksz < TWO64 - 15 ==> AlignedEntry(chunksz) <= -8
    ensures TWO64 - 15 <= chunksz <= TWO64 - 8 ==> AlignedEntry(chunksz) == 0
    ensures TWO64 - 8 < chunksz ==> AlignedEntry(chunksz) == 8
  {
    WrapsOnce(chunksz + HDR);
    var sum := (chunksz + HDR) % TWO64;
    WrapsOnce(sum + HDR - 1);
    RoundsDown((sum + HDR - 1) % TWO64);
  }

  /** Of all sizes, exactly those are judged rightly by the size check. */
  lemma SizeCheckExact(L: nat, chunksz: nat)
    requires RingLength(L) && chunksz < TWO64
    ensures SizeCheckMeant(chunksz) ==> (TurnedAway(L, chunksz) <==> 8 * EntrySize(chunksz) > L)
    ensures L >= PAGE && !SizeCheckMeant(chunksz) ==> !TurnedAway(L, chunksz) && 8 * EntrySize(chunksz) > L
    ensures chunksz <= TWO63 - 16 ==> AlignedEntry(chunksz) == EntrySize(chunksz)
  {
    AlignedCases(chunksz);
    EntrySizeFacts(chunksz);
  }

  /** The step machine admits just the entries that the size check lets through, among the sizes it judges rightly. */
  lemma MachineAdmits(L: nat, d: seq<Byte>)
    requires RingLength(L) && |d| < TWO64 && SizeCheckMeant(|d|)
    ensures RingMachine.Admissible(L, d) <==> !TurnedAway(L, |d|)
  {
    SizeCheckExact(L, |d|);
  }

  class RingBuffer {
    var RLock: int
    var WLock: int
    var WOffset: int
    var ROffset: int
    const Length: nat
    const Buffer: array<Byte>
    ghost var r: Pos
    ghost var w: Pos
    ghost var slots: seq<Slot>

    ghost predicate Valid()
      reads this, Buffer
    {
      && Buffer.Length == Length && RingOk(Length, Buffer[..], r, w, slots)
      && ROffset == Code(Length, r) && WOffset == Code(Length, w)
      && RLock in {0, 1} && WLock in {0, 1}
    }

    /** The entries waiting to be read, oldest first. */
    ghost function Queue(): seq<seq<Byte>>
      reads this
    {
      Msgs(slots)
    }

    ghost function Ahead(): View
      reads this
    {
      View(r, slots)
    }

    /** The entries memory and the two offsets decode to, whatever is said about them elsewhere. */
    ghost function InMemory(): seq<seq<Byte>>
      requires Length > 0 && Buffer.Length == Length
      reads this, Buffer
    {
      Drain(Length, Buffer[..], ROffset, WOffset, Length)
    }

    lemma QueueIsInMemory()
      requires Valid()
      ensures InMemory() == Queue()
    {
      SlotCount(Length, Buffer[..], slots, r);
      DrainIsQueue(Length, Buffer[..], r, w, slots, Length);
    }

    /** ringbufst_init: everything zero, a whole number of pages. */
    constructor (length: int, eltsizemax: nat)
      requires 0 < eltsizemax
      requires eltsizemax * (if length < 2 then 2 else if length > 0x01FFFF then 0x01FFFF else length) <= 0x3FFF_F000
      ensures Valid() && fresh(Buffer) && Queue() == [] && forall x :: 0 <= x < Length ==> Buffer[x] == 0
      ensures var n := if length < 2 then 2 else if length > 0x01FFFF then 0x01FFFF else length;
              eltsizemax * n <= Length < eltsizemax * n + 4096 && Length % 4096 == 0
      ensures ValidLength(Length)
      ensures RLock == 0 && WLock == 0
    {
      var size := eltsizemax * Clamp(length);
      MulAtLeast(eltsizemax, Clamp(length));
      AlignPageIsLength(size);
      Length := AlignPage(size);
      Buffer := new Byte[AlignPage(size)](_ => 0);
      RLock, WLock, WOffset, ROffset := 0, 0, 0, 0;
      r, w, slots := Pos(0, 0), Pos(0, 0), [];
    }

    /** entry->size = chunksz; write_cb(entry->chunk, ...) */
    method PutEntry(at: nat, chunk: seq<Byte>)
      requires Buffer.Length == Length && at + HDR + |chunk| <= Length
      modifies Buffer
      ensures forall x :: 0 <= x < Length ==>
                Buffer[x] == if at <= x < at + HDR + |chunk| then ImageByte(at, chunk, x) else old(Buffer[x])
    {
      var header := Encode(|chunk|, HDR);
      forall i | 0 <= i < HDR {
        Buffer[at + i] := header[i];
      }
      forall i | 0 <= i < |chunk| {
        Buffer[at + HDR + i] := chunk[i];
      }
    }

    /** bzero(&Buffer[W], L - W) */
    method WipeTail(W: nat)
      requires Buffer.Length == Length && W <= Length
      modifies Buffer
      ensures forall x :: 0 <= x < Length ==> Buffer[x] == if W <= x then 0 else old(Buffer[x])
    {
      forall x | W <= x < Length {
        Buffer[x] := 0;
      }
    }

    /** Ghost bookkeeping after the code has moved WOffset past a new entry. */
    ghost method AppendEntry(before: seq<Byte>, chunk: seq<Byte>, plan: WritePlan)
      requires Buffer.Length == Length && RingOk(Length, before, r, w, slots)
      requires 1 <= |chunk| && 8 * EntrySize(|chunk|) <= Length
      requires plan == PlanWrite(Length, Code(Length, r), Code(Length, w), EntrySize(|chunk|)) && plan.Place?
      requires forall x :: 0 <= x < Length ==>
                 Buffer[x] == if Fills(Length, plan.at, plan.wipe, w.off, |chunk|, x) then ImageByte(plan.at, chunk, x)
                              else before[x]
      requires WOffset == plan.next && ROffset == Code(Length, r) && RLock in {0, 1} && WLock in {0, 1}
      modifies this`w, this`slots
      ensures Valid() && Queue() == old(Queue()) + [chunk]
    {
      WriteEffect(Length, before, Buffer[..], r, w, slots, chunk, plan);
      slots := slots + NewSlots(Length, w.off, plan.wipe, chunk);
      w := NextPos(Length, w, EntrySize(|chunk|), plan.wipe);
    }

    lemma RefusalMeansCrowded(A: nat)
      requires Valid() && 0 < A && 8 * A <= Length && PlanWrite(Length, ROffset, WOffset, A) == Refuse
      ensures 4 * EntryBytes(Queue()) > 3 * Length
    {
      RefusedOnlyWhenCrowded(Length, Buffer[..], r, w, slots, A);
      LiveIsEntries(slots);
    }

    /** The plan in the code's own terms. */
    lemma PlanFacts(A: nat)
      requires Valid() && 0 < A && 8 * A <= Length
      ensures w.off < Length && WOffset % Length == w.off
      ensures var plan := PlanWrite(Length, ROffset, WOffset, A);
              plan.Place? ==> 0 <= plan.at && plan.at + A <= Length && (plan.wipe ==> plan.at == 0 && A <= w.off)
    {
      RingFacts(Length, Buffer[..], r, w, slots);
      CodeDivMod(Length, w);
      PlanWriteMeaning(Length, r, w, A);
    }

    lemma FitsEighth(A: nat)
      requires RingLength(Length)
      ensures A <= Length / HDR <==> 8 * A <= Length
    {
    }

    /** The branches of ringbufst_write that place an entry; false when there is no room at either end. */
    method Place(chunk: seq<Byte>, A: nat, Ro: int, Wo: int) returns (placed: bool)
      requires Valid() && WLock == 1 && A == EntrySize(|chunk|) && 8 * A <= Length
      requires Ro == ROffset && Wo == WOffset
      requires Length - (RestoreWrap(Ro, Wo, Length) * Length + Wo % Length - Ro % Length) >= A
      modifies `WOffset, `w, `slots, Buffer
      ensures placed && chunk != [] ==> Valid() && Queue() == old(Queue()) + [chunk]
      ensures !placed ==>
                && Valid() && Queue() == old(Queue()) && Buffer[..] == old(Buffer[..]) && WOffset == old(WOffset)
                && PlanWrite(Length, ROffset, WOffset, A) == Refuse
    {
      var L := Length;
      var wrap, R, W := RestoreWrap(Ro, Wo, L), Ro % L, Wo % L;
      ghost var plan, before := PlanWrite(L, Ro, Wo, A), Buffer[..];
      EntrySizeFacts(|chunk|);
      PlanFacts(A);
      if wrap == 1 {
        PutEntry(W, chunk);
        W := Normalize(Wo + A, L);
        WOffset := W;
      } else {
        if L - W >= A {
          PutEntry(W, chunk);
          W := Normalize(Wo + A, L);
          WOffset := W;
        } else if R - 0 >= A {
          WipeTail(W);
          PutEntry(0, chunk);
          W := A + (1 - Ro / L) * L;
          WOffset := W;
        } else {
          return false;
        }
      }
      if chunk != [] {
        AppendEntry(before, chunk, plan);
      }
      return true;
    }

    /** What memory yields after a write, and that an entry of no bytes is not in it. */
    lemma WrittenInMemory(before: seq<seq<Byte>>, chunk: seq<Byte>)
      requires Length > 0 && Buffer.Length == Length
      requires chunk != [] ==> Valid() && Queue() == before + [chunk]
      ensures InMemory() == before + [chunk] <==> chunk != []
    {
      if chunk != [] {
        QueueIsInMemory();
      } else {
        DrainHasNoEmpty(Length, Buffer[..], ROffset, WOffset, Length);
        assert chunk in before + [chunk];
      }
    }

    /**
     * ringbufst_write.  1: the entry is queued, unless it has no bytes; 0: lock taken, or no
     * room; -1: too long ever to fit.
     */
    method Write(chunk: seq<Byte>) returns (ret: int)
      requires Valid() && SizeCheckMeant(|chunk|)
      modifies this, Buffer
      ensures RLock == old(RLock) && WLock == old(WLock) && ROffset == old(ROffset)
      ensures ret == -1 <==> EntrySize(|chunk|) > Length / HDR
      ensures ret == 1 && chunk != [] ==> Valid() && Queue() == old(Queue()) + [chunk]
      ensures ret == 1 ==> (InMemory() == old(Queue()) + [chunk] <==> chunk != [])
      ensures ret != 1 ==> Valid() && Queue() == old(Queue()) && Buffer[..] == old(Buffer[..]) && WOffset == old(WOffset)
      ensures ret == 1 || ret == 0 || ret == -1
      ensures ret == 1 ==> old(WLock) == 0
      ensures ret == 0 && old(WLock) == 0 ==> 4 * EntryBytes(Queue()) > 3 * Length
    {
      var L := Length;
      var A := AlignedEntry(|chunk|);
      SizeCheckExact(L, |chunk|);
      if A == 0 || A == -1 || A > L / HDR {
        return -1;
      }
      FitsEighth(A);
      if WLock == 0 {
        WLock := 1;
        var Ro, Wo := ROffset, WOffset;
        var wrap, R, W := RestoreWrap(Ro, Wo, L), Ro % L, Wo % L;
        if L - (wrap * L + W - R) >= A {
          var placed := Place(chunk, A, Ro, Wo);
          WLock := 0;
          if !placed {
            RefusalMeansCrowded(A);
            return 0;
          }
          WrittenInMemory(old(Queue()), chunk);
          return 1;
        }
        WLock := 0;
        RefusalMeansCrowded(A);
        return 0;
      }
      return 0;
    }

    /** What the read code finds, in terms of the queue: never Fatal. */
    lemma LookFacts()
      requires Valid()
      ensures 0 <= ROffset % Length && ROffset % Length + HDR <= Length
      ensures var plan := PlanRead(Length, ROffset, WOffset, Buffer[..]);
              if slots == [] then plan == Nothing && Queue() == []
              else
                && Queue() != []
                && (if MarkerAhead(slots) then plan.Skip? else DeliversHead(Length, Buffer[..], plan, Queue()[0]))
    {
      LooksAtAll(Length, Buffer[..], r, w, slots);
      if slots != [] {
        HeadBytes(Length, Buffer[..], r, w, slots);
        HeadOfMsgs(slots);
      }
    }

    /** Ghost bookkeeping after the code has moved ROffset past the head. */
    ghost method TakeHead(before: int, plan: ReadPlan, mem: seq<Byte>)
      requires Buffer.Length == Length && Buffer[..] == mem && RingOk(Length, mem, r, w, slots) && slots != []
      requires before == Code(Length, r) && WOffset == Code(Length, w) && RLock in {0, 1} && WLock in {0, 1}
      requires 0 <= before % Length && before % Length + HDR <= Length
      requires plan == PlanRead(Length, before, WOffset, mem) && (plan.Skip? || plan.Deliver?) && ROffset == plan.next
      modifies this`r, this`slots
      ensures Valid()
      ensures old(MarkerAhead(slots)) ==> Queue() == old(Queue()) && slots != [] && slots[0].Msg? && r == Pos(old(r.lap) + 1, 0)
      ensures !old(MarkerAhead(slots)) ==> old(Queue()) != [] && Queue() == old(Queue())[1..]
      ensures |slots| < old(|slots|) && old(r.lap) <= r.lap
    {
      HeadTaken(Length, mem, r, w, slots);
      HeadTakenQueue(slots);
      var n := HeadSpan(slots);
      r := End(Length, slots[..n], r);
      slots := slots[n..];
    }

    /** Moves ROffset from the marker to the start of the next lap. */
    method StepOverMarker(next: int)
      requires Valid() && 0 <= ROffset % Length && ROffset % Length + HDR <= Length
      requires PlanRead(Length, ROffset, WOffset, Buffer[..]) == Skip(next)
      modifies this`ROffset, this`r, this`slots
      ensures Valid() && old(MarkerAhead(slots)) && r == Pos(old(r.lap) + 1, 0) && |slots| < old(|slots|)
      ensures Queue() == old(Queue()) && old(Queue()) != [] && slots != [] && slots[0].Msg?
    {
      LookFacts();
      ghost var plan, mem, before := PlanRead(Length, ROffset, WOffset, Buffer[..]), Buffer[..], ROffset;
      ROffset := next;
      TakeHead(before, plan, mem);
    }

    /** A delivery shows the head of the queue. */
    lemma DeliverShowsHead(at: nat, size: nat, next: int)
      requires Valid() && 0 <= ROffset % Length && ROffset % Length + HDR <= Length
      requires PlanRead(Length, ROffset, WOffset, Buffer[..]) == Deliver(at, size, next)
      ensures slots != [] && !MarkerAhead(slots) && Queue() != [] && |Queue()[0]| == size
      ensures at + HDR + size <= Length && Buffer[at + HDR..at + HDR + size] == Queue()[0]
    {
      LookFacts();
      SameSlice(at + HDR, at + HDR + size);
    }

    lemma SameSlice(i: nat, j: nat)
      requires i <= j <= Buffer.Length
      ensures Buffer[i..j] == Buffer[..][i..j]
    {
    }

    /** The part common to the three ways of finding an entry: show it, and step past it if accepted. */
    method Offer(at: nat, size: nat, next: int, callback: seq<Byte> -> bool) returns (ret: int, shown: seq<seq<Byte>>)
      requires Valid() && 0 <= ROffset % Length && ROffset % Length + HDR <= Length
      requires PlanRead(Length, ROffset, WOffset, Buffer[..]) == Deliver(at, size, next)
      modifies this`ROffset, this`r, this`slots
      ensures Valid() && ReadOutcome(old(Ahead()), Ahead(), callback, ret, shown)
    {
      DeliverShowsHead(at, size, next);
      ghost var plan, mem := PlanRead(Length, ROffset, WOffset, Buffer[..]), Buffer[..];
      var entry := Buffer[at + HDR..at + HDR + size];
      shown := [entry];
      if callback(entry) {
        ghost var before := ROffset;
        ROffset := next;
        TakeHead(before, plan, mem);
        return 1, shown;
      } else {
        return 0, shown;
      }
    }

    /** The reader's and the writer's offsets on the same lap. */
    method ReadStraight(Ro: int, Wo: int, L: nat, callback: seq<Byte> -> bool) returns (ret: int, shown: seq<seq<Byte>>)
      requires Valid() && L == Length && Ro == ROffset && Wo == WOffset && RestoreWrap(Ro, Wo, L) == 0 && Wo % L - Ro % L > HDR
      modifies this`ROffset, this`r, this`slots
      ensures Valid() && ReadOutcome(old(Ahead()), Ahead(), callback, ret, shown)
    {
      LookFacts();
      var R, W := Ro % L, Wo % L;
      var size := HeaderAt(Buffer[..], R);
      if size != 0 {
        var A := EntrySize(size);
        if W - R >= A {
          ret, shown := Offer(R, size, Normalize(Ro + A, L), callback);
          return ret, shown;
        }
      }
      return -1, [];
    }

    /** No room for an entry before the end of the lap: the head is at the front. */
    method ReadFront(Ro: int, Wo: int, L: nat, callback: seq<Byte> -> bool) returns (ret: int, shown: seq<seq<Byte>>)
      requires Valid() && L == Length && Ro == ROffset && Wo == WOffset && RestoreWrap(Ro, Wo, L) == 1
      requires L + Wo % L - Ro % L > HDR && L - Ro % L <= HDR && Wo % L > HDR
      modifies this`ROffset, this`r, this`slots
      ensures Valid() && ReadOutcome(old(Ahead()), Ahead(), callback, ret, shown)
    {
      LookFacts();
      var W := Wo % L;
      var size := HeaderAt(Buffer[..], 0);
      if size != 0 {
        var A := EntrySize(size);
        if W - 0 >= A {
          ret, shown := Offer(0, size, A + (Wo / L) * L, callback);
          return ret, shown;
        }
      }
      return -1, [];
    }

    /** The offsets on different laps, with room for an entry before the end of the reader's: an entry or a marker. */
    method ReadLapEnd(Ro: int, Wo: int, L: nat, callback: seq<Byte> -> bool)
      returns (marker: bool, ret: int, shown: seq<seq<Byte>>)
      requires Valid() && L == Length && Ro == ROffset && Wo == WOffset && RestoreWrap(Ro, Wo, L) == 1
      requires L + Wo % L - Ro % L > HDR && L - Ro % L > HDR
      modifies this`ROffset, this`r, this`slots
      ensures Valid() && (!marker ==> ReadOutcome(old(Ahead()), Ahead(), callback, ret, shown))
      ensures marker ==>
                && old(MarkerAhead(slots)) && r == Pos(old(r.lap) + 1, 0)
                && Queue() == old(Queue()) && old(Queue()) != [] && slots != [] && slots[0].Msg?
    {
      LookFacts();
      var R := Ro % L;
      var size := HeaderAt(Buffer[..], R);
      if size != 0 {
        var A := EntrySize(size);
        if L - R >= A {
          ret, shown := Offer(R, size, Normalize(Ro + A, L), callback);
          return false, ret, shown;
        }
        return false, -1, [];
      } else {
        StepOverMarker((Wo / L) * L);
        return true, 0, [];
      }
    }

    /**
     * __ringbufst_read_internal with the read lock held: the entry shown to the callback, if
     * any, is the head of the queue, and it leaves the queue exactly when the callback accepts.
     */
    method ReadInternal(wrap: int, Ro: int, Wo: int, L: nat, callback: seq<Byte> -> bool)
      returns (ret: int, shown: seq<seq<Byte>>)
      requires Valid() && RLock == 1 && L == Length
      requires Ro == ROffset && Wo == WOffset && wrap == RestoreWrap(Ro, Wo, L)
      modifies this`ROffset, this`RLock, this`r, this`slots
      ensures Valid() && RLock == 1 && ReadOutcome(old(Ahead()), Ahead(), callback, ret, shown)
      decreases 0, 1
    {
      LookFacts();
      var HENTSZ := EntrySize(0);
      assert HENTSZ == HDR;
      var R, W := Ro % L, Wo % L;
      if wrap * L + W - R > HENTSZ {
        if wrap == 1 {
          if L - R > HENTSZ {
            var marker;
            marker, ret, shown := ReadLapEnd(Ro, Wo, L, callback);
            if marker {
              ret, shown := ReadNext(callback);
            }
            return ret, shown;
          } else if W - 0 > HENTSZ {
            ret, shown := ReadFront(Ro, Wo, L, callback);
            return ret, shown;
          }
        } else {
          ret, shown := ReadStraight(Ro, Wo, L, callback);
          return ret, shown;
        }
      }
      return 0, [];
    }

    /** ringbufst_read_next */
    method ReadNext(callback: seq<Byte> -> bool) returns (ret: int, shown: seq<seq<Byte>>)
      requires Valid()
      modifies this`ROffset, this`RLock, this`r, this`slots
      ensures Valid() && RLock == old(RLock)
      ensures old(RLock) != 0 ==> ret == 0 && shown == [] && Ahead() == old(Ahead())
      ensures old(RLock) == 0 ==> ReadOutcome(old(Ahead()), Ahead(), callback, ret, shown)
      decreases 1 - RLock, 0
    {
      ret, shown := 0, [];
      if RLock == 0 {
        RLock := 1;
        var Wo, Ro := WOffset, ROffset;
        var wrap := RestoreWrap(Ro, Wo, Length);
        ret, shown := ReadInternal(wrap, Ro, Wo, Length, callback);
        RLock := 0;
      }
    }

    /** Copies the entry out if it fits the caller's buffer, and only then steps past it. */
    method CopyOut(at: nat, size: nat, next: int, rdbufsz: nat) returns (ret: int, rdbuf: seq<Byte>)
      requires Valid() && 0 <= ROffset % Length && ROffset % Length + HDR <= Length
      requires PlanRead(Length, ROffset, WOffset, Buffer[..]) == Deliver(at, size, next)
      modifies this`ROffset, this`r, this`slots
      ensures Valid() && CopyOutcome(old(Queue()), Queue(), rdbufsz, ret, rdbuf)
    {
      DeliverShowsHead(at, size, next);
      ghost var plan, mem := PlanRead(Length, ROffset, WOffset, Buffer[..]), Buffer[..];
      if size > rdbufsz {
        return size, [];
      }
      rdbuf := Buffer[at + HDR..at + HDR + size];
      ghost var before := ROffset;
      ROffset := next;
      TakeHead(before, plan, mem);
      return size, rdbuf;
    }

    /** What an uncontended copying read does: the head's length, and the head itself when it fits. */
    static ghost predicate CopyOutcome(q: seq<seq<Byte>>, q': seq<seq<Byte>>, rdbufsz: nat, ret: int, rdbuf: seq<Byte>) {
      if q == [] then ret == 0 && q' == [] && rdbuf == []
      else if |q[0]| > rdbufsz then ret == |q[0]| && q' == q && rdbuf == []
      else ret == |q[0]| && rdbuf == q[0] && q' == q[1..]
    }

    method CopyStraight(Ro: int, Wo: int, L: nat, rdbufsz: nat) returns (ret: int, rdbuf: seq<Byte>)
      requires Valid() && L == Length && Ro == ROffset && Wo == WOffset && RestoreWrap(Ro, Wo, L) == 0 && Wo % L - Ro % L > HDR
      modifies this`ROffset, this`r, this`slots
      ensures Valid() && CopyOutcome(old(Queue()), Queue(), rdbufsz, ret, rdbuf)
    {
      LookFacts();
      var R, W := Ro % L, Wo % L;
      var size := HeaderAt(Buffer[..], R);
      if size != 0 {
        var A := EntrySize(size);
        if W - R >= A {
          ret, rdbuf := CopyOut(R, size, Normalize(Ro + A, L), rdbufsz);
          return ret, rdbuf;
        }
      }
      return -1, [];
    }

    method CopyFront(Ro: int, Wo: int, L: nat, rdbufsz: nat) returns (ret: int, rdbuf: seq<Byte>)
      requires Valid() && L == Length && Ro == ROffset && Wo == WOffset && RestoreWrap(Ro, Wo, L) == 1
      requires L + Wo % L - Ro % L > HDR && L - Ro % L <= HDR && Wo % L > HDR
      modifies this`ROffset, this`r, this`slots
      ensures Valid() && CopyOutcome(old(Queue()), Queue(), rdbufsz, ret, rdbuf)
    {
      LookFacts();
      var W := Wo % L;
      var size := HeaderAt(Buffer[..], 0);
      if size != 0 {
        var A := EntrySize(size);
        if W - 0 >= A {
          ret, rdbuf := CopyOut(0, size, A + (Wo / L) * L, rdbufsz);
          return ret, rdbuf;
        }
      }
      return -1, [];
    }

    method CopyLapEnd(Ro: int, Wo: int, L: nat, rdbufsz: nat) returns (marker: bool, ret: int, rdbuf: seq<Byte>)
      requires Valid() && L == Length && Ro == ROffset && Wo == WOffset && RestoreWrap(Ro, Wo, L) == 1
      requires L + Wo % L - Ro % L > HDR && L - Ro % L > HDR
      modifies this`ROffset, this`r, this`slots
      ensures Valid() && (marker ==> |slots| < old(|slots|) && Queue() == old(Queue()))
      ensures !marker ==> CopyOutcome(old(Queue()), Queue(), rdbufsz, ret, rdbuf)
    {
      LookFacts();
      var R := Ro % L;
      var size := HeaderAt(Buffer[..], R);
      if size != 0 {
        var A := EntrySize(size);
        if L - R >= A {
          ret, rdbuf := CopyOut(R, size, Normalize(Ro + A, L), rdbufsz);
          return false, ret, rdbuf;
        }
        return false, -1, [];
      } else {
        StepOverMarker((Wo / L) * L);
        return true, 0, [];
      }
    }

    /** The part of ringbufst_read_copy done with the lock held; again means a marker was stepped over. */
    method CopyLocked(Ro: int, Wo: int, L: nat, rdbufsz: nat) returns (again: bool, ret: int, rdbuf: seq<Byte>)
      requires Valid() && RLock == 1 && L == Length && Ro == ROffset && Wo == WOffset
      modifies this`ROffset, this`r, this`slots
      ensures Valid() && (again ==> |slots| < old(|slots|) && Queue() == old(Queue()))
      ensures !again ==> CopyOutcome(old(Queue()), Queue(), rdbufsz, ret, rdbuf)
    {
      LookFacts();
      var HENTSZ := EntrySize(0);
      assert HENTSZ == HDR;
      var wrap, R, W := RestoreWrap(Ro, Wo, L), Ro % L, Wo % L;
      if wrap * L + W - R > HENTSZ {
        if wrap == 1 {
          if L - R > HENTSZ {
            again, ret, rdbuf := CopyLapEnd(Ro, Wo, L, rdbufsz);
            return again, ret, rdbuf;
          } else if W - 0 > HENTSZ {
            ret, rdbuf := CopyFront(Ro, Wo, L, rdbufsz);
            return false, ret, rdbuf;
          }
        } else {
          ret, rdbuf := CopyStraight(Ro, Wo, L, rdbufsz);
          return false, ret, rdbuf;
        }
      }
      return false, 0, [];
    }

    /** ringbufst_read_copy: past a marker the lock is released and the read starts again. */
    method ReadCopy(rdbufsz: nat) returns (ret: int, rdbuf: seq<Byte>)
      requires Valid()
      modifies this`ROffset, this`RLock, this`r, this`slots
      ensures Valid() && RLock == old(RLock)
      ensures old(RLock) != 0 ==> ret == 0 && rdbuf == [] && Ahead() == old(Ahead())
      ensures old(RLock) == 0 ==> CopyOutcome(old(Queue()), Queue(), rdbufsz, ret, rdbuf)
      decreases |slots|
    {
      ret, rdbuf := 0, [];
      if RLock == 0 {
        RLock := 1;
        var Wo, Ro := WOffset, ROffset;
        var again;
        again, ret, rdbuf := CopyLocked(Ro, Wo, Length, rdbufsz);
        RLock := 0;
        if again {
          ret, rdbuf := ReadCopy(rdbufsz);
        }
      }
    }

    /** One round of ringbufst_read_next_batch. */
    method ReadForBatch(callback: seq<Byte> -> bool) returns (ret: int, shown: seq<seq<Byte>>)
      requires Valid() && RLock == 1
      modifies this`ROffset, this`RLock, this`r, this`slots
      ensures Valid() && RLock == 1 && old(r.lap) <= r.lap && (ret == 0 || ret == 1)
      ensures ret == 1 ==> old(Queue()) == shown + Queue() && |shown| == 1 && callback(shown[0])
      ensures ret == 0 ==>
                && old(Queue()) == Queue()
                && (Queue() == [] || !callback(Queue()[0]) || (r.off == 0 && r.lap > old(r.lap)))
    {
      var Wo, Ro := WOffset, ROffset;
      var wrap := RestoreWrap(Ro, Wo, Length);
      ret, shown := ReadInternal(wrap, Ro, Wo, Length, callback);
      ReadOutcomeFacts(old(Ahead()), Ahead(), callback, ret, shown);
    }

    /** The loop of ringbufst_read_next_batch, with the lock held. */
    method BatchLoop(callback: seq<Byte> -> bool, batch: int) returns (num: int, taken: seq<seq<Byte>>)
      requires Valid() && RLock == 1
      modifies this`ROffset, this`RLock, this`r, this`slots
      ensures Valid() && RLock == 1 && Batched(old(Queue()), Queue(), callback, num, taken)
      ensures (batch > 0 ==> num <= batch) && (batch <= 0 ==> num == 0)
      ensures num < batch ==> Queue() == [] || !callback(Queue()[0]) || (r.off == 0 && r.lap > old(r.lap))
    {
      num, taken := 0, [];
      var left := batch;
      while left > 0
        invariant Valid() && RLock == 1 && old(r.lap) <= r.lap
        invariant Batched(old(Queue()), Queue(), callback, num, taken)
        invariant if batch > 0 then left >= 0 && num == batch - left else left == batch && num == 0
      {
        left := left - 1;
        ghost var before := Queue();
        var ret, shown := ReadForBatch(callback);
        if ret == 1 {
          BatchGrows(old(Queue()), before, Queue(), callback, num, taken, shown);
          num, taken := num + 1, taken + shown;
          continue;
        }
        if ret == 0 {
          break;
        }
        if ret == -1 {
          num := -1;
          break;
        }
      }
    }

    /**
     * ringbufst_read_next_batch: takes a prefix of the queue, stopping early only at an empty
     * queue, at an entry the callback declines, or right behind a marker.
     */
    method ReadNextBatch(callback: seq<Byte> -> bool, batch: int) returns (num: int, taken: seq<seq<Byte>>)
      requires Valid()
      modifies this`ROffset, this`RLock, this`r, this`slots
      ensures Valid() && RLock == old(RLock)
      ensures Batched(old(Queue()), Queue(), callback, num, taken) && (batch > 0 ==> num <= batch) && (batch <= 0 ==> num == 0)
      ensures old(RLock) == 0 && num < batch ==>
                Queue() == [] || !callback(Queue()[0]) || (r.off == 0 && r.lap > old(r.lap))
      ensures old(RLock) != 0 ==> num == 0 && Ahead() == old(Ahead())
    {
      num, taken := 0, [];
      if RLock == 0 {
        RLock := 1;
        num, taken := BatchLoop(callback, batch);
        RLock := 0;
      }
    }
  }
}
