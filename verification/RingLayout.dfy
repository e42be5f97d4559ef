/**
 * The memory layout shared by the static ring buffer (ringbufst.h) and its
 * process-shared twin (shmmbuf.h), and the two decisions their code takes on it:
 * where a write may go and what a read finds.
 *
 * Offsets live in [0, 2L): the quotient by L is a one-bit phase.  For the proofs
 * an offset is the code of a position on an endless tape cut into laps of length
 * L; the parity of the lap is the phase.
 */
module RingLayout {
  import opened Division
  import opened LittleEndian

  const HDR: nat := 8
  const PAGE: nat := 4096

  /** Ring lengths are whole pages and both phases fit a C int. */
  predicate ValidLength(L: int) {
    0 < L && L % PAGE == 0 && 2 * L <= 0x7FFF_FFFF
  }

  /** All the layout itself needs of a length. */
  predicate RingLength(L: int) {
    0 < L && L % HDR == 0 && 2 * L <= 0x7FFF_FFFF
  }

  /** memapi_align_bsize(chunksz + HDR, HDR) */
  function EntrySize(chunksz: nat): nat {
    (chunksz + HDR + HDR - 1) / HDR * HDR
  }

  // ---------------------------------------------------------------- the code's arithmetic

  function RestoreWrap(Ro: int, Wo: int, L: int): int
    requires L > 0
  {
    if Ro / L == Wo / L then 0 else 1
  }

  function Normalize(Ao: int, L: int): int
    requires L > 0
  {
    ((Ao / L) % 2) * L + Ao % L
  }

  datatype WritePlan = Refuse | Place(at: int, wipe: bool, next: int)

  /** Where ringbufst_write puts an entry of aligned size A, seeing offsets Ro and Wo. */
  function PlanWrite(L: int, Ro: int, Wo: int, A: int): WritePlan
    requires L > 0
  {
    var wrap, R, W := RestoreWrap(Ro, Wo, L), Ro % L, Wo % L;
    if L - (wrap * L + W - R) >= A then
      if wrap == 1 then Place(W, false, Normalize(Wo + A, L))
      else if L - W >= A then Place(W, false, Normalize(Wo + A, L))
      else if R - 0 >= A then Place(0, true, A + (1 - Ro / L) * L)
      else Refuse
    else Refuse
  }

  function HeaderAt(buf: seq<Byte>, at: int): nat
    requires 0 <= at && at + HDR <= |buf|
  {
    Decode(buf[at..at + HDR])
  }

  datatype ReadPlan = Nothing | Deliver(at: int, size: nat, next: int) | Skip(next: int) | Fatal

  /** What __ringbufst_read_internal finds, seeing offsets Ro and Wo. */
  function PlanRead(L: int, Ro: int, Wo: int, buf: seq<Byte>): ReadPlan
    requires L >= HDR && |buf| == L && 0 <= Ro % L && Ro % L + HDR <= L
  {
    var wrap, R, W := RestoreWrap(Ro, Wo, L), Ro % L, Wo % L;
    if wrap * L + W - R > HDR then
      if wrap == 1 then
        if L - R > HDR then
          var size := HeaderAt(buf, R);
          if size != 0 then
            if L - R >= EntrySize(size) then Deliver(R, size, Normalize(Ro + EntrySize(size), L)) else Fatal
          else Skip((Wo / L) * L)
        else if W - 0 > HDR then
          var size := HeaderAt(buf, 0);
          if size != 0 && W - 0 >= EntrySize(size) then Deliver(0, size, EntrySize(size) + (Wo / L) * L) else Fatal
        else Nothing
      else
        var size := HeaderAt(buf, R);
        if size != 0 && W - R >= EntrySize(size) then Deliver(R, size, Normalize(Ro + EntrySize(size), L)) else Fatal
    else Nothing
  }

  // ---------------------------------------------------------------- positions on the tape

  datatype Pos = Pos(lap: nat, off: nat)

  function Code(L: nat, p: Pos): nat {
    (p.lap % 2) * L + p.off
  }

  /** The position n bytes on; a step never crosses a lap boundary, but may end on it. */
  function Adv(L: nat, p: Pos, n: nat): Pos {
    if p.off + n == L then Pos(p.lap + 1, 0) else Pos(p.lap, p.off + n)
  }

  lemma CodeDivMod(L: nat, p: Pos)
    requires p.off < L
    ensures Code(L, p) / L == p.lap % 2 && Code(L, p) % L == p.off
    ensures 0 <= Code(L, p) < 2 * L
  {
    DivUnique(Code(L, p), L, p.lap % 2, p.off);
  }

  lemma NormalizeAdv(L: nat, p: Pos, n: nat)
    requires p.off < L && p.off + n <= L
    ensures Normalize(Code(L, p) + n, L) == Code(L, Adv(L, p, n))
  {
    var a := Code(L, p) + n;
    if p.off + n == L {
      DivUnique(a, L, p.lap % 2 + 1, 0);
      assert (p.lap % 2 + 1) % 2 == (p.lap + 1) % 2;
    } else {
      DivUnique(a, L, p.lap % 2, p.off + n);
    }
  }

  // ---------------------------------------------------------------- slots

  /** One stretch of the tape: an entry, or the hole left at the end of a lap. */
  datatype Slot = Msg(data: seq<Byte>) | Gap(len: nat)

  function SizeOf(s: Slot): nat {
    match s case Msg(d) => EntrySize(|d|) case Gap(n) => n
  }

  /** Slot s is what memory holds at offset off of a lap. */
  predicate StoredAt(L: nat, buf: seq<Byte>, off: nat, s: Slot)
    requires |buf| == L
  {
    && off + SizeOf(s) <= L
    && match s
       case Msg(d) =>
         && 1 <= |d| && 8 * EntrySize(|d|) <= L
         && buf[off..off + HDR] == Encode(|d|, HDR)
         && buf[off + HDR..off + HDR + |d|] == d
       case Gap(n) =>
         && off + n == L && HDR <= n && n % HDR == 0 && 8 * n < L
         && HeaderAt(buf, off) == 0
  }

  predicate Stored(L: nat, buf: seq<Byte>, slots: seq<Slot>, p: Pos)
    requires |buf| == L
  {
    slots == [] ||
    (p.off < L && StoredAt(L, buf, p.off, slots[0]) && Stored(L, buf, slots[1..], Adv(L, p, SizeOf(slots[0]))))
  }

  function End(L: nat, slots: seq<Slot>, p: Pos): Pos {
    if slots == [] then p else End(L, slots[1..], Adv(L, p, SizeOf(slots[0])))
  }

  function Total(slots: seq<Slot>): nat {
    if slots == [] then 0 else SizeOf(slots[0]) + Total(slots[1..])
  }

  function Msgs(slots: seq<Slot>): seq<seq<Byte>> {
    if slots == [] then []
    else (if slots[0].Msg? then [slots[0].data] else []) + Msgs(slots[1..])
  }

  /** Bytes taken by entries, holes not counted. */
  function LiveBytes(slots: seq<Slot>): nat {
    if slots == [] then 0 else (if slots[0].Msg? then SizeOf(slots[0]) else 0) + LiveBytes(slots[1..])
  }

  /** The ring bytes a queue of entries takes. */
  function EntryBytes(q: seq<seq<Byte>>): nat {
    if q == [] then 0 else EntrySize(|q[0]|) + EntryBytes(q[1..])
  }

  lemma {:induction false} LiveIsEntries(slots: seq<Slot>)
    ensures LiveBytes(slots) == EntryBytes(Msgs(slots))
  {
    if slots != [] {
      LiveIsEntries(slots[1..]);
      if slots[0].Msg? {
        assert Msgs(slots)[1..] == Msgs(slots[1..]);
      } else {
        assert Msgs(slots) == Msgs(slots[1..]);
      }
    }
  }

  /** Some slot occupies buffer index x. */
  predicate Covers(L: nat, slots: seq<Slot>, p: Pos, x: int) {
    slots != [] &&
    (p.off <= x < p.off + SizeOf(slots[0]) || Covers(L, slots[1..], Adv(L, p, SizeOf(slots[0])), x))
  }

  /** Every hole has an entry right behind it. */
  predicate GapsFollowed(slots: seq<Slot>) {
    forall i :: 0 <= i < |slots| && slots[i].Gap? ==> i + 1 < |slots| && slots[i + 1].Msg?
  }

  /** Buffer index x lies between the read position p and the write position q. */
  predicate Between(p: Pos, q: Pos, x: int) {
    if p.lap == q.lap then p.off <= x < q.off else p.off <= x || x < q.off
  }

  /** The ring invariant: memory from position r to position w is exactly the given slots. */
  predicate RingOk(L: int, buf: seq<Byte>, r: Pos, w: Pos, slots: seq<Slot>) {
    && RingLength(L) && |buf| == L
    && r.off < L && r.off % HDR == 0
    && Stored(L, buf, slots, r) && End(L, slots, r) == w && Total(slots) <= L
    && GapsFollowed(slots)
  }

  // ---------------------------------------------------------------- structure lemmas

  lemma EntrySizeFacts(n: nat)
    ensures EntrySize(n) % HDR == 0 && HDR + n <= EntrySize(n) <= 2 * HDR - 1 + n
    ensures n >= 1 ==> EntrySize(n) >= 2 * HDR
  {
  }

  lemma SlotSize(L: nat, buf: seq<Byte>, off: nat, s: Slot)
    requires |buf| == L && StoredAt(L, buf, off, s)
    ensures HDR <= SizeOf(s) <= L && SizeOf(s) % HDR == 0
  {
    if s.Msg? { EntrySizeFacts(|s.data|); }
  }

  /** At most L bytes of slots cross at most one lap boundary. */
  lemma {:induction false} EndFacts(L: nat, buf: seq<Byte>, slots: seq<Slot>, p: Pos)
    requires |buf| == L && p.off < L && Stored(L, buf, slots, p) && Total(slots) <= L
    ensures var q := End(L, slots, p);
            && q.off < L
            && ((q.lap == p.lap && q.off == p.off + Total(slots))
                || (q.lap == p.lap + 1 && L + q.off == p.off + Total(slots) && q.off <= p.off))
  {
    if slots != [] {
      SlotSize(L, buf, p.off, slots[0]);
      EndFacts(L, buf, slots[1..], Adv(L, p, SizeOf(slots[0])));
    }
  }

  lemma AdvAligned(L: nat, p: Pos, n: nat)
    requires p.off % HDR == 0 && n % HDR == 0 && 0 < L && p.off + n <= L
    ensures Adv(L, p, n).off < L && Adv(L, p, n).off % HDR == 0
  {
  }

  lemma {:induction false} EndAligned(L: nat, buf: seq<Byte>, slots: seq<Slot>, p: Pos)
    requires |buf| == L && L % HDR == 0 && p.off % HDR == 0 && Stored(L, buf, slots, p)
    ensures End(L, slots, p).off % HDR == 0
  {
    if slots != [] {
      SlotSize(L, buf, p.off, slots[0]);
      AdvAligned(L, p, SizeOf(slots[0]));
      EndAligned(L, buf, slots[1..], Adv(L, p, SizeOf(slots[0])));
    }
  }

  lemma RingFacts(L: int, buf: seq<Byte>, r: Pos, w: Pos, slots: seq<Slot>)
    requires RingOk(L, buf, r, w, slots)
    ensures L % HDR == 0 && w.off < L && w.off % HDR == 0
    ensures w.lap == r.lap ==> w.off == r.off + Total(slots)
    ensures w.lap != r.lap ==> w.lap == r.lap + 1 && w.off <= r.off && Total(slots) == L + w.off - r.off
  {
    EndFacts(L, buf, slots, r);
    EndAligned(L, buf, slots, r);
  }

  lemma {:induction false} CoversBetween(L: nat, buf: seq<Byte>, slots: seq<Slot>, p: Pos, x: int)
    requires |buf| == L && p.off < L && Stored(L, buf, slots, p)
    requires Total(slots) <= L && Covers(L, slots, p, x)
    ensures 0 <= x < L && Between(p, End(L, slots, p), x)
  {
    var n := SizeOf(slots[0]);
    var p' := Adv(L, p, n);
    SlotSize(L, buf, p.off, slots[0]);
    EndFacts(L, buf, slots, p);
    EndFacts(L, buf, slots[1..], p');
    if !(p.off <= x < p.off + n) {
      CoversBetween(L, buf, slots[1..], p', x);
    }
  }

  /** Bytes outside the slots do not matter. */
  lemma {:induction false} StoredFrame(L: nat, buf: seq<Byte>, buf': seq<Byte>, slots: seq<Slot>, p: Pos)
    requires |buf| == |buf'| == L && Stored(L, buf, slots, p)
    requires forall x :: 0 <= x < L && Covers(L, slots, p, x) ==> buf[x] == buf'[x]
    ensures Stored(L, buf', slots, p)
  {
    if slots != [] {
      var s, n := slots[0], SizeOf(slots[0]);
      forall x | p.off <= x < p.off + n
        ensures buf[x] == buf'[x]
      {
        assert Covers(L, slots, p, x);
      }
      if s.Msg? { EntrySizeFacts(|s.data|); }
      assert buf[p.off..p.off + HDR] == buf'[p.off..p.off + HDR];
      forall x | 0 <= x < L && Covers(L, slots[1..], Adv(L, p, n), x)
        ensures buf[x] == buf'[x]
      {
        assert Covers(L, slots, p, x);
      }
      StoredFrame(L, buf, buf', slots[1..], Adv(L, p, n));
    }
  }

  lemma {:induction false} AppendSlot(L: nat, buf: seq<Byte>, slots: seq<Slot>, p: Pos, s: Slot)
    requires |buf| == L && Stored(L, buf, slots, p)
    requires End(L, slots, p).off < L && StoredAt(L, buf, End(L, slots, p).off, s)
    ensures Stored(L, buf, slots + [s], p)
    ensures End(L, slots + [s], p) == Adv(L, End(L, slots, p), SizeOf(s))
    ensures Total(slots + [s]) == Total(slots) + SizeOf(s)
    ensures Msgs(slots + [s]) == if s.Msg? then Msgs(slots) + [s.data] else Msgs(slots)
  {
    if slots == [] {
      assert [s][1..] == [];
      assert slots + [s] == [s];
    } else {
      assert (slots + [s])[1..] == slots[1..] + [s];
      AppendSlot(L, buf, slots[1..], Adv(L, p, SizeOf(slots[0])), s);
    }
  }

  lemma {:induction false} PrefixFacts(L: nat, buf: seq<Byte>, slots: seq<Slot>, p: Pos, k: nat)
    requires |buf| == L && Stored(L, buf, slots, p) && k <= |slots|
    ensures Stored(L, buf, slots[..k], p)
    ensures Total(slots[..k]) <= Total(slots)
  {
    if k > 0 {
      PrefixFacts(L, buf, slots[1..], Adv(L, p, SizeOf(slots[0])), k - 1);
      assert slots[..k][1..] == slots[1..][..k - 1];
    }
  }

  /** A hole ends a lap, so a region of at most L bytes holds at most one, of less than L/8 bytes. */
  lemma {:induction false} HolesBounded(L: nat, buf: seq<Byte>, slots: seq<Slot>, p: Pos)
    requires |buf| == L && p.off < L && Stored(L, buf, slots, p) && Total(slots) <= L
    ensures LiveBytes(slots) <= Total(slots)
    ensures End(L, slots, p).lap == p.lap ==> LiveBytes(slots) == Total(slots)
    ensures 8 * (Total(slots) - LiveBytes(slots)) < L
  {
    if slots != [] {
      var p' := Adv(L, p, SizeOf(slots[0]));
      SlotSize(L, buf, p.off, slots[0]);
      EndFacts(L, buf, slots, p);
      EndFacts(L, buf, slots[1..], p');
      HolesBounded(L, buf, slots[1..], p');
    }
  }
}
