/** The layout of the fixed-slot ring (ringbuf.h): positions, and what each slot holds. */
module SlotLayout {
  import opened Wrappers
  import opened RingLayout

  /** Slots from position r up to position w, at most one lap ahead. */
  function Dist(L: int, r: Pos, w: Pos): int {
    if w.lap == r.lap then w.off - r.off else L + w.off - r.off
  }

  predicate Ahead(L: int, r: Pos, w: Pos) {
    && 0 <= r.off < L && 0 <= w.off < L && (w.lap == r.lap || w.lap == r.lap + 1)
    && 0 <= Dist(L, r, w) <= L
  }

  /** How far slot x is ahead of offset off. */
  function Rel(L: int, off: int, x: int): int {
    if x >= off then x - off else x - off + L
  }

  /** What slot x holds: the queue from r.off on, NULL elsewhere. */
  function Expected<E>(L: int, off: int, queue: seq<E>, x: int): Option<E> {
    var k := Rel(L, off, x);
    if 0 <= k < |queue| then Some(queue[k]) else None
  }

  /** What the code computes from two offsets, wrap * L + W - R, is the distance of their positions. */
  lemma OffsetsTellDistance(L: nat, r: Pos, w: Pos)
    requires L > 0 && Ahead(L, r, w)
    ensures var Ro, Wo := Code(L, r), Code(L, w);
            RestoreWrap(Ro, Wo, L) * L + Wo % L - Ro % L == Dist(L, r, w) && Wo % L == w.off && Ro % L == r.off
  {
    CodeDivMod(L, r);
    CodeDivMod(L, w);
  }

  /** Storing behind the queue, on its first free slot. */
  lemma PushSlots<E>(L: nat, r: Pos, w: Pos, queue: seq<E>, e: E)
    requires Ahead(L, r, w) && Dist(L, r, w) == |queue| < L
    ensures Ahead(L, r, Adv(L, w, 1)) && Dist(L, r, Adv(L, w, 1)) == |queue| + 1
    ensures Rel(L, r.off, w.off) == |queue|
    ensures forall x :: 0 <= x < L ==>
              Expected(L, r.off, queue + [e], x) == if x == w.off then Some(e) else Expected(L, r.off, queue, x)
  {
  }

  /** Clearing the head's slot. */
  lemma PopSlots<E>(L: nat, r: Pos, w: Pos, queue: seq<E>)
    requires Ahead(L, r, w) && Dist(L, r, w) == |queue| > 0
    ensures Ahead(L, Adv(L, r, 1), w) && Dist(L, Adv(L, r, 1), w) == |queue| - 1
    ensures Expected(L, r.off, queue, r.off) == Some(queue[0])
    ensures forall x :: 0 <= x < L ==>
              Expected(L, Adv(L, r, 1).off, queue[1..], x) == if x == r.off then None else Expected(L, r.off, queue, x)
  {
  }
}

/** The fixed-slot ring object, one call at a time. */
module SlotRing {
  import opened Wrappers
  import opened RingLayout
  import opened SlotLayout

  const LENGTH_MIN: nat := 2
  const LENGTH_MAX: nat := 0x01FFFF

  class Ring<E> {
    var RLock: bool
    var WLock: bool
    var W: int
    var R: int
    const L: nat
    const B: array<Option<E>>
    ghost var r: Pos
    ghost var w: Pos
    ghost var queue: seq<E>

    /** The offsets are positions |queue| apart, and the slots hold the queue and nothing else. */
    ghost predicate Valid()
      reads this, B
    {
      && L >= LENGTH_MIN && B.Length == L
      && Ahead(L, r, w) && Dist(L, r, w) == |queue|
      && R == Code(L, r) && W == Code(L, w)
      && forall x :: 0 <= x < L ==> B[x] == Expected(L, r.off, queue, x)
    }

    /** ringbuf_init */
    constructor (length: int)
      ensures Valid() && fresh(B) && !RLock && !WLock && queue == []
      ensures L == if length < 2 then 2 else if length > 0x01FFFF then 0x01FFFF else length
    {
      var len := if length < LENGTH_MIN then LENGTH_MIN else if length > LENGTH_MAX then LENGTH_MAX else length;
      RLock, WLock, W, R, L := false, false, 0, 0, len;
      B := new Option<E>[len](_ => None);
      r, w, queue := Pos(0, 0), Pos(0, 0), [];
    }

    /** ringbuf_push: refused exactly when the lock is held or the ring is full. */
    method Push(elt: E) returns (ok: bool)
      requires Valid()
      modifies this, B
      ensures Valid() && RLock == old(RLock) && WLock == old(WLock)
      ensures ok <==> !old(WLock) && |old(queue)| < L
      ensures queue == if ok then old(queue) + [elt] else old(queue)
    {
      ok := false;
      if !WLock {
        WLock := true;
        var Ro, Wo := R, W;
        OffsetsTellDistance(L, r, w);
        var wrap, R', W' := RestoreWrap(Ro, Wo, L), Ro % L, Wo % L;
        if L + R' - wrap * L - W' > 0 {
          Put(elt, W', Wo);
          ok := true;
        }
        WLock := false;
      }
    }

    /** The writable branch of ringbuf_push. */
    method Put(elt: E, W': int, Wo: int)
      requires Valid() && WLock && |queue| < L && W' == w.off && Wo == W
      modifies `W, `w, `queue, B
      ensures Valid() && queue == old(queue) + [elt]
    {
      PushSlots(L, r, w, queue, elt);
      NormalizeAdv(L, w, 1);
      B[W'] := Some(elt);
      W := Normalize(Wo + 1, L);
      queue, w := queue + [elt], Adv(L, w, 1);
    }

    /** ringbuf_pop: refused exactly when the lock is held or the ring is empty. */
    method Pop() returns (elt: Option<E>)
      requires Valid()
      modifies this, B
      ensures Valid() && RLock == old(RLock) && WLock == old(WLock)
      ensures elt.Some? <==> !old(RLock) && old(queue) != []
      ensures elt.Some? ==> old(queue) == [elt.value] + queue
      ensures elt == None ==> queue == old(queue)
    {
      elt := None;
      if !RLock {
        RLock := true;
        var Wo, Ro := W, R;
        OffsetsTellDistance(L, r, w);
        var wrap, R', W' := RestoreWrap(Ro, Wo, L), Ro % L, Wo % L;
        if wrap * L + W' - R' > 0 {
          elt := Get(R', Ro);
        }
        RLock := false;
      }
    }

    /** The readable branch of ringbuf_pop. */
    method Get(R': int, Ro: int) returns (elt: Option<E>)
      requires Valid() && RLock && queue != [] && R' == r.off && Ro == R
      modifies `R, `r, `queue, B
      ensures Valid() && elt.Some? && old(queue) == [elt.value] + queue
    {
      PopSlots(L, r, w, queue);
      NormalizeAdv(L, r, 1);
      elt := B[R'];
      B[R'] := None;
      R := Normalize(Ro + 1, L);
      queue, r := queue[1..], Adv(L, r, 1);
    }
  }

  /** The message pool of a logger: every buffer made is in the ring, none is freed. */
  method NewMempool<E>(buffers: seq<E>) returns (ring: Ring<E>)
    requires 1 <= |buffers| <= 0x01FFFF
    ensures fresh(ring) && fresh(ring.B) && ring.Valid() && ring.queue == buffers && !ring.RLock && !ring.WLock
  {
    ring := new Ring(|buffers|);
    var i := 0;
    while i < |buffers|
      invariant 0 <= i <= |buffers| && ring.Valid() && fresh(ring) && fresh(ring.B) && !ring.RLock && !ring.WLock
      invariant ring.queue == buffers[..i]
    {
      var ok := ring.Push(buffers[i]);
      assert ok && buffers[..i] + [buffers[i]] == buffers[..i + 1];
      i := i + 1;
    }
    assert buffers[..i] == buffers;
  }
}
