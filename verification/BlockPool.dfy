/**
 * Live blocks over a row of flag bits: a block is a run of bits cleared in the row, a
 * free bit is 1.
 */
module Blocks {
  import opened Ffs

  predicate Covered(live: map<nat, nat>, x: nat) {
    exists g :: g in live && g <= x < g + live[g]
  }

  predicate Disjoint(g: nat, n: nat, h: nat, m: nat) {
    g + n <= h || h + m <= g
  }

  /** Blocks are non-empty, inside the row, pairwise disjoint, and cover exactly the clear bits. */
  ghost predicate Tiled(bits: seq<bool>, live: map<nat, nat>) {
    && (forall g :: g in live ==> live[g] >= 1 && g + live[g] <= |bits|)
    && (forall g, h :: g in live && h in live && g != h ==> Disjoint(g, live[g], h, live[h]))
    && (forall x :: 0 <= x < |bits| ==> (bits[x] <==> !Covered(live, x)))
  }

  lemma BlockIsClear(bits: seq<bool>, live: map<nat, nat>, g: nat)
    requires Tiled(bits, live) && g in live
    ensures forall x :: g <= x < g + live[g] ==> x < |bits| && !bits[x]
  {
    forall x | g <= x < g + live[g]
      ensures x < |bits| && !bits[x]
    {
      assert Covered(live, x);
    }
  }

  /** A free run meets no live block. */
  lemma RunIsApart(bits: seq<bool>, live: map<nat, nat>, g: nat, n: nat, h: nat)
    requires Tiled(bits, live) && RunAt(bits, g, n) && n >= 1 && h in live
    ensures Disjoint(g, n, h, live[h])
  {
    BlockIsClear(bits, live, h);
    var x := if g <= h then h else g;
    assert x < g + n ==> bits[x];
  }

  lemma AllocTiles(bits: seq<bool>, live: map<nat, nat>, g: nat, n: nat)
    requires Tiled(bits, live) && RunAt(bits, g, n) && n >= 1
    ensures g !in live && Tiled(Paint(bits, g, n, false), live[g := n])
  {
    var t, l := Paint(bits, g, n, false), live[g := n];
    forall h | h in live
      ensures Disjoint(g, n, h, live[h])
    {
      RunIsApart(bits, live, g, n, h);
    }
    forall x: nat | x < |bits|
      ensures t[x] <==> !Covered(l, x)
    {
      if g <= x < g + n {
        assert g in l && l[g] == n;
      } else if Covered(live, x) {
        var h :| h in live && h <= x < h + live[h];
        assert h in l && l[h] == live[h];
      }
    }
  }

  lemma FreeTiles(bits: seq<bool>, live: map<nat, nat>, g: nat)
    requires Tiled(bits, live) && g in live
    ensures Tiled(Paint(bits, g, live[g], true), live - {g})
  {
    var n := live[g];
    var t, l := Paint(bits, g, n, true), live - {g};
    forall x: nat | x < |bits|
      ensures t[x] <==> !Covered(l, x)
    {
      if g <= x < g + n {
        assert forall h :: h in l ==> Disjoint(g, n, h, live[h]);
      } else if Covered(live, x) {
        var h :| h in live && h <= x < h + live[h];
        assert h in l && l[h] == live[h];
      }
    }
  }

  /** A pool is sound when its blocks tile the row and its counter counts the free bits. */
  ghost predicate Sound(bits: seq<bool>, live: map<nat, nat>, unused: int) {
    Tiled(bits, live) && unused == CountSet(bits)
  }

  lemma AllocSound(bits: seq<bool>, live: map<nat, nat>, unused: int, g: nat, n: nat)
    requires Sound(bits, live, unused) && RunAt(bits, g, n) && n >= 1
    ensures g !in live && Sound(Paint(bits, g, n, false), live[g := n], unused - n)
  {
    AllocTiles(bits, live, g, n);
    CountPaint(bits, g, n, false);
  }

  lemma FreeSound(bits: seq<bool>, live: map<nat, nat>, unused: int, g: nat)
    requires Sound(bits, live, unused) && g in live
    ensures Sound(Paint(bits, g, live[g], true), live - {g}, unused + live[g])
  {
    BlockIsClear(bits, live, g);
    FreeTiles(bits, live, g);
    CountPaint(bits, g, live[g], true);
  }

  /** Granting a run and giving it back restores the row, the counter and the live blocks. */
  lemma AllocFreeRestores(bits: seq<bool>, live: map<nat, nat>, unused: int, g: nat, n: nat)
    requires Sound(bits, live, unused) && RunAt(bits, g, n) && n >= 1
    ensures var t, l := Paint(bits, g, n, false), live[g := n];
            Paint(t, g, l[g], true) == bits && unused - n + l[g] == unused && l - {g} == live
  {
    AllocTiles(bits, live, g, n);
    PaintBack(bits, g, n);
    assert live[g := n] - {g} == live;
  }

  /** Nowhere do n free blocks lie in a row. */
  ghost predicate NoRun(bits: seq<bool>, n: int) {
    forall x :: !RunAt(bits, x, n)
  }

  /** A run cannot be longer than the number of free bits. */
  lemma RunNeedsFree(bits: seq<bool>, g: nat, n: nat)
    requires RunAt(bits, g, n)
    ensures n <= CountSet(bits)
  {
    CountSplit(bits, g, n);
    CountUniform(bits[g..g + n], true);
  }
}

/** The block allocator object (membuff.c), called while its spinlock is free. */
module BlockPool {
  import opened Wrappers
  import opened Division
  import opened Ffs
  import opened Blocks
  import opened BlockSize

  /** The header in front of every allocated block; counts are 16-bit fields. */
  datatype Header = Header(owner: int, flagOffset: nat, bitOffset: nat, bitCount: nat)

  const BSIZE_MAX: nat := 4096
  const FLAGS_MAX: nat := 4096
  const ALIGN_SIZE: nat := 128
  const UINT16: nat := 0x1_0000

  /** Header h names the pool and the n blocks from block g on. */
  predicate HeadFor(id: int, W: nat, h: Header, g: nat, n: nat) {
    h.owner == id && h.bitOffset < W && h.flagOffset * W + h.bitOffset == g && h.bitCount == n
  }

  /** Every live block has its header. */
  ghost predicate HeadsOk(id: int, W: nat, heads: map<nat, Header>, live: map<nat, nat>) {
    forall g :: g in live ==> g in heads && HeadFor(id, W, heads[g], g, live[g])
  }

  /** The header as stored: bit offset and count in 16-bit fields. */
  function NewHeader(id: int, flagOffset: nat, startBit: nat, bitCount: nat): Header {
    Header(id, flagOffset, startBit % UINT16, bitCount % UINT16)
  }

  lemma NewHeaderFor(id: int, W: nat, flagOffset: nat, startBit: nat, bitCount: nat)
    requires startBit < W <= 64 && bitCount <= FLAGS_MAX
    ensures HeadFor(id, W, NewHeader(id, flagOffset, startBit, bitCount), flagOffset * W + startBit, bitCount)
  {
  }

  lemma HeadsAlloc(id: int, W: nat, heads: map<nat, Header>, live: map<nat, nat>, g: nat, n: nat, h: Header)
    requires HeadsOk(id, W, heads, live) && HeadFor(id, W, h, g, n)
    ensures HeadsOk(id, W, heads[g := h], live[g := n])
  {
  }

  ghost predicate PoolOk(id: int, W: nat, flags: seq<Word>, heads: map<nat, Header>, live: map<nat, nat>, unused: int) {
    && AllWords(W, flags) && |Flat(flags)| <= FLAGS_MAX
    && Sound(Flat(flags), live, unused) && HeadsOk(id, W, heads, live)
  }

  lemma PoolAfterTake(id: int, W: nat, flags: seq<Word>, heads: map<nat, Header>, live: map<nat, nat>, unused: int,
                      flags': seq<Word>, g: nat, n: nat, h: Header)
    requires PoolOk(id, W, flags, heads, live, unused) && RunAt(Flat(flags), g, n) && n >= 1 && HeadFor(id, W, h, g, n)
    requires AllWords(W, flags') && Flat(flags') == Paint(Flat(flags), g, n, false)
    ensures PoolOk(id, W, flags', heads[g := h], live[g := n], unused - n)
  {
    AllocSound(Flat(flags), live, unused, g, n);
    HeadsAlloc(id, W, heads, live, g, n, h);
  }

  lemma PoolAfterRelease(id: int, W: nat, flags: seq<Word>, heads: map<nat, Header>, live: map<nat, nat>, unused: int,
                         flags': seq<Word>, g: nat)
    requires PoolOk(id, W, flags, heads, live, unused) && g in live
    requires AllWords(W, flags') && Flat(flags') == Paint(Flat(flags), g, live[g], true)
    ensures PoolOk(id, W, flags', heads, live - {g}, unused + live[g])
  {
    FreeSound(Flat(flags), live, unused, g);
  }

  class Pool {
    const id: int
    const W: nat
    const BuffSize: nat
    const FlagsCount: nat
    var spinlock: bool
    var unusedBits: int
    const Flags: array<Word>
    /** Block headers, by the number of the block they stand in front of. */
    var heads: map<nat, Header>
    /** Live blocks: first bit and number of bits. */
    ghost var live: map<nat, nat>

    ghost predicate Valid()
      reads this, Flags
    {
      && (W == 32 || W == 64) && BlockBytes(BuffSize) && Flags.Length == FlagsCount
      && PoolOk(id, W, Flags[..], heads, live, unusedBits)
    }

    /** All flag bits in a row: bit g is block g. */
    ghost function Bits(): seq<bool>
      reads this, Flags
    {
      Flat(Flags[..])
    }

    /** membuff_pool_create; its asserted limits are the preconditions. */
    constructor (id: int, W: nat, buffSizeBytes: nat, buffsCount: nat)
      requires (W == 32 || W == 64) && buffSizeBytes <= 4096 && buffsCount <= 4096
      ensures Valid() && fresh(Flags) && this.id == id && this.W == W && !spinlock && live == map[]
      ensures BlockBytes(BuffSize) && (buffSizeBytes <= BuffSize < buffSizeBytes + 128 || BuffSize == 128)
      ensures buffsCount <= unusedBits == FlagsCount * W
    {
      var buffSize := AlignUpSize(Modulus(W), buffSizeBytes, ALIGN_SIZE);
      var numBits := AlignUpSize(Modulus(W), buffsCount, W);
      BlockBytesOf(Modulus(W), buffSizeBytes);
      WholeWords(W, buffsCount);
      var numFlags := numBits / W;
      this.id, this.W, BuffSize, FlagsCount := id, W, buffSize, numFlags;
      Flags := new Word[numFlags](_ => seq(W, _ => true));
      spinlock, heads, live := false, map[], map[];
      unusedBits := W * numFlags;
      new;
      AllFree(W, Flags[..]);
    }

    /** What a granted request of n blocks does: the first fitting run g becomes a live block. */
    twostate predicate Granted(g: nat, n: int)
      reads this, Flags
    {
      && n >= 1 && RunAt(old(Bits()), g, n) && NoRunIn(old(Bits()), 0, g, n)
      && live == old(live)[g := n] && Bits() == Paint(old(Bits()), g, n, false)
      && unusedBits == old(unusedBits) - n
    }

    /** What a refused request of n blocks means: nothing changes, and no run of n free blocks exists. */
    twostate predicate Refused(n: int)
      reads this, Flags
    {
      && live == old(live) && Bits() == old(Bits()) && unusedBits == old(unusedBits) && heads == old(heads)
      && (n < 1 || NoRun(old(Bits()), n))
    }

    /**
     * membuff_alloc: the byte offset of the caller's part of the first fitting run of free
     * blocks.  When the block size is a power of two, and the rounding and the count of blocks
     * fit their types, it is refused exactly when no run of free blocks would hold a header of
     * 16 bytes and the bytes.
     */
    method Alloc(sizeBytes: nat) returns (p: Option<nat>, g: nat)
      requires Valid() && !spinlock && sizeBytes < Modulus(W)
      modifies this, Flags
      ensures Valid() && !spinlock
      ensures p == None ==> Refused(BlockCount(Modulus(W), BuffSize, sizeBytes))
      ensures p.Some? ==> p.value == g * BuffSize + 16 && Granted(g, BlockCount(Modulus(W), BuffSize, sizeBytes))
      ensures var n := Need(BuffSize, sizeBytes);
              IsPow2(BuffSize) && n < 0x8000_0000
              && sizeBytes + 16 + BuffSize - 1 < (if W == 32 then 0x1_0000_0000 else 0x1_0000_0000_0000_0000) ==>
                && (p == None <==> NoRun(old(Bits()), n))
                && (p.Some? ==> Granted(g, n) && BuffSize * n >= sizeBytes + 16)
    {
      var bitCount := BlockCount(Modulus(W), BuffSize, sizeBytes);
      CountIsNeed(W, BuffSize, sizeBytes);
      var ok;
      ok, g := AllocBlocks(bitCount);
      p := if ok then Some(g * BuffSize + HEADER) else None;
    }

    /** The search of membuff_alloc over the whole pool: first fit, 0 when there is no run. */
    method FindRun(bitCount: int) returns (flagOffset: nat, startBit: nat)
      requires Valid() && spinlock
      ensures startBit <= W && (bitCount < 1 ==> startBit == 0)
      ensures startBit == 0 ==> bitCount < 1 || NoRun(Bits(), bitCount)
      ensures startBit > 0 ==> var g := flagOffset * W + startBit - 1;
                RunAt(Bits(), g, bitCount) && NoRunIn(Bits(), 0, g, bitCount)
    {
      flagOffset, startBit := FindSetbits(W, Flags, 0, bitCount);
      if startBit == 0 && bitCount >= 1 {
        NoRunAnywhere(Bits(), bitCount);
      }
    }

    /** membuff_alloc once the number of blocks is known. */
    method AllocBlocks(bitCount: int) returns (ok: bool, g: nat)
      requires Valid() && !spinlock
      modifies this, Flags
      ensures Valid() && !spinlock
      ensures if ok then Granted(g, bitCount) else Refused(bitCount)
    {
      FlatLength(W, Flags[..]);
      if bitCount == 0 || bitCount > W * FlagsCount {
        return false, 0;
      }
      if bitCount > unusedBits {
        NoRoom(Bits(), bitCount);
        return false, 0;
      }
      spinlock := true;
      var flagOffset, startBit := FindRun(bitCount);
      if startBit == 0 {
        spinlock := false;
        return false, 0;
      }
      g := Take(flagOffset, startBit - 1, bitCount);
      spinlock := false;
      return true, g;
    }

    /** The part of membuff_alloc that marks a found run as used, with the lock held. */
    method Take(flagOffset: nat, startBit: nat, bitCount: nat) returns (bitOffset: nat)
      requires Valid() && spinlock && startBit < W && bitCount >= 1 && RunAt(Bits(), flagOffset * W + startBit, bitCount)
      modifies this, Flags
      ensures Valid() && spinlock == old(spinlock) && bitOffset == flagOffset * W + startBit
      ensures live == old(live)[bitOffset := bitCount] && Bits() == Paint(old(Bits()), bitOffset, bitCount, false)
      ensures unusedBits == old(unusedBits) - bitCount
    {
      bitOffset := flagOffset * W + startBit;
      FlatLength(W, Flags[..]);
      var head := NewHeader(id, flagOffset, startBit, bitCount);
      NewHeaderFor(id, W, flagOffset, startBit, bitCount);
      heads := heads[bitOffset := head];
      ghost var flags := Flags[..];
      MaskBits(W, Flags, flagOffset, startBit, bitCount, false);
      PoolAfterTake(id, W, flags, old(heads), live, unusedBits, Flags[..], bitOffset, bitCount, head);
      unusedBits := unusedBits - bitCount;
      live := live[bitOffset := bitCount];
    }

    /**
     * membuff_free: Some(p) back means refused, None means released (or nothing to release).
     * h is the header found in front of p; g is the block p belongs to.  An address carrying
     * this pool's name must be that of a live block.
     */
    method Free(p: Option<nat>, h: Header, ghost g: nat) returns (r: Option<nat>)
      requires Valid() && !spinlock
      requires p.Some? && h.owner == id ==> g in live && p.value == g * BuffSize + HEADER && heads[g] == h
      modifies this, Flags
      ensures Valid() && !spinlock && heads == old(heads)
      ensures p == None || h.owner != id ==>
                r == p && live == old(live) && Bits() == old(Bits()) && unusedBits == old(unusedBits)
      ensures p.Some? && h.owner == id ==>
                && r == None && live == old(live) - {g} && Bits() == Paint(old(Bits()), g, old(live)[g], true)
                && unusedBits == old(unusedBits) + old(live)[g]
    {
      if p == None {
        return None;
      }
      if h.owner == id {
        LiveIsInside(g);
        var inside := Inside(p.value - HEADER, h.bitCount);
        if inside {
          Release(h, g);
          return None;
        }
      }
      return p;
    }

    /** The part of membuff_free under the lock. */
    method Release(h: Header, ghost g: nat)
      requires Valid() && !spinlock && g in live && heads[g] == h
      modifies this, Flags
      ensures Valid() && !spinlock && heads == old(heads)
      ensures live == old(live) - {g} && Bits() == Paint(old(Bits()), g, old(live)[g], true)
      ensures unusedBits == old(unusedBits) + old(live)[g]
    {
      spinlock := true;
      Unmark(h, g);
      spinlock := false;
    }

    /** Marking the blocks as free and counting them back, with the lock held. */
    method Unmark(h: Header, ghost g: nat)
      requires Valid() && spinlock && g in live && heads[g] == h
      modifies `live, `unusedBits, Flags
      ensures Valid() && live == old(live) - {g} && Bits() == Paint(old(Bits()), g, old(live)[g], true)
      ensures unusedBits == old(unusedBits) + old(live)[g]
    {
      HeadInside(h, g);
      ghost var flags := Flags[..];
      MaskBits(W, Flags, h.flagOffset, h.bitOffset, h.bitCount, true);
      PoolAfterRelease(id, W, flags, heads, live, unusedBits, Flags[..], g);
      unusedBits := unusedBits + h.bitCount;
      live := live - {g};
    }

    lemma HeadInside(h: Header, g: nat)
      requires Valid() && g in live && heads[g] == h
      ensures h.bitOffset < W && h.flagOffset * W + h.bitOffset == g && h.bitCount == live[g]
      ensures h.flagOffset * W + h.bitOffset + h.bitCount <= Flags.Length * W
    {
      FlatLength(W, Flags[..]);
    }

    /** The bounds check of membuff_free. */
    method Inside(at: int, bitCount: nat) returns (inside: bool)
      requires Valid()
      ensures inside <==> 0 <= at && at + BuffSize * bitCount <= BuffSize * |Bits()|
    {
      var bBuffSize := BuffSize * bitCount;
      FlatLength(W, Flags[..]);
      inside := 0 <= at && at + bBuffSize <= BuffSize * (FlagsCount * W);
    }

    /** It never turns a live block away. */
    lemma LiveIsInside(g: nat)
      requires Valid() && g in live
      ensures 0 <= g * BuffSize && g * BuffSize + BuffSize * live[g] <= BuffSize * |Bits()|
    {
      InRow(g);
      BlockEnd(g, live[g], |Bits()|, BuffSize);
    }

    lemma InRow(g: nat)
      requires Valid() && g in live
      ensures g + live[g] <= |Bits()|
    {
    }
  }

  lemma BlockEnd(g: nat, n: nat, total: nat, M: nat)
    requires g + n <= total
    ensures 0 <= g * M && g * M + M * n <= M * total
  {
    ProductLe(0, g, M);
    ProductLe(g + n, total, M);
    assert (g + n) * M == g * M + n * M;
  }

  lemma NoRoom(bits: seq<bool>, n: int)
    requires n > CountSet(bits)
    ensures NoRun(bits, n)
  {
    forall x
      ensures !RunAt(bits, x, n)
    {
      if RunAt(bits, x, n) {
        RunNeedsFree(bits, x, n);
      }
    }
  }

  lemma NoRunAnywhere(bits: seq<bool>, n: int)
    requires n >= 1 && NoRunIn(bits, 0, |bits|, n)
    ensures NoRun(bits, n)
  {
    assert forall x :: RunAt(bits, x, n) ==> 0 <= x < |bits|;
  }

  lemma SmallPowers()
    ensures IsPow2(32) && IsPow2(64) && IsPow2(128)
  {
    assert IsPow2(4) && IsPow2(16);
  }

  lemma BlockBytesOf(modulus: nat, size: nat)
    requires size <= BSIZE_MAX && modulus >= TWO32
    ensures var b := AlignUpSize(modulus, size, ALIGN_SIZE);
            BlockBytes(b) && ((size <= b < size + ALIGN_SIZE) || b == ALIGN_SIZE)
  {
    SmallPowers();
    if size > 0 {
      AlignExact(modulus, size, 128);
      Rounded((size + 127) / 128);
    }
  }

  lemma Rounded(q: nat)
    ensures 128 * q % 128 == 0
  {
  }

  lemma WholeWords(W: nat, count: nat)
    requires (W == 32 || W == 64) && count <= FLAGS_MAX
    ensures var n := AlignUpSize(Modulus(W), count, W);
            n == W * (n / W) && count <= n <= FLAGS_MAX
  {
    SmallPowers();
    if count > 0 && W == 32 {
      AlignExact(TWO32, count, 32);
    } else if count > 0 {
      AlignExact(TWO64, count, 64);
    }
  }

  lemma AllFree(W: nat, flags: seq<Word>)
    requires AllWords(W, flags) && forall i :: 0 <= i < |flags| ==> IsMax(flags[i])
    ensures |Flat(flags)| == |flags| * W && Sound(Flat(flags), map[], |flags| * W)
  {
    FlatLength(W, flags);
    FlatOfMax(W, flags);
    CountUniform(Flat(flags), true);
  }

  lemma {:induction false} FlatOfMax(W: nat, flags: seq<Word>)
    requires AllWords(W, flags) && forall i :: 0 <= i < |flags| ==> IsMax(flags[i])
    ensures forall x :: 0 <= x < |Flat(flags)| ==> Flat(flags)[x]
  {
    if flags != [] {
      FlatOfMax(W, flags[1..]);
    }
  }

  /** With a power-of-two block size a granted block holds the header and the bytes asked for. */
  lemma GrantCovers(W: nat, M: nat, sizeBytes: nat)
    requires (W == 32 || W == 64) && BlockBytes(M) && IsPow2(M)
    requires Need(M, sizeBytes) < TWO31 && sizeBytes + HEADER + M - 1 < Modulus(W)
    ensures BlockCount(Modulus(W), M, sizeBytes) == Need(M, sizeBytes) && M * Need(M, sizeBytes) >= sizeBytes + HEADER
  {
    CountExact(W, M, sizeBytes);
  }

  /** The same with the numbers written out. */
  lemma CountIsNeed(W: nat, M: nat, sizeBytes: nat)
    requires (W == 32 || W == 64) && BlockBytes(M)
    ensures IsPow2(M) && Need(M, sizeBytes) < 0x8000_0000
            && sizeBytes + 16 + M - 1 < (if W == 32 then 0x1_0000_0000 else 0x1_0000_0000_0000_0000) ==>
              BlockCount(Modulus(W), M, sizeBytes) == Need(M, sizeBytes) && M * Need(M, sizeBytes) >= sizeBytes + 16
  {
    if IsPow2(M) && Need(M, sizeBytes) < TWO31 && sizeBytes + HEADER + M - 1 < Modulus(W) {
      GrantCovers(W, M, sizeBytes);
    }
  }
}
