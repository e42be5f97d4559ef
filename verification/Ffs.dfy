/**
 * Bit words and word arrays (ffs64.h and, at another width, ffs32.h).  A word is its
 * sequence of bits, bit 0 first; the width W is a parameter of everything here.
 * Bit positions returned by the find functions are 1-based, 0 meaning none.
 */
module Ffs {
  type Word = seq<bool>

  predicate IsWord(W: nat, x: Word) {
    |x| == W
  }

  predicate IsZero(x: Word) {
    forall i :: 0 <= i < |x| ==> !x[i]
  }

  predicate IsMax(x: Word) {
    forall i :: 0 <= i < |x| ==> x[i]
  }

  function Shr(x: Word, k: nat): Word {
    seq(|x|, i requires 0 <= i < |x| => i + k < |x| && x[i + k])
  }

  function Shl(x: Word, k: nat): Word {
    seq(|x|, i requires 0 <= i < |x| => i >= k && x[i - k])
  }

  function Not(x: Word): Word {
    seq(|x|, i requires 0 <= i < |x| => !x[i])
  }

  function And(x: Word, y: Word): Word
    requires |x| == |y|
  {
    seq(|x|, i requires 0 <= i < |x| => x[i] && y[i])
  }

  function Or(x: Word, y: Word): Word
    requires |x| == |y|
  {
    seq(|x|, i requires 0 <= i < |x| => x[i] || y[i])
  }

  /** FFS64_masks_table[n]: the n low bits. */
  function LowMask(W: nat, n: nat): Word {
    seq(W, i => i < n)
  }

  /** FFS64_LeftMask: n bits from start on. */
  function LeftMask(W: nat, n: nat, start: nat): Word {
    Shl(LowMask(W, n), start)
  }

  /** The index of the first set bit at or after i, or |x|. */
  function ScanFrom(x: Word, i: nat): (k: nat)
    requires i <= |x|
    ensures i <= k <= |x| && (forall j :: i <= j < k ==> !x[j]) && (k < |x| ==> x[k])
    decreases |x| - i
  {
    if i == |x| || x[i] then i else ScanFrom(x, i + 1)
  }

  /** FFS64_first_setbit, with its shortcuts for 0 and for all ones. */
  function FirstSetbit(x: Word): (r: nat)
    ensures r == 0 <==> IsZero(x)
    ensures r > 0 ==> r <= |x| && x[r - 1] && forall j :: 0 <= j < r - 1 ==> !x[j]
  {
    if IsZero(x) then 0
    else if IsMax(x) then 1
    else ScanFrom(x, 0) + 1
  }

  /** Shifting right and finding the first set bit finds the first one from start0 on. */
  lemma FirstInShifted(x: Word, start0: nat)
    requires start0 < |x|
    ensures var pos := FirstSetbit(Shr(x, start0));
            && (pos == 0 <==> forall j :: start0 <= j < |x| ==> !x[j])
            && (pos > 0 ==> pos + start0 <= |x| && x[pos + start0 - 1] && forall j :: start0 <= j < pos + start0 - 1 ==> !x[j])
  {
    var masked := Shr(x, start0);
    assert forall j :: start0 <= j < |x| ==> masked[j - start0] == x[j];
  }

  /** The first set bit at or after startbit: by shifting and looking for the first one. */
  function NextSetbit(x: Word, startbit: nat): (r: nat)
    requires 1 <= startbit <= |x|
    ensures r == 0 <==> forall j :: startbit - 1 <= j < |x| ==> !x[j]
    ensures r > 0 ==> startbit <= r <= |x| && x[r - 1] && forall j :: startbit - 1 <= j < r - 1 ==> !x[j]
  {
    if IsZero(x) then 0
    else if IsMax(x) then assert x[startbit - 1]; startbit
    else
      var start0 := startbit - 1;
      FirstInShifted(x, start0);
      var masked := Shr(x, start0);
      var pos := FirstSetbit(masked);
      if pos != 0 then pos + start0 else 0
  }

  function NextUnsetbit(x: Word, startbit: nat): (r: nat)
    requires 1 <= startbit <= |x|
    ensures r == 0 <==> forall j :: startbit - 1 <= j < |x| ==> x[j]
    ensures r > 0 ==> startbit <= r <= |x| && !x[r - 1] && forall j :: startbit - 1 <= j < r - 1 ==> x[j]
  {
    if IsMax(x) then 0
    else
      var start0 := startbit - 1;
      FirstInShifted(Not(x), start0);
      var masked := Shr(Not(x), start0);
      var pos := FirstSetbit(masked);
      assert forall j :: 0 <= j < |x| ==> Not(x)[j] == !x[j];
      if pos != 0 then pos + start0 else 0
  }

  // ---------------------------------------------------------------- word arrays as one row of bits

  predicate AllWords(W: nat, flags: seq<Word>) {
    forall i :: 0 <= i < |flags| ==> IsWord(W, flags[i])
  }

  function Flat(flags: seq<Word>): seq<bool> {
    if flags == [] then [] else flags[0] + Flat(flags[1..])
  }

  lemma {:induction false} FlatLength(W: nat, flags: seq<Word>)
    requires AllWords(W, flags)
    ensures |Flat(flags)| == |flags| * W
  {
    if flags != [] {
      FlatLength(W, flags[1..]);
      assert |flags| * W == (|flags| - 1) * W + W;
    }
  }

  lemma AtLeastOne(k: nat, W: nat)
    requires k >= 1
    ensures k * W >= W
  {
  }

  lemma Below(W: nat, f: nat, n: nat)
    requires f < n
    ensures f * W + W <= n * W
  {
    AtLeastOne(n - f, W);
    assert (n - f) * W == n * W - f * W;
  }

  /** Bit b of word f is bit f*W + b of the row. */
  lemma {:induction false} FlatAt(W: nat, flags: seq<Word>, f: nat, b: nat)
    requires AllWords(W, flags) && f < |flags| && b < W
    ensures f * W + b < |Flat(flags)| && Flat(flags)[f * W + b] == flags[f][b]
  {
    FlatLength(W, flags);
    Below(W, f, |flags|);
    if f > 0 {
      FlatAt(W, flags[1..], f - 1, b);
      assert f * W + b - W == (f - 1) * W + b;
      assert Flat(flags)[f * W + b] == Flat(flags[1..])[f * W + b - W];
    }
  }

  lemma FlatWord(W: nat, flags: seq<Word>, f: nat)
    requires AllWords(W, flags) && f < |flags|
    ensures f * W + W <= |Flat(flags)| == |flags| * W
    ensures Flat(flags)[f * W..f * W + W] == flags[f]
  {
    FlatLength(W, flags);
    Below(W, f, |flags|);
    forall b | 0 <= b < W
      ensures Flat(flags)[f * W + b] == flags[f][b]
    {
      FlatAt(W, flags, f, b);
    }
  }

  // ---------------------------------------------------------------- searching for a run

  /** n consecutive set bits start at g. */
  predicate RunAt(bits: seq<bool>, g: int, n: int) {
    0 <= g && g + n <= |bits| && forall i :: g <= i < g + n ==> bits[i]
  }

  /** No run of n set bits starts in [lo, hi). */
  ghost predicate NoRunIn(bits: seq<bool>, lo: int, hi: int, n: int) {
    forall g :: lo <= g < hi ==> !RunAt(bits, g, n)
  }

  /** How far a search has come: it looks at cur next and, once started, holds set bits from g on. */
  ghost predicate Searching(bits: seq<bool>, lo: int, n: int, started: bool, g: int, cur: int, remaining: int) {
    && 0 <= lo <= cur <= |bits|
    && if started
       then lo <= g < cur && cur - g == n - remaining && remaining >= 1
            && (forall i :: g <= i < cur ==> bits[i]) && NoRunIn(bits, lo, g, n)
       else remaining == n && NoRunIn(bits, lo, cur, n)
  }

  /** A run held from g up to and including the set bit here, remaining bits short of n before counting it. */
  ghost predicate Held(bits: seq<bool>, lo: int, n: int, g: int, here: int, remaining: int) {
    && 0 <= lo <= g <= here < |bits| && here - g == n - remaining && remaining >= 1
    && (forall i :: g <= i <= here ==> bits[i]) && NoRunIn(bits, lo, g, n)
  }

  /** Clear bits ahead rule out every start up to them. */
  lemma ZerosAhead(bits: seq<bool>, lo: int, n: int, started: bool, g: int, cur: int, remaining: int, e: int)
    requires Searching(bits, lo, n, started, g, cur, remaining) && n >= 1 && cur < e <= |bits|
    requires forall i :: cur <= i < e ==> !bits[i]
    ensures NoRunIn(bits, lo, e, n)
  {
    forall x | lo <= x < e
      ensures !RunAt(bits, x, n)
    {
      assert !bits[if x >= cur then x else cur];
    }
  }

  /** A clear bit cuts a run that was too short. */
  lemma CutShort(bits: seq<bool>, lo: int, n: int, g: int, z: int)
    requires 0 <= lo <= g <= z < |bits| && !bits[z] && z - g < n && NoRunIn(bits, lo, g, n)
    ensures NoRunIn(bits, lo, z + 1, n)
  {
    forall x | lo <= x < z + 1
      ensures !RunAt(bits, x, n)
    {
      assert !bits[z];
    }
  }

  /** A run of set bits from g up to here, extended by set bits up to z. */
  lemma Extend(bits: seq<bool>, lo: int, n: int, g: int, here: int, remaining: int, z: int, clear: bool)
    requires Held(bits, lo, n, g, here, remaining)
    requires here < z <= |bits| && forall i :: here < i < z ==> bits[i]
    requires clear ==> z < |bits| && !bits[z]
    ensures remaining <= z - here ==> RunAt(bits, g, n)
    ensures remaining > z - here && clear ==> Searching(bits, lo, n, false, 0, z, n)
    ensures remaining > z - here && !clear ==> Searching(bits, lo, n, true, g, z, remaining - (z - here))
  {
    if remaining > z - here && clear {
      CutShort(bits, lo, n, g, z);
    }
  }

  lemma EndOfBits(bits: seq<bool>, lo: int, n: int, started: bool, g: int, remaining: int)
    requires Searching(bits, lo, n, started, g, |bits|, remaining)
    ensures NoRunIn(bits, lo, |bits|, n)
  {
  }

  lemma WordInRow(W: nat, flags: seq<Word>, f: nat, base: nat)
    requires AllWords(W, flags) && f < |flags| && base == f * W
    ensures base + W <= |Flat(flags)| == |flags| * W && base + W == (f + 1) * W
    ensures forall i :: base <= i < base + W ==> Flat(flags)[i] == flags[f][i - base]
  {
    FlatWord(W, flags, f);
    assert forall i :: base <= i < base + W ==> Flat(flags)[base..base + W][i - base] == Flat(flags)[i];
  }

  /** NextSetbit on word f, said about the whole row: all clear up to the bit found, if any. */
  method NextSetInRow(W: nat, flags: array<Word>, f: nat, ghost base: nat, startbit: nat) returns (r: nat)
    requires AllWords(W, flags[..]) && f < flags.Length && base == f * W && 1 <= startbit <= W
    ensures base + W <= |Flat(flags[..])| && base + W == (f + 1) * W && (r == 0 || startbit <= r <= W)
    ensures var z := if r == 0 then base + W else base + r - 1;
            (forall i :: base + startbit - 1 <= i < z ==> !Flat(flags[..])[i]) && (r > 0 ==> Flat(flags[..])[z])
  {
    r := NextSetbit(flags[f], startbit);
    WordInRow(W, flags[..], f, base);
  }

  method NextUnsetInRow(W: nat, flags: array<Word>, f: nat, ghost base: nat, startbit: nat) returns (r: nat)
    requires AllWords(W, flags[..]) && f < flags.Length && base == f * W && 1 <= startbit <= W
    ensures base + W <= |Flat(flags[..])| && (r == 0 || startbit <= r <= W)
    ensures var z := if r == 0 then base + W else base + r - 1;
            (forall i :: base + startbit - 1 <= i < z ==> Flat(flags[..])[i]) && (r > 0 ==> !Flat(flags[..])[z])
  {
    r := NextUnsetbit(flags[f], startbit);
    WordInRow(W, flags[..], f, base);
  }

  /**
   * The first half of an iteration: find the next set bit of the word and settle where the
   * run it belongs to starts (keep the start only if the run reaches this word unbroken).
   */
  method SettleStart(W: nat, flags: array<Word>, bitsCount: int, pFlag: nat, startBit: nat, started: bool, pFirst: nat,
                     firstBitOffset: nat, remaining: int, ghost base: nat, ghost lo: nat, ghost g: int)
    returns (bit: nat, pFirst': nat, firstBitOffset': nat, remaining': int, ghost g': int)
    requires AllWords(W, flags[..]) && pFlag < flags.Length && base == pFlag * W && 1 <= startBit <= W && bitsCount >= 1
    requires Searching(Flat(flags[..]), lo, bitsCount, started, g, base + startBit - 1, remaining)
    requires started ==> startBit == 1 && pFirst < pFlag && 1 <= firstBitOffset <= W && g == pFirst * W + firstBitOffset - 1
    ensures base + W <= |Flat(flags[..])| && base + W == (pFlag + 1) * W && bit <= W
    ensures bit == 0 ==> NoRunIn(Flat(flags[..]), lo, base + W, bitsCount)
    ensures bit > 0 ==> startBit <= bit && Held(Flat(flags[..]), lo, bitsCount, g', base + bit - 1, remaining')
    ensures bit > 0 ==>
              && ((started && pFirst' == pFirst) || pFirst' == pFlag)
              && 1 <= firstBitOffset' <= W && g' == pFirst' * W + firstBitOffset' - 1
  {
    ghost var bits, from := Flat(flags[..]), base + startBit - 1;
    pFirst', firstBitOffset', remaining', g' := pFirst, firstBitOffset, remaining, g;
    bit := NextSetInRow(W, flags, pFlag, base, startBit);
    if bit == 0 {
      ZerosAhead(bits, lo, bitsCount, started, g, from, remaining, base + W);
    } else {
      ghost var here := base + bit - 1;
      if from < here {
        ZerosAhead(bits, lo, bitsCount, started, g, from, remaining, here);
      }
      if started {
        if bit != 1 {
          remaining', pFirst', firstBitOffset', g' := bitsCount, pFlag, bit, here;
        }
      } else {
        remaining', pFirst', firstBitOffset', g' := bitsCount, pFlag, bit, here;
      }
    }
  }

  /** The second half of an iteration: how many set bits follow in the word, and whether they are enough. */
  method RunLength(W: nat, flags: array<Word>, bitsCount: int, pFlag: nat, startBit: nat, remaining: int,
                   ghost base: nat, ghost lo: nat, ghost g: int)
    returns (endBit: nat, available: nat)
    requires AllWords(W, flags[..]) && pFlag < flags.Length && base == pFlag * W && 1 <= startBit < W
    requires Held(Flat(flags[..]), lo, bitsCount, g, base + startBit - 1, remaining)
    ensures endBit == 0 || startBit < endBit <= W
    ensures available == if endBit != 0 then endBit - startBit else W - startBit + 1
    ensures remaining <= available ==> RunAt(Flat(flags[..]), g, bitsCount)
    ensures remaining > available && endBit != 0 ==>
              Searching(Flat(flags[..]), lo, bitsCount, false, 0, base + endBit - 1, bitsCount)
    ensures remaining > available && endBit == 0 ==>
              Searching(Flat(flags[..]), lo, bitsCount, true, g, base + W, remaining - available)
  {
    endBit := NextUnsetInRow(W, flags, pFlag, base, startBit + 1);
    available := if endBit != 0 then endBit - startBit else W - startBit + 1;
    ghost var here, z := base + startBit - 1, if endBit == 0 then base + W else base + endBit - 1;
    Extend(Flat(flags[..]), lo, bitsCount, g, here, remaining, z, endBit != 0);
  }

  /**
   * FFS64_flags_find_setbits: first fit for bitsCount set bits in words first .. |flags|,
   * possibly spanning words.  Returns the word and the 1-based bit the run starts at, 0 if
   * there is none.
   */
  method FindSetbits(W: nat, flags: array<Word>, first: nat, bitsCount: int) returns (firstFlag: nat, startbit: nat)
    requires W > 0 && AllWords(W, flags[..]) && first <= flags.Length
    ensures bitsCount < 1 ==> startbit == 0
    ensures startbit > 0 ==> first <= firstFlag < flags.Length && startbit <= W
    ensures startbit > 0 ==> var g := firstFlag * W + startbit - 1;
              RunAt(Flat(flags[..]), g, bitsCount) && NoRunIn(Flat(flags[..]), first * W, g, bitsCount)
    ensures startbit == 0 && bitsCount >= 1 ==> NoRunIn(Flat(flags[..]), first * W, |Flat(flags[..])|, bitsCount)
  {
    ghost var bits := Flat(flags[..]);
    FlatLength(W, flags[..]);
    if first < flags.Length {
      Below(W, first, flags.Length);
    }
    var started, pFirst: nat, firstBitOffset: nat := false, first, 0;
    var startBit: nat, remaining := 1, bitsCount;
    var pFlag := first;
    ghost var lo: nat, base: nat, g: int := first * W, first * W, 0;
    while pFlag < flags.Length && remaining > 0
      invariant first <= pFlag <= flags.Length && 1 <= startBit <= W && base == pFlag * W
      invariant if bitsCount < 1 then remaining == bitsCount && !started
                else remaining >= 1 && Searching(bits, lo, bitsCount, started, g, base + startBit - 1, remaining)
      invariant started ==> startBit == 1 && first <= pFirst < pFlag && 1 <= firstBitOffset <= W
                            && g == pFirst * W + firstBitOffset - 1
      decreases flags.Length - pFlag, W + 1 - startBit
    {
      startBit, pFirst, firstBitOffset, remaining, g :=
        SettleStart(W, flags, bitsCount, pFlag, startBit, started, pFirst, firstBitOffset, remaining, base, lo, g);
      if startBit == 0 {
        remaining, started := bitsCount, false;
        pFlag, base := pFlag + 1, base + W;
        startBit := 1;
        continue;
      }
      started := true;
      if remaining == 1 {
        return pFirst, firstBitOffset;
      }
      ghost var here := base + startBit - 1;
      if startBit == W {
        Extend(bits, lo, bitsCount, g, here, remaining, here + 1, false);
        remaining := remaining - 1;
        startBit := 1;
        pFlag, base := pFlag + 1, base + W;
        continue;
      }
      var endBit, available := RunLength(W, flags, bitsCount, pFlag, startBit, remaining, base, lo, g);
      if remaining <= available {
        return pFirst, firstBitOffset;
      }
      if endBit != 0 {
        g := 0;
        remaining, started := bitsCount, false;
        startBit := endBit;
      } else {
        remaining := remaining - available;
        startBit := 1;
        pFlag, base := pFlag + 1, base + W;
      }
    }
    if bitsCount >= 1 {
      EndOfBits(bits, lo, bitsCount, started, g, remaining);
    }
    return first, 0;
  }

  // ---------------------------------------------------------------- masking a range

  /** The row with n bits from g on set to v. */
  function Paint(bits: seq<bool>, g: nat, n: nat, v: bool): seq<bool> {
    seq(|bits|, i requires 0 <= i < |bits| => if g <= i < g + n then v else bits[i])
  }

  lemma {:induction false} FlatUpdate(W: nat, flags: seq<Word>, f: nat, x: Word)
    requires AllWords(W, flags) && f < |flags| && IsWord(W, x)
    ensures f * W + W <= |Flat(flags)|
    ensures Flat(flags[f := x]) == Flat(flags)[..f * W] + x + Flat(flags)[f * W + W..]
  {
    FlatLength(W, flags);
    Below(W, f, |flags|);
    if f == 0 {
      assert flags[0 := x][1..] == flags[1..];
    } else {
      FlatUpdate(W, flags[1..], f - 1, x);
      assert flags[f := x][1..] == flags[1..][f - 1 := x];
      assert (f - 1) * W == f * W - W;
      var rest := Flat(flags[1..]);
      assert Flat(flags)[..f * W] == flags[0] + rest[..f * W - W];
      assert Flat(flags)[f * W + W..] == rest[f * W..];
    }
  }

  /** What the mask of one step does to its word. */
  function MaskWord(W: nat, x: Word, k: nat, start: nat, is_set_1: bool): Word
    requires IsWord(W, x)
  {
    if is_set_1 then Or(x, LeftMask(W, k, start)) else And(x, Not(LeftMask(W, k, start)))
  }

  lemma MaskWordBits(W: nat, x: Word, k: nat, start: nat, v: bool)
    requires IsWord(W, x) && start + k <= W
    ensures IsWord(W, MaskWord(W, x, k, start, v))
    ensures forall i :: 0 <= i < W ==> MaskWord(W, x, k, start, v)[i] == if start <= i < start + k then v else x[i]
  {
    assert forall i :: 0 <= i < W ==> LeftMask(W, k, start)[i] == (start <= i < start + k);
  }

  lemma PaintWord(W: nat, flags: seq<Word>, f: nat, k: nat, start: nat, v: bool)
    requires AllWords(W, flags) && f < |flags| && start + k <= W
    ensures Flat(flags[f := MaskWord(W, flags[f], k, start, v)]) == Paint(Flat(flags), f * W + start, k, v)
  {
    MaskWordBits(W, flags[f], k, start, v);
    PaintWordAs(W, flags, f, k, start, v, MaskWord(W, flags[f], k, start, v));
  }

  lemma PaintWordAs(W: nat, flags: seq<Word>, f: nat, k: nat, start: nat, v: bool, x: Word)
    requires AllWords(W, flags) && f < |flags| && start + k <= W && IsWord(W, x)
    requires forall i :: 0 <= i < W ==> x[i] == if start <= i < start + k then v else flags[f][i]
    ensures Flat(flags[f := x]) == Paint(Flat(flags), f * W + start, k, v)
  {
    FlatUpdate(W, flags, f, x);
    var base := f * W;
    WordInRow(W, flags, f, base);
    PaintBlock(Flat(flags), base, W, x, start, k, v);
  }

  lemma PaintBlock(bits: seq<bool>, base: nat, W: nat, x: Word, start: nat, k: nat, v: bool)
    requires base + W <= |bits| && |x| == W && start + k <= W
    requires forall i :: 0 <= i < W ==> x[i] == if start <= i < start + k then v else bits[base + i]
    ensures bits[..base] + x + bits[base + W..] == Paint(bits, base + start, k, v)
  {
  }

  lemma PaintOn(bits: seq<bool>, g: nat, a: nat, c: nat, v: bool)
    ensures Paint(Paint(bits, g, a, v), g + a, c, v) == Paint(bits, g, a + c, v)
  {
  }

  /** FFS64_flags_mask_bits: sets or clears bitCount bits from bit bitOffset of word first on, across words. */
  method MaskBits(W: nat, flags: array<Word>, first: nat, bitOffset: nat, bitCount: nat, is_set_1: bool)
    requires W > 0 && AllWords(W, flags[..]) && bitOffset < W
    requires first * W + bitOffset + bitCount <= flags.Length * W
    modifies flags
    ensures AllWords(W, flags[..])
    ensures Flat(flags[..]) == Paint(old(Flat(flags[..])), first * W + bitOffset, bitCount, is_set_1)
  {
    ghost var bits, g := Flat(flags[..]), first * W + bitOffset;
    assert Paint(bits, g, 0, is_set_1) == bits;
    var pFlag: nat, startBit: nat, left: nat := first, bitOffset, bitCount;
    ghost var done: nat := 0;
    while left > 0
      invariant startBit < W && AllWords(W, flags[..]) && done + left == bitCount
      invariant left > 0 ==> pFlag * W + startBit == g + done
      invariant Flat(flags[..]) == Paint(bits, g, done, is_set_1)
    {
      var k := W - startBit;
      if k > left {
        k := left;
      }
      InRange(W, pFlag, startBit, flags.Length);
      PaintWord(W, flags[..], pFlag, k, startBit, is_set_1);
      PaintOn(bits, g, done, k, is_set_1);
      ghost var was := flags[..];
      if is_set_1 {
        flags[pFlag] := Or(flags[pFlag], LeftMask(W, k, startBit));
      } else {
        flags[pFlag] := And(flags[pFlag], Not(LeftMask(W, k, startBit)));
      }
      assert flags[..] == was[pFlag := MaskWord(W, was[pFlag], k, startBit, is_set_1)];
      left := left - k;
      done := done + k;
      assert Flat(flags[..]) == Paint(bits, g, done, is_set_1);
      if left == 0 {
        break;
      }
      startBit := 0;
      pFlag := pFlag + 1;
      assert pFlag * W == (pFlag - 1) * W + W;
    }
  }

  lemma InRange(W: nat, f: nat, b: nat, n: nat)
    requires f * W + b < n * W
    ensures f < n
  {
    if n < f {
      Below(W, n, f);
    }
  }

  // ---------------------------------------------------------------- counting

  function CountSet(bits: seq<bool>): nat {
    if bits == [] then 0 else (if bits[0] then 1 else 0) + CountSet(bits[1..])
  }

  lemma {:induction false} CountConcat(a: seq<bool>, b: seq<bool>)
    ensures CountSet(a + b) == CountSet(a) + CountSet(b)
  {
    if a == [] {
      assert a + b == b;
    } else {
      assert (a + b)[1..] == a[1..] + b;
      CountConcat(a[1..], b);
    }
  }

  lemma {:induction false} CountUniform(a: seq<bool>, v: bool)
    requires forall i :: 0 <= i < |a| ==> a[i] == v
    ensures CountSet(a) == if v then |a| else 0
  {
    if a != [] {
      CountUniform(a[1..], v);
    }
  }

  /** Clearing a run of n set bits, or setting one of n clear bits, moves the count by n. */
  lemma CountPaint(bits: seq<bool>, g: nat, n: nat, v: bool)
    requires g + n <= |bits| && forall i :: g <= i < g + n ==> bits[i] == !v
    ensures CountSet(Paint(bits, g, n, v)) + (if v then 0 else n) == CountSet(bits) + (if v then n else 0)
  {
    var t := Paint(bits, g, n, v);
    CountSplit(bits, g, n);
    CountSplit(t, g, n);
    PaintParts(bits, g, n, v);
    CountUniform(bits[g..g + n], !v);
    CountUniform(t[g..g + n], v);
  }

  lemma PaintParts(bits: seq<bool>, g: nat, n: nat, v: bool)
    requires g + n <= |bits|
    ensures var t := Paint(bits, g, n, v); t[..g] == bits[..g] && t[g + n..] == bits[g + n..]
  {
  }

  lemma CountSplit(bits: seq<bool>, g: nat, n: nat)
    requires g + n <= |bits|
    ensures CountSet(bits) == CountSet(bits[..g]) + CountSet(bits[g..g + n]) + CountSet(bits[g + n..])
  {
    var m, c := bits[g..g + n], bits[g + n..];
    assert m + c == bits[g..] && bits[..g] + bits[g..] == bits;
    CountConcat(m, c);
    CountConcat(bits[..g], bits[g..]);
  }

  lemma PaintBack(bits: seq<bool>, g: nat, n: nat)
    requires RunAt(bits, g, n)
    ensures Paint(Paint(bits, g, n, false), g, n, true) == bits
  {
  }
}
