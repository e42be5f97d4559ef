/**
 * The streaming side of MD5 (md5sum.h): the 64-byte buffer, the 64-bit count kept in two
 * 32-bit words, and the padding.  The compression of one block is a parameter.
 */
module Md5Stream {
  import opened Division
  import opened LittleEndian

  const TWO32: nat := 0x1_0000_0000
  const TWO64: nat := 0x1_0000_0000_0000_0000

  type Word = x: int | 0 <= x < TWO32

  datatype State = State(a: Word, b: Word, c: Word, d: Word)

  type Compress = (State, seq<Byte>) -> State

  // ---------------------------------------------------------------- the reference: absorbing whole blocks

  /** The state after the whole 64-byte blocks of data. */
  function Absorb(f: Compress, h: State, data: seq<Byte>): State
    decreases |data|
  {
    if |data| < 64 then h else Absorb(f, f(h, data[..64]), data[64..])
  }

  lemma {:induction false} AbsorbWhole(f: Compress, h: State, whole: seq<Byte>, q: nat, more: seq<Byte>)
    requires |whole| == 64 * q
    ensures Absorb(f, h, whole + more) == Absorb(f, Absorb(f, h, whole), more)
    decreases q
  {
    if q == 0 {
      assert whole + more == more;
    } else {
      assert (whole + more)[..64] == whole[..64] && (whole + more)[64..] == whole[64..] + more;
      AbsorbWhole(f, f(h, whole[..64]), whole[64..], q - 1, more);
    }
  }

  lemma AbsorbBlock(f: Compress, h: State, whole: seq<Byte>, q: nat, block: seq<Byte>)
    requires |whole| == 64 * q && |block| == 64
    ensures Absorb(f, h, whole + block) == f(Absorb(f, h, whole), block)
  {
    AbsorbWhole(f, h, whole, q, block);
    assert block[..64] == block;
  }

  /** The bytes after the last whole block. */
  function Tail(msg: seq<Byte>): (t: seq<Byte>)
    ensures |t| == |msg| % 64
  {
    msg[|msg| - |msg| % 64..]
  }

  /** The zero bytes that bring a message of n bytes and a 0x80 to 56 modulo 64. */
  function Zeros(n: nat): (z: nat)
    ensures z < 64
  {
    var r := n % 64;
    if r <= 55 then 55 - r else 119 - r
  }

  function ZeroBytes(n: nat): (s: seq<Byte>)
    ensures |s| == n
  {
    seq(n, _ => 0)
  }

  /** The message padded as RFC 1321 sections 3.1 and 3.2 ask: a 1 bit, the fewest zeros, the bit count modulo 2^64. */
  function Padded(msg: seq<Byte>): (p: seq<Byte>)
    ensures |p| == |msg| + 1 + Zeros(|msg|) + 8 && msg <= p
  {
    msg + ([0x80] + ZeroBytes(Zeros(|msg|))) + Encode(8 * |msg| % TWO64, 8)
  }

  /** Padded messages are whole blocks. */
  lemma PaddedWhole(msg: seq<Byte>)
    ensures |Padded(msg)| % 64 == 0
  {
    var n := |msg|;
    DivUnique(n + 1 + Zeros(n) + 8, 64, n / 64 + (if n % 64 <= 55 then 1 else 2), 0);
  }

  /** No smaller number of zeros pads to whole blocks. */
  lemma PaddingIsLeast(n: nat, z: nat)
    requires (n + 1 + z + 8) % 64 == 0
    ensures Zeros(n) <= z
  {
    var q := (n + 1 + z + 8) / 64;
    assert n + 1 + z + 8 == 64 * q;
    var k := if n % 64 <= 55 then n / 64 + 1 else n / 64 + 2;
    assert z - Zeros(n) == 64 * (q - k);
  }

  /** The padded message gives back the message, as long as its bit count fits 64 bits. */
  lemma PaddedDecodes(msg: seq<Byte>)
    requires 8 * |msg| < TWO64
    ensures var p := Padded(msg); var n := Decode(p[|p| - 8..]);
            n == 8 * |msg| && msg == p[..n / 8]
  {
    var p, bits := Padded(msg), 8 * |msg|;
    Pow256Of8();
    DivUnique(bits, TWO64, 0, bits);
    RoundTrip(bits, 8);
    assert p[|p| - 8..] == Encode(bits, 8);
    DivUnique(bits, 8, |msg|, 0);
  }

  // ---------------------------------------------------------------- the buffer and the counter

  /** The index the code takes out of the low count word. */
  function Index(count0: Word): nat {
    (count0 / 8) % 64
  }

  /** The two count words after inputlen more bytes, with the carry between them. */
  function Counted(count0: Word, count1: Word, inputlen: Word): (Word, Word) {
    var add := (inputlen * 8) % TWO32;
    var low := (count0 + add) % TWO32;
    var carried := if low < add then (count1 + 1) % TWO32 else count1;
    (low, (carried + inputlen / 0x2000_0000) % TWO32)
  }

  /** The two words hold the bit count modulo 2^64. */
  predicate Counts(count0: Word, count1: Word, n: nat) {
    count0 + TWO32 * count1 == 8 * n % TWO64
  }

  lemma SplitLength(len: Word)
    ensures 8 * len == (len * 8) % TWO32 + TWO32 * (len / 0x2000_0000)
  {
  }

  lemma CountedAdds(count0: Word, count1: Word, n: nat, len: Word)
    requires Counts(count0, count1, n)
    ensures var c := Counted(count0, count1, len); Counts(c.0, c.1, n + len)
  {
    var now, k := count0 + TWO32 * count1, 8 * n / TWO64;
    assert 8 * n == TWO64 * k + now;
    var carry := CountedSum(count0, count1, len);
    var c := Counted(count0, count1, len);
    DivUnique(8 * (n + len), TWO64, k + carry, c.0 + TWO32 * c.1);
  }

  lemma LowSum(a: Word, b: Word)
    ensures (a + b) % TWO32 == if a + b >= TWO32 then a + b - TWO32 else a + b
    ensures (a + b) % TWO32 < b <==> a + b >= TWO32
  {
  }

  lemma CountedSum(count0: Word, count1: Word, len: Word) returns (carry: nat)
    ensures var c := Counted(count0, count1, len);
            c.0 + TWO32 * c.1 + TWO64 * carry == count0 + TWO32 * count1 + 8 * len
  {
    SplitLength(len);
    var add, top := (len * 8) % TWO32, len / 0x2000_0000;
    LowSum(count0, add);
    var wrap := count0 + add >= TWO32;
    if wrap {
      LowSum(count1, 1);
    }
    var carried := if wrap then (count1 + 1) % TWO32 else count1;
    LowSum(carried, top);
    carry := (if wrap && count1 + 1 == TWO32 then 1 else 0) + (if carried + top >= TWO32 then 1 else 0);
  }

  lemma IndexIs(count0: Word, count1: Word, n: nat)
    requires Counts(count0, count1, n)
    ensures Index(count0) == n % 64
  {
    var k := 8 * n / TWO64;
    assert 8 * n == TWO64 * k + count0 + TWO32 * count1;
    var whole := 0x80_0000 * (TWO32 * k + count1);
    assert count0 == 8 * (n - 64 * whole);
    DivUnique(count0, 8, n - 64 * whole, 0);
    SameMod64(count0 / 8, n, whole);
  }

  lemma SameMod64(x: nat, n: nat, k: nat)
    requires n == x + 64 * k
    ensures x % 64 == n % 64
  {
    DivUnique(n, 64, x / 64 + k, x % 64);
  }

  /** Where the block loop of an update ends when its guard i + 64 <= inputlen is computed exactly. */
  function LoopEnd(index: nat, len: nat): (e: nat)
    requires index < 64 && len >= 64 - index
    ensures 64 - index <= e <= len < e + 64
  {
    len - (index + len) % 64
  }

  /** The 32-bit guard of the block loop. */
  predicate Guard(i: nat, len: nat) {
    (i + 64) % TWO32 <= len
  }

  /** The update is short of a block, or its loop ends before the guard can wrap. */
  predicate GuardFits(index: nat, len: nat)
    requires index < 64
  {
    len >= 64 - index ==> LoopEnd(index, len) + 64 < TWO32
  }

  /** The guard says what it means at every position the loop comes to, exactly when the update fits. */
  lemma GuardExact(index: nat, len: Word)
    requires index < 64 && len >= 64 - index
    ensures GuardFits(index, len) <==>
            forall i :: 64 - index <= i <= LoopEnd(index, len) ==> (Guard(i, len) <==> i + 64 <= len)
  {
    var e := LoopEnd(index, len);
    if e + 64 >= TWO32 {
      assert Guard(e, len);
    }
  }

  lemma ShortEnough(index: nat, len: nat)
    requires index < 64 && len < TWO32 - 64
    ensures GuardFits(index, len)
  {
  }

  /** An update of 2^32 - 64 bytes into an empty buffer does not fit. */
  lemma GuardWraps()
    ensures !GuardFits(0, TWO32 - 64)
  {
    assert LoopEnd(0, TWO32 - 64) == TWO32 - 64;
  }

  /** The whole buffer after an update, stale bytes included. */
  function BufferAfter(buffer: seq<Byte>, index: nat, input: seq<Byte>): (r: seq<Byte>)
    requires |buffer| == 64 && index < 64
    ensures |r| == 64
  {
    var partlen := 64 - index;
    if |input| >= partlen then
      var rest := input[LoopEnd(index, |input|)..];
      rest + (buffer[..index] + input[..partlen])[|rest|..]
    else buffer[..index] + input + buffer[index + |input|..]
  }

  /** Where the buffer stands after len more bytes. */
  function NextIndex(index: nat, len: nat): (r: nat)
    ensures r < 64
  {
    (index + len) % 64
  }

  /** The block an update that completes one puts together in the buffer. */
  function FirstBlock(buffer: seq<Byte>, index: nat, input: seq<Byte>): (r: seq<Byte>)
    requires |buffer| == 64 && index < 64 && |input| >= 64 - index
    ensures |r| == 64
  {
    buffer[..index] + input[..64 - index]
  }

  /** The block a second update puts together, after a first one that completed a block as well. */
  function SecondBlock(index: nat, a: seq<Byte>, b: seq<Byte>): (r: seq<Byte>)
    requires index < 64 && |a| >= 64 - index && |b| >= 64 - NextIndex(index, |a|)
    ensures |r| == 64
  {
    a[LoopEnd(index, |a|)..] + b[..64 - NextIndex(index, |a|)]
  }

  /** One of the pieces completes no block, or the blocks first completed agree past the new tail. */
  predicate SplitUnseen(buffer: seq<Byte>, index: nat, a: seq<Byte>, b: seq<Byte>)
    requires |buffer| == 64 && index < 64
  {
    || |a| < 64 - index || |b| < 64 - NextIndex(index, |a|)
    || (var r := NextIndex(index, |a + b|); FirstBlock(buffer, index, a)[r..] == SecondBlock(index, a, b)[r..])
  }

  lemma NextOfNext(index: nat, m: nat, n: nat)
    ensures NextIndex(NextIndex(index, m), n) == NextIndex(index, m + n)
  {
    var q, r := (index + m) / 64, (index + m) % 64;
    SameMod64(r + n, index + m + n, q);
  }

  lemma NextIsEnd(index: nat, len: nat)
    requires index < 64 && len >= 64 - index
    ensures LoopEnd(index, len) == len - NextIndex(index, len)
  {
  }

  lemma LengthIndex(n: nat, m: nat)
    ensures NextIndex(n % 64, m) == (n + m) % 64
  {
    SameMod64(n % 64 + m, n + m, n / 64);
  }

  lemma SplitShortFirst(buffer: seq<Byte>, index: nat, a: seq<Byte>, b: seq<Byte>)
    requires |buffer| == 64 && index < 64 && |a| < 64 - index
    ensures NextIndex(index, |a|) == index + |a|
    ensures BufferAfter(BufferAfter(buffer, index, a), index + |a|, b) == BufferAfter(buffer, index, a + b)
  {
    var i, mid := index + |a|, BufferAfter(buffer, index, a);
    DivUnique(i, 64, 0, i);
    assert mid[..i] == buffer[..index] + a && mid[i..] == buffer[i..];
    if |b| >= 64 - i {
      SplitShortLong(buffer, index, a, b, mid);
    }
  }

  lemma SplitShortLong(buffer: seq<Byte>, index: nat, a: seq<Byte>, b: seq<Byte>, mid: seq<Byte>)
    requires |buffer| == |mid| == 64 && index + |a| < 64 && |b| >= 64 - index - |a|
    requires mid[..index + |a|] == buffer[..index] + a
    ensures BufferAfter(mid, index + |a|, b) == BufferAfter(buffer, index, a + b)
  {
    var i := index + |a|;
    NextIsEnd(i, |b|);
    NextIsEnd(index, |a + b|);
    assert (a + b)[LoopEnd(index, |a + b|)..] == b[LoopEnd(i, |b|)..];
    assert (a + b)[..64 - index] == a + b[..64 - i];
    assert mid[..i] + b[..64 - i] == buffer[..index] + (a + b)[..64 - index];
  }

  /** More bytes behind a tail laid over a block. */
  lemma TailGrows(tail: seq<Byte>, b: seq<Byte>, block: seq<Byte>)
    requires |tail| + |b| < |block|
    ensures var x := tail + block[|tail|..];
            x[..|tail|] + b + x[|tail| + |b|..] == tail + b + block[|tail| + |b|..]
  {
    var x := tail + block[|tail|..];
    assert x[..|tail|] == tail && x[|tail| + |b|..] == block[|tail| + |b|..];
  }

  /** Neither the last whole block nor what is before it depends on a short second piece. */
  lemma ShortSecondParts(buffer: seq<Byte>, index: nat, a: seq<Byte>, b: seq<Byte>)
    requires |buffer| == 64 && index < 64 && |a| >= 64 - index && |b| < 64 - NextIndex(index, |a|)
    ensures (a + b)[LoopEnd(index, |a + b|)..] == a[LoopEnd(index, |a|)..] + b
    ensures FirstBlock(buffer, index, a + b) == FirstBlock(buffer, index, a)
    ensures |a[LoopEnd(index, |a|)..]| == NextIndex(index, |a|)
  {
    var i := NextIndex(index, |a|);
    NextOfNext(index, |a|, |b|);
    DivUnique(i + |b|, 64, 0, i + |b|);
    NextIsEnd(index, |a|);
    NextIsEnd(index, |a + b|);
  }

  lemma SplitShortSecond(buffer: seq<Byte>, index: nat, a: seq<Byte>, b: seq<Byte>)
    requires |buffer| == 64 && index < 64 && |a| >= 64 - index && |b| < 64 - NextIndex(index, |a|)
    ensures BufferAfter(BufferAfter(buffer, index, a), NextIndex(index, |a|), b) == BufferAfter(buffer, index, a + b)
  {
    ShortSecondParts(buffer, index, a, b);
    TailGrows(a[LoopEnd(index, |a|)..], b, FirstBlock(buffer, index, a));
  }

  lemma SplitLong(buffer: seq<Byte>, index: nat, a: seq<Byte>, b: seq<Byte>)
    requires |buffer| == 64 && index < 64 && |a| >= 64 - index && |b| >= 64 - NextIndex(index, |a|)
    ensures var r := NextIndex(index, |a + b|);
            var tail := (a + b)[LoopEnd(index, |a + b|)..];
            && |tail| == r
            && BufferAfter(buffer, index, a + b) == tail + FirstBlock(buffer, index, a)[r..]
            && BufferAfter(BufferAfter(buffer, index, a), NextIndex(index, |a|), b) == tail + SecondBlock(index, a, b)[r..]
  {
    var i := NextIndex(index, |a|);
    NextOfNext(index, |a|, |b|);
    NextIsEnd(index, |a|);
    NextIsEnd(i, |b|);
    NextIsEnd(index, |a + b|);
    assert (a + b)[LoopEnd(index, |a + b|)..] == b[LoopEnd(i, |b|)..];
    assert FirstBlock(buffer, index, a + b) == FirstBlock(buffer, index, a);
    assert FirstBlock(BufferAfter(buffer, index, a), i, b) == SecondBlock(index, a, b);
  }

  /**
   * Splitting an update in two leaves the same whole buffer exactly when one of the pieces
   * completes no block, or the two blocks first completed agree past the new tail.  The
   * bytes past the live part do depend on the split otherwise.
   */
  lemma StaleBytesDependOnSplit(buffer: seq<Byte>, index: nat, a: seq<Byte>, b: seq<Byte>)
    requires |buffer| == 64 && index < 64
    ensures BufferAfter(BufferAfter(buffer, index, a), NextIndex(index, |a|), b) == BufferAfter(buffer, index, a + b)
            <==> SplitUnseen(buffer, index, a, b)
  {
    if |a| < 64 - index {
      SplitShortFirst(buffer, index, a, b);
    } else if |b| < 64 - NextIndex(index, |a|) {
      SplitShortSecond(buffer, index, a, b);
    } else {
      SplitLong(buffer, index, a, b);
      var r := NextIndex(index, |a + b|);
      var tail := (a + b)[LoopEnd(index, |a + b|)..];
      var x, y := FirstBlock(buffer, index, a)[r..], SecondBlock(index, a, b)[r..];
      assert (tail + x)[|tail|..] == x && (tail + y)[|tail|..] == y;
    }
  }

  // ---------------------------------------------------------------- the context object

  function InitState(seed: Word): State {
    State((0x67452301 + seed * 11) % TWO32, (0xEFCDAB89 + seed * 71) % TWO32,
          (0x98BADCFE + seed * 37) % TWO32, (0x10325476 + seed * 97) % TWO32)
  }

  /** RFC 1321 section 3.3: the four words, low-order bytes first. */
  const RFC_INIT: State := State(Decode([0x01, 0x23, 0x45, 0x67]), Decode([0x89, 0xab, 0xcd, 0xef]),
                                 Decode([0xfe, 0xdc, 0xba, 0x98]), Decode([0x76, 0x54, 0x32, 0x10]))

  /** Only seed 0 starts from the RFC's state. */
  lemma OnlySeedZeroIsRfc(seed: Word)
    ensures InitState(seed) == RFC_INIT <==> seed == 0
  {
    assert RFC_INIT.a == 0x67452301 && RFC_INIT.b == 0xEFCDAB89 && RFC_INIT.c == 0x98BADCFE && RFC_INIT.d == 0x10325476;
    if InitState(seed).a == RFC_INIT.a {
      var k := (0x67452301 + seed * 11) / TWO32;
      assert seed * 11 == TWO32 * k && k <= 11;
    }
  }

  function EncodeState(s: State): seq<Byte> {
    Encode(s.a, 4) + Encode(s.b, 4) + Encode(s.c, 4) + Encode(s.d, 4)
  }

  /** The four words of a state, one after the other, each low-order byte first. */
  predicate IsDigest(digest: seq<Byte>, h: State) {
    && |digest| == 16
    && Decode(digest[0..4]) == h.a && Decode(digest[4..8]) == h.b
    && Decode(digest[8..12]) == h.c && Decode(digest[12..16]) == h.d
  }

  lemma EncodedIsDigest(h: State)
    ensures IsDigest(EncodeState(h), h)
  {
    Pow256Of4();
    RoundTrip(h.a, 4);
    RoundTrip(h.b, 4);
    RoundTrip(h.c, 4);
    RoundTrip(h.d, 4);
    var digest := EncodeState(h);
    assert digest[0..4] == Encode(h.a, 4) && digest[4..8] == Encode(h.b, 4);
    assert digest[8..12] == Encode(h.c, 4) && digest[12..16] == Encode(h.d, 4);
  }

  /** The digest of a message: absorb the padded message, write the state out. */
  function Digest(f: Compress, h: State, msg: seq<Byte>): seq<Byte> {
    EncodeState(Absorb(f, h, Padded(msg)))
  }

  /** A loop position is not past the loop's end, and is the end once fewer than 64 bytes are left. */
  lemma LoopPosition(index: nat, len: nat, i: nat, p: nat)
    requires index < 64 && len >= 64 - index && i <= len && index + i == 64 * p
    ensures i <= LoopEnd(index, len) && (i + 64 > len ==> i == LoopEnd(index, len))
  {
    var e := LoopEnd(index, len);
    assert index + e == 64 * ((index + len) / 64);
  }

  /** Fewer than 64 more bytes: same state, same whole blocks, longer tail. */
  lemma ShortMore(f: Compress, h: State, whole: seq<Byte>, q: nat, rest: seq<Byte>)
    requires |whole| == 64 * q && |rest| < 64
    ensures Absorb(f, h, whole + rest) == Absorb(f, h, whole) && Tail(whole + rest) == rest
  {
    AbsorbWhole(f, h, whole, q, rest);
    DivUnique(|whole + rest|, 64, q, |rest|);
  }

  /** The message is its whole blocks and its tail. */
  lemma WholeAndTail(f: Compress, h: State, msg: seq<Byte>) returns (whole: seq<Byte>, q: nat)
    ensures |whole| == 64 * q && msg == whole + Tail(msg) && Absorb(f, h, msg) == Absorb(f, h, whole)
  {
    q := |msg| / 64;
    whole := msg[..64 * q];
    assert msg == whole + Tail(msg);
    ShortMore(f, h, whole, q, Tail(msg));
  }

  class Md5 {
    const f: Compress
    var count0: Word
    var count1: Word
    var state: State
    const buffer: array<Byte>
    var digest: seq<Byte>
    /** Where the context started from, and what it was given since. */
    ghost var h0: State
    ghost var msg: seq<Byte>

    /** The state and the live part of the buffer are functions of the concatenated input alone. */
    ghost predicate Valid()
      reads this, buffer
    {
      && buffer.Length == 64 && Counts(count0, count1, |msg|)
      && state == Absorb(f, h0, msg) && buffer[..|msg| % 64] == Tail(msg)
    }

    /** md5sum_init */
    constructor (f: Compress, seed: Word)
      ensures Valid() && fresh(buffer) && this.f == f && h0 == state == InitState(seed) && msg == []
      ensures state.a == (0x67452301 + 11 * seed) % 0x1_0000_0000 && state.b == (0xEFCDAB89 + 71 * seed) % 0x1_0000_0000
      ensures state.c == (0x98BADCFE + 37 * seed) % 0x1_0000_0000 && state.d == (0x10325476 + 97 * seed) % 0x1_0000_0000
      ensures count0 == count1 == 0 && buffer[..] == ZeroBytes(64)
    {
      this.f, count0, count1, digest := f, 0, 0, seq(16, _ => 0);
      state, h0, msg := InitState(seed), InitState(seed), [];
      buffer := new Byte[64](_ => 0);
    }

    /** memcpy into the buffer. */
    method Copy(at: nat, bytes: seq<Byte>)
      requires buffer.Length == 64 && at + |bytes| <= 64
      modifies buffer
      ensures buffer[..] == old(buffer[..at]) + bytes + old(buffer[at + |bytes|..])
    {
      forall k | 0 <= k < |bytes| {
        buffer[at + k] := bytes[k];
      }
    }

    /** The block loop of md5sum_update, from position i on; whole is everything absorbed before it. */
    method Blocks(input: seq<Byte>, start: nat, ghost index: nat, ghost whole: seq<Byte>, ghost q: nat) returns (i: nat)
      requires index < 64 && start == 64 - index <= |input| < TWO32 && GuardFits(index, |input|)
      requires |whole| == 64 * q && state == Absorb(f, h0, whole)
      modifies `state
      ensures i == LoopEnd(index, |input|) && state == Absorb(f, h0, whole + input[start..i])
      ensures exists p: nat :: |whole + input[start..i]| == 64 * p
    {
      i := start;
      ghost var p: nat := 1;
      assert whole + input[start..i] == whole;
      LoopPosition(index, |input|, i, p);
      while Guard(i, |input|)
        invariant start <= i <= |input| && index + i == 64 * p && p >= 1 && i <= LoopEnd(index, |input|)
        invariant state == Absorb(f, h0, whole + input[start..i])
        decreases |input| - i
      {
        ghost var before := whole + input[start..i];
        AbsorbBlock(f, h0, before, q + p - 1, input[i..i + 64]);
        assert before + input[i..i + 64] == whole + input[start..i + 64];
        state := f(state, input[i..i + 64]);
        i, p := i + 64, p + 1;
        LoopPosition(index, |input|, i, p);
      }
      LoopPosition(index, |input|, i, p);
      assert |whole + input[start..i]| == 64 * (q + p - 1);
    }

    /** md5sum_update when the input completes a block; i is where the rest of the input starts. */
    method Fill(index: nat, input: seq<Byte>) returns (i: nat)
      requires buffer.Length == 64 && state == Absorb(f, h0, msg) && index == |msg| % 64 && buffer[..index] == Tail(msg)
      requires 64 - index <= |input| < TWO32 && GuardFits(index, |input|)
      modifies `state, buffer
      ensures i == LoopEnd(index, |input|) && buffer[..] == old(buffer[..index]) + input[..64 - index]
      ensures state == Absorb(f, h0, msg + input) && Tail(msg + input) == input[i..]
    {
      var partlen := 64 - index;
      ghost var whole, q := WholeAndTail(f, h0, msg);
      ghost var block := Tail(msg) + input[..partlen];
      Copy(index, input[..partlen]);
      assert buffer[..] == block;
      AbsorbBlock(f, h0, whole, q, block);
      state := f(state, buffer[..]);
      i := Blocks(input, partlen, index, whole + block, q + 1);
      ghost var p: nat :| |whole + block + input[partlen..i]| == 64 * p;
      ShortMore(f, h0, whole + block + input[partlen..i], p, input[i..]);
      InPieces(msg, whole, input, partlen, i);
    }

    /** md5sum_update: the message grows by the input, whatever pieces it comes in. */
    method Update(input: seq<Byte>)
      requires Valid() && |input| < TWO32 && GuardFits(|msg| % 64, |input|)
      modifies this, buffer
      ensures Valid() && h0 == old(h0) && digest == old(digest) && msg == old(msg) + input
      ensures buffer[..] == BufferAfter(old(buffer[..]), |old(msg)| % 64, input)
    {
      var index := Index(count0);
      IndexIs(count0, count1, |msg|);
      var partlen := 64 - index;
      CountedAdds(count0, count1, |msg|, |input|);
      var counts := Counted(count0, count1, |input|);
      count0, count1 := counts.0, counts.1;
      var i := 0;
      if |input| >= partlen {
        i := Fill(index, input);
        index := 0;
      } else {
        ShortInput(f, h0, msg, input);
      }
      BufferIs(old(buffer[..]), msg, input, i, index, buffer[..]);
      Copy(index, input[i..]);
      msg := msg + input;
    }

    /** One chunk of a file. */
    method Feed(file: seq<Byte>, at: nat, rcb: nat)
      requires Valid() && at + rcb <= |file| && msg == file[..at] && rcb < 0x8000_0000
      modifies this, buffer
      ensures Valid() && h0 == old(h0) && msg == file[..at + rcb]
    {
      ShortEnough(|msg| % 64, rcb);
      Update(file[at..at + rcb]);
      assert file[..at] + file[at..at + rcb] == file[..at + rcb];
    }

    /** The reading loop of md5sum_file, with a buffer of bufsize bytes. */
    method ReadAll(file: seq<Byte>, bufsize: nat)
      requires Valid() && msg == [] && 0 < bufsize < 0x8000_0000
      modifies this, buffer
      ensures Valid() && h0 == old(h0) && msg == file
    {
      var at := 0;
      while true
        invariant Valid() && h0 == old(h0) && at <= |file| && msg == file[..at]
        decreases |file| - at
      {
        var rcb := if |file| - at < bufsize then |file| - at else bufsize;
        if rcb < bufsize {
          if rcb != 0 {
            Feed(file, at, rcb);
          }
          break;
        }
        Feed(file, at, rcb);
        at := at + rcb;
      }
      assert file[..|file|] == file;
    }

    /** md5sum_done: the digest of everything given. */
    method Done()
      requires Valid()
      modifies this, buffer
      ensures digest == Digest(f, old(h0), old(msg)) && IsDigest(digest, Absorb(f, old(h0), Padded(old(msg))))
    {
      var index := Index(count0);
      IndexIs(count0, count1, |msg|);
      var padlen := if index < 56 then 56 - index else 120 - index;
      var bits := Encode(count0, 4) + Encode(count1, 4);
      EncodeWords(count0, count1);
      var padding := [0x80] + ZeroBytes(padlen - 1);
      ZerosIs(|msg|);
      PaddedParts(msg, padding, bits);
      Update(padding);
      Update(bits);
      EncodedIsDigest(state);
      digest := EncodeState(state);
    }
  }

  lemma InPieces(msg: seq<Byte>, whole: seq<Byte>, input: seq<Byte>, partlen: nat, i: nat)
    requires msg == whole + Tail(msg) && partlen <= i <= |input|
    ensures msg + input == whole + (Tail(msg) + input[..partlen]) + input[partlen..i] + input[i..]
  {
    assert input == input[..partlen] + input[partlen..i] + input[i..];
  }

  lemma ShortInput(f: Compress, h: State, msg: seq<Byte>, input: seq<Byte>)
    requires |msg| % 64 + |input| < 64
    ensures Absorb(f, h, msg + input) == Absorb(f, h, msg) && Tail(msg + input) == Tail(msg) + input
  {
    var whole, q := WholeAndTail(f, h, msg);
    ShortInputAfter(f, h, msg, input, whole, q, Tail(msg));
  }

  lemma ShortInputAfter(f: Compress, h: State, msg: seq<Byte>, input: seq<Byte>, whole: seq<Byte>, q: nat, tail: seq<Byte>)
    requires |whole| == 64 * q && msg == whole + tail && |tail| + |input| < 64
    ensures Absorb(f, h, msg + input) == Absorb(f, h, msg) && Tail(msg + input) == tail + input
  {
    ShortMore(f, h, whole, q, tail);
    ShortMore(f, h, whole, q, tail + input);
    assert msg + input == whole + (tail + input);
  }

  /** The last copy of an update leaves the tail of the whole message in front. */
  lemma BufferIs(buf: seq<Byte>, msg: seq<Byte>, input: seq<Byte>, i: nat, index: nat, mid: seq<Byte>)
    requires |buf| == |mid| == 64 && buf[..|msg| % 64] == Tail(msg)
    requires var r := |msg| % 64;
             if |input| >= 64 - r
             then i == LoopEnd(r, |input|) && index == 0 && mid == buf[..r] + input[..64 - r] && Tail(msg + input) == input[i..]
             else i == 0 && index == r && mid == buf && Tail(msg + input) == Tail(msg) + input
    ensures index + |input| - i <= 64
    ensures var t := mid[..index] + input[i..] + mid[index + |input| - i..];
            t == BufferAfter(buf, |msg| % 64, input) && t[..|msg + input| % 64] == Tail(msg + input)
  {
  }

  lemma ZerosIs(n: nat)
    ensures var r := n % 64; Zeros(n) == (if r < 56 then 56 - r else 120 - r) - 1
  {
  }

  /** The padding the code appends is the RFC's. */
  lemma PaddedParts(msg: seq<Byte>, padding: seq<Byte>, bits: seq<Byte>)
    requires padding == [0x80] + ZeroBytes(Zeros(|msg|))
    requires bits == Encode(8 * |msg| % TWO64, 8)
    ensures (msg + padding) + bits == Padded(msg)
  {
  }

  /** Two words written low bytes first are the 64-bit number written low bytes first. */
  lemma EncodeWords(low: Word, high: Word)
    ensures Encode(low, 4) + Encode(high, 4) == Encode(low + TWO32 * high, 8)
  {
    Pow256Of4();
    EncodeConcat(low, high, 4, 4);
  }

  /** md5sum_bytes */
  method BytesDigest(f: Compress, seed: Word, bytes: seq<Byte>) returns (digest: seq<Byte>)
    requires |bytes| < TWO32 && GuardFits(0, |bytes|)
    ensures digest == Digest(f, InitState(seed), bytes) && IsDigest(digest, Absorb(f, InitState(seed), Padded(bytes)))
  {
    var ctx := new Md5(f, seed);
    ctx.Update(bytes);
    assert ctx.msg == bytes;
    ctx.Done();
    digest := ctx.digest;
  }

  /** md5sum_file, on a file whose reads succeed: the same digest as its bytes in one piece. */
  method FileDigest(f: Compress, seed: Word, file: seq<Byte>, bufsize: nat) returns (digest: seq<Byte>)
    requires 0 < bufsize < 0x8000_0000
    ensures digest == Digest(f, InitState(seed), file) && IsDigest(digest, Absorb(f, InitState(seed), Padded(file)))
  {
    var ctx := new Md5(f, seed);
    ctx.ReadAll(file, bufsize);
    ctx.Done();
    digest := ctx.digest;
  }

  /** Two contexts that were given the same bytes agree on state, count and live buffer, however the bytes were split. */
  lemma SplitIndependent(c: Md5, d: Md5)
    requires c.Valid() && d.Valid() && c.f == d.f && c.h0 == d.h0 && c.msg == d.msg
    ensures c.state == d.state && c.count0 == d.count0 && c.count1 == d.count1
    ensures Index(c.count0) == |c.msg| % 64 && c.buffer[..Index(c.count0)] == d.buffer[..Index(d.count0)]
  {
    IndexIs(c.count0, c.count1, |c.msg|);
    IndexIs(d.count0, d.count1, |d.msg|);
  }

  /** An update of less than 2^31 bytes, with the index it starts from. */
  method UpdateAt(ctx: Md5, input: seq<Byte>, ghost index: nat)
    requires ctx.Valid() && |input| < 0x8000_0000 && index == |ctx.msg| % 64
    modifies ctx, ctx.buffer
    ensures ctx.Valid() && ctx.h0 == old(ctx.h0) && ctx.msg == old(ctx.msg) + input
    ensures ctx.buffer[..] == BufferAfter(old(ctx.buffer[..]), index, input) && |ctx.msg| % 64 == NextIndex(index, |input|)
  {
    LengthIndex(|ctx.msg|, |input|);
    ShortEnough(index, |input|);
    ctx.Update(input);
  }

  lemma TwoPieces(msg: seq<Byte>, a: seq<Byte>, b: seq<Byte>)
    ensures msg + a + b == msg + (a + b)
  {
  }

  method UpdateTwice(ctx: Md5, a: seq<Byte>, b: seq<Byte>, ghost index: nat)
    requires ctx.Valid() && |a| < 0x8000_0000 && |b| < 0x8000_0000 && index == |ctx.msg| % 64
    modifies ctx, ctx.buffer
    ensures ctx.Valid() && ctx.h0 == old(ctx.h0) && ctx.msg == old(ctx.msg) + (a + b)
    ensures ctx.buffer[..] == BufferAfter(BufferAfter(old(ctx.buffer[..]), index, a), NextIndex(index, |a|), b)
  {
    ghost var msg := ctx.msg;
    UpdateAt(ctx, a, index);
    UpdateAt(ctx, b, NextIndex(index, |a|));
    TwoPieces(msg, a, b);
  }

  /**
   * Two contexts alike, one given a + b and the other a and then b: everything agrees but,
   * exactly when the split is seen, the stale bytes of the buffer.
   */
  method SplitUpdate(one: Md5, two: Md5, a: seq<Byte>, b: seq<Byte>)
    requires one != two && one.buffer != two.buffer && one.Valid() && two.Valid()
    requires one.f == two.f && one.h0 == two.h0 && one.msg == two.msg && one.buffer[..] == two.buffer[..]
    requires |a| + |b| < 0x8000_0000
    modifies one, two, one.buffer, two.buffer
    ensures one.Valid() && two.Valid() && one.msg == two.msg == old(one.msg) + (a + b)
    ensures one.state == two.state && one.count0 == two.count0 && one.count1 == two.count1
    ensures one.buffer[..] == two.buffer[..] <==> SplitUnseen(old(one.buffer[..]), |old(one.msg)| % 64, a, b)
  {
    ghost var buffer, index := one.buffer[..], |one.msg| % 64;
    UpdateAt(one, a + b, index);
    UpdateTwice(two, a, b, index);
    SplitIndependent(one, two);
    StaleBytesDependOnSplit(buffer, index, a, b);
  }

  /** One byte past the new tail in which the blocks first completed differ shows. */
  lemma StaleByteShows(buffer: seq<Byte>, index: nat, a: seq<Byte>, b: seq<Byte>, j: nat)
    requires |buffer| == 64 && index < 64 && |a| >= 64 - index && |b| >= 64 - NextIndex(index, |a|)
    requires NextIndex(index, |a + b|) <= j < 64 && FirstBlock(buffer, index, a)[j] != SecondBlock(index, a, b)[j]
    ensures !SplitUnseen(buffer, index, a, b)
  {
    var r := NextIndex(index, |a + b|);
    assert FirstBlock(buffer, index, a)[r..][j - r] == FirstBlock(buffer, index, a)[j];
    assert SecondBlock(index, a, b)[r..][j - r] == SecondBlock(index, a, b)[j];
  }

  lemma ExactBlock(index: nat, a: seq<Byte>, b: seq<Byte>)
    requires index < 64 && |a| == 64 - index && |b| == 65
    ensures NextIndex(index, |a|) == 0 && NextIndex(index, |a + b|) == 1
    ensures SecondBlock(index, a, b) == b[..64]
  {
    DivUnique(index + |a|, 64, 1, 0);
    DivUnique(index + |a + b|, 64, 2, 1);
    NextIsEnd(index, |a|);
  }

  /**
   * A split that is seen, whatever the index: one that completes a block, and then 65 bytes
   * that differ from that block after its first byte.
   */
  lemma SeenSplit(buffer: seq<Byte>, index: nat, a: seq<Byte>, b: seq<Byte>, j: nat)
    requires |buffer| == 64 && index < 64 && |a| == 64 - index && |b| == 65
    requires 1 <= j < 64 && (buffer[..index] + a)[j] != b[j]
    ensures !SplitUnseen(buffer, index, a, b)
  {
    ExactBlock(index, a, b);
    assert FirstBlock(buffer, index, a) == buffer[..index] + a;
    StaleByteShows(buffer, index, a, b, j);
  }

  /** Such a split on two contexts alike: their buffers then differ, and nothing else does. */
  method SplitSeen(one: Md5, two: Md5, a: seq<Byte>, b: seq<Byte>, ghost j: nat)
    requires one != two && one.buffer != two.buffer && one.Valid() && two.Valid()
    requires one.f == two.f && one.h0 == two.h0 && one.msg == two.msg && one.buffer[..] == two.buffer[..]
    requires |a| + |one.msg| % 64 == 64 && |b| == 65
    requires 1 <= j < 64 && (one.buffer[..|one.msg| % 64] + a)[j] != b[j]
    modifies one, two, one.buffer, two.buffer
    ensures one.Valid() && two.Valid() && one.msg == two.msg == old(one.msg) + (a + b)
    ensures one.state == two.state && one.buffer[..] != two.buffer[..]
  {
    ghost var buffer, index := one.buffer[..], |one.msg| % 64;
    assert buffer[..index] == one.buffer[..index];
    SeenSplit(buffer, index, a, b, j);
    SplitUpdate(one, two, a, b);
  }

  /** So it is with contexts fresh from the constructor and 64 and 65 bytes. */
  method FreshContextsDiffer(f: Compress, seed: Word, a: seq<Byte>, b: seq<Byte>, ghost j: nat) returns (one: Md5, two: Md5)
    requires |a| == 64 && |b| == 65 && 1 <= j < 64 && a[j] != b[j]
    ensures fresh(one) && fresh(two) && one.Valid() && two.Valid() && one.msg == two.msg == a + b
    ensures one.state == two.state && one.buffer[..] != two.buffer[..]
  {
    one := new Md5(f, seed);
    two := new Md5(f, seed);
    NothingYet(one.msg, one.buffer[..], a, a + b);
    SplitSeen(one, two, a, b, j);
  }

  lemma NothingYet(msg: seq<Byte>, buffer: seq<Byte>, a: seq<Byte>, c: seq<Byte>)
    requires msg == [] && |buffer| == 64
    ensures |msg| % 64 == 0 && buffer[..|msg| % 64] + a == a && msg + c == c
  {
  }
}
