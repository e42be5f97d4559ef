/** Unsigned integers laid out in memory, least significant byte first. */
module LittleEndian {
  type Byte = b: int | 0 <= b < 256

  function Pow256(k: nat): (r: nat)
    ensures r > 0
  {
    if k == 0 then 1 else 256 * Pow256(k - 1)
  }

  /** The k low bytes of n. */
  function Encode(n: nat, k: nat): (s: seq<Byte>)
    ensures |s| == k
  {
    if k == 0 then [] else [n % 256] + Encode(n / 256, k - 1)
  }

  function Decode(s: seq<Byte>): nat {
    if s == [] then 0 else s[0] + 256 * Decode(s[1..])
  }

  lemma {:induction false} RoundTrip(n: nat, k: nat)
    requires n < Pow256(k)
    ensures Decode(Encode(n, k)) == n
  {
    if k > 0 {
      RoundTrip(n / 256, k - 1);
      assert Encode(n, k)[1..] == Encode(n / 256, k - 1);
    }
  }

  /** Low bytes followed by high bytes. */
  lemma {:induction false} EncodeConcat(low: nat, high: nat, j: nat, k: nat)
    requires low < Pow256(j)
    ensures Encode(low, j) + Encode(high, k) == Encode(low + Pow256(j) * high, j + k)
  {
    if j > 0 {
      TakeByte(low, Pow256(j - 1), high);
      EncodeConcat(low / 256, high, j - 1, k);
    }
  }

  lemma TakeByte(low: nat, p: nat, high: nat)
    ensures var n := low + 256 * p * high; n >= 0 && n % 256 == low % 256 && n / 256 == low / 256 + p * high
  {
    assert 256 * p * high == 256 * (p * high);
  }

  lemma {:induction false} DecodeZeros(s: seq<Byte>)
    requires forall i :: 0 <= i < |s| ==> s[i] == 0
    ensures Decode(s) == 0
  {
    if s != [] {
      DecodeZeros(s[1..]);
    }
  }

  lemma Pow256Of4()
    ensures Pow256(4) == 0x1_0000_0000
  {
    assert Pow256(1) == 256 && Pow256(2) == 65536 && Pow256(3) == 16777216;
  }

  lemma Pow256Of8()
    ensures Pow256(8) == 0x1_0000_0000_0000_0000
  {
    Pow256Of4();
    assert Pow256(5) == 0x100_0000_0000 && Pow256(6) == 0x1_0000_0000_0000;
    assert Pow256(7) == 0x100_0000_0000_0000;
  }
}
