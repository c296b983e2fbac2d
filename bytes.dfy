/** Fixed-width unsigned integers and the little-endian byte codec of Rust's
    `from_le_bytes` / `to_le_bytes`. */
module Bytes {

  newtype u8 = x: int | 0 <= x < 0x100
  newtype u16 = x: int | 0 <= x < 0x1_0000

  /** One more than the largest usize, on a 64-bit target. */
  const USIZE_BOUND: nat := 0x1_0000_0000_0000_0000

  /** 256 to the power n: the number of values n bytes can hold. */
  function Pow256(n: nat): (p: nat)
    ensures p >= 1
  {
    if n == 0 then 1 else 0x100 * Pow256(n - 1)
  }

  lemma Pow256Values()
    ensures Pow256(2) == 0x1_0000 && Pow256(4) == 0x1_0000_0000
    ensures Pow256(8) == 0x1_0000_0000_0000_0000
  {
    assert Pow256(1) == 0x100;
    assert Pow256(2) == 0x1_0000;
    assert Pow256(3) == 0x100_0000;
    assert Pow256(4) == 0x1_0000_0000;
    assert Pow256(6) == 0x1_0000_0000_0000 by { assert Pow256(5) == 0x100_0000_0000; }
    assert Pow256(8) == 0x1_0000_0000_0000_0000 by { assert Pow256(7) == 0x100_0000_0000_0000; }
  }

  /** The unsigned integer whose little-endian encoding is b
      (`u32::from_le_bytes` for |b| == 4, `u64::from_le_bytes` for |b| == 8). */
  function FromLE(b: seq<u8>): (v: nat)
    ensures v < Pow256(|b|)
  {
    if b == [] then 0 else b[0] as nat + 0x100 * FromLE(b[1..])
  }

  /** The n-byte little-endian encoding of v modulo 256^n (`to_le_bytes`). */
  function ToLE(v: nat, n: nat): (b: seq<u8>)
    ensures |b| == n
  {
    if n == 0 then [] else [(v % 0x100) as u8] + ToLE(v / 0x100, n - 1)
  }

  function U32LE(b: seq<u8>, off: nat): (v: nat)
    requires off + 4 <= |b|
    ensures v < 0x1_0000_0000
  {
    Pow256Values();
    FromLE(b[off..off + 4])
  }

  function U64LE(b: seq<u8>, off: nat): (v: nat)
    requires off + 8 <= |b|
    ensures v < 0x1_0000_0000_0000_0000
  {
    Pow256Values();
    FromLE(b[off..off + 8])
  }

  /** Decoding an encoding gives the value back when it fits in n bytes. */
  lemma {:induction false} FromToLE(v: nat, n: nat)
    requires v < Pow256(n)
    ensures FromLE(ToLE(v, n)) == v
  {
    if n > 0 {
      var b := ToLE(v, n);
      assert b[1..] == ToLE(v / 0x100, n - 1);
      FromToLE(v / 0x100, n - 1);
    }
  }

  /** Encoding a decoded value gives the same bytes back: every byte string is
      the encoding of exactly one value. */
  lemma {:induction false} ToFromLE(b: seq<u8>)
    ensures ToLE(FromLE(b), |b|) == b
  {
    if b != [] {
      var v := FromLE(b);
      assert v % 0x100 == b[0] as nat;
      assert v / 0x100 == FromLE(b[1..]);
      ToFromLE(b[1..]);
    }
  }

  /** The decoding of a 4-byte field agrees with the explicit formula
      b0 + 2^8 b1 + 2^16 b2 + 2^24 b3. */
  lemma U32LEBytes(b: seq<u8>, off: nat)
    requires off + 4 <= |b|
    ensures U32LE(b, off) == b[off] as nat + 0x100 * b[off + 1] as nat
                             + 0x1_0000 * b[off + 2] as nat + 0x100_0000 * b[off + 3] as nat
  {
    var w := b[off..off + 4];
    assert FromLE(w[1..][1..][1..]) == w[3] as nat by { assert w[1..][1..][1..][1..] == []; }
    assert FromLE(w[1..][1..]) == w[2] as nat + 0x100 * w[3] as nat;
    assert FromLE(w[1..]) == w[1] as nat + 0x100 * w[2] as nat + 0x1_0000 * w[3] as nat;
  }
}
