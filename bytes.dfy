/** Unsigned little-endian integer encoding, as done by Python's
    `int.to_bytes(n, 'little')`: the value must fit in n bytes and must not
    be negative, otherwise the call raises instead of wrapping. */
module Bytes {

  import opened Wrappers

  type byte = x: int | 0 <= x < 256

  type Bytes = seq<byte>

  /** A SHA-256 digest: always 32 bytes. */
  type Digest = d: Bytes | |d| == 32 witness seq(32, _ => 0)

  /** 256^n, the number of values that fit in n bytes. */
  function Pow256(n: nat): (r: nat)
    ensures r >= 1
    ensures n > 0 ==> r >= 256
  {
    if n == 0 then 1 else 256 * Pow256(n - 1)
  }

  /** More bytes hold more values. */
  lemma {:induction false} Pow256Monotone(m: nat, n: nat)
    requires m <= n
    ensures Pow256(m) <= Pow256(n)
  {
    if m < n {
      Pow256Monotone(m, n - 1);
    }
  }

  /** The n least significant bytes of v, least significant first. */
  function LittleEndian(v: nat, n: nat): (r: Bytes)
    ensures |r| == n
  {
    if n == 0 then [] else [(v % 256) as byte] + LittleEndian(v / 256, n - 1)
  }

  /** The value of a little-endian byte string. */
  function FromLittleEndian(b: Bytes): (v: nat)
    ensures v < Pow256(|b|)
  {
    if |b| == 0 then 0 else b[0] + 256 * FromLittleEndian(b[1..])
  }

  /** `v.to_bytes(n, 'little')`: None stands for the OverflowError that
      Python raises for a negative value or one that needs more than n bytes. */
  function ToBytes(v: int, n: nat): (r: Option<Bytes>)
    ensures r.Some? <==> 0 <= v < Pow256(n)
    ensures r.Some? ==> |r.value| == n
  {
    if 0 <= v < Pow256(n) then Some(LittleEndian(v, n)) else None
  }

  /** Decoding the encoding gives the value back, whenever it fits. */
  lemma {:induction false} FromToLittleEndian(v: nat, n: nat)
    requires v < Pow256(n)
    ensures FromLittleEndian(LittleEndian(v, n)) == v
  {
    if n > 0 {
      FromToLittleEndian(v / 256, n - 1);
      assert LittleEndian(v, n)[1..] == LittleEndian(v / 256, n - 1);
    }
  }

  /** Encoding a decoded byte string gives the same bytes back. */
  lemma {:induction false} ToFromLittleEndian(b: Bytes)
    ensures LittleEndian(FromLittleEndian(b), |b|) == b
  {
    if |b| > 0 {
      var rest := FromLittleEndian(b[1..]);
      ToFromLittleEndian(b[1..]);
      assert (b[0] + 256 * rest) % 256 == b[0];
      assert (b[0] + 256 * rest) / 256 == rest;
    }
  }

  /** The least significant byte comes first. */
  lemma LeastSignificantFirst(v: int, n: nat)
    requires 0 <= v < Pow256(n) && n > 0
    ensures ToBytes(v, n).Some? && ToBytes(v, n).value[0] == v % 256
  {
  }

  /** A 32-bit nonce field: every value from 0 to 2^32 - 1 is encoded, the
      value 2^32 (and anything beyond) raises rather than wrapping to 0. */
  lemma NonceFieldRange(v: int)
    ensures ToBytes(v, 4).Some? <==> 0 <= v < 0x1_0000_0000
  {
    assert Pow256(4) == 0x1_0000_0000;
  }
}
