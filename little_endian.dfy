/** Unsigned little-endian integers, as `struct.unpack('<Q', ...)` reads them. */
module LittleEndian {
  import opened Types

  /** 2^64: one more than the largest unsigned 64-bit value. */
  const U64Limit: nat := 0x1_0000_0000_0000_0000

  function Pow256(k: nat): (p: nat)
    ensures p >= 1
  {
    if k == 0 then 1 else 256 * Pow256(k - 1)
  }

  lemma EightBytesSpanU64()
    ensures Pow256(8) == U64Limit
  {
  }

  /** The value bs[0] + 256 * bs[1] + 256^2 * bs[2] + ... */
  function FromLittleEndian(bs: seq<Byte>): (n: nat)
    ensures n < Pow256(|bs|)
  {
    if |bs| == 0 then 0
    else
      var rest := FromLittleEndian(bs[1..]);
      assert rest + 1 <= Pow256(|bs| - 1);
      assert 256 * (rest + 1) <= 256 * Pow256(|bs| - 1);
      bs[0] + 256 * rest
  }

  /** The k-byte little-endian encoding of n. */
  function ToLittleEndian(n: nat, k: nat): (bs: seq<Byte>)
    requires n < Pow256(k)
    ensures |bs| == k
    ensures FromLittleEndian(bs) == n
  {
    if k == 0 then []
    else
      assert n / 256 < Pow256(k - 1);
      var bs := [n % 256] + ToLittleEndian(n / 256, k - 1);
      assert bs[1..] == ToLittleEndian(n / 256, k - 1);
      bs
  }

  /** Decoding loses nothing: re-encoding the value at the same width gives the bytes back. */
  lemma {:induction false} ToFromLittleEndian(bs: seq<Byte>)
    ensures ToLittleEndian(FromLittleEndian(bs), |bs|) == bs
  {
    if |bs| > 0 {
      var rest := FromLittleEndian(bs[1..]);
      var n := bs[0] + 256 * rest;
      assert n % 256 == bs[0];
      assert n / 256 == rest;
      ToFromLittleEndian(bs[1..]);
    }
  }
}
