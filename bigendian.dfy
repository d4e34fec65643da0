/**
 * Unsigned big-endian integers of a fixed width, as Python's
 * `int.to_bytes(width, "big")` and `int.from_bytes(bs, "big")` compute them.
 */
module BigEndian {
  import opened Wrappers

  newtype byte = x: int | 0 <= x < 256

  /** 256 to the power n: the number of values `n` bytes can hold. */
  function Pow256(n: nat): (r: nat)
    ensures r > 0
  {
    if n == 0 then 1 else 256 * Pow256(n - 1)
  }

  /** The first value that no longer fits a 4-byte unsigned field. */
  const Uint32Limit: nat := 0x1_0000_0000

  lemma Pow256Four()
    ensures Pow256(4) == Uint32Limit
  {
  }

  /**
   * `int.from_bytes(bs, "big")`: the most significant byte comes first.
   * Only the upper bound is stated here; that the value is never negative is
   * the separate lemma FromBytesNonNegative, so that a caller's own sign
   * test remains a real test in the model.
   */
  function FromBytes(bs: seq<byte>): (r: int)
    ensures r < Pow256(|bs|)
  {
    if bs == [] then 0 else FromBytes(bs[..|bs| - 1]) * 256 + bs[|bs| - 1] as int
  }

  /** An unsigned decode never yields a negative number. */
  lemma {:induction false} FromBytesNonNegative(bs: seq<byte>)
    ensures 0 <= FromBytes(bs)
  {
    if bs != [] {
      FromBytesNonNegative(bs[..|bs| - 1]);
    }
  }

  /**
   * `n.to_bytes(width, "big")`: `width` bytes, most significant first, or
   * None where Python raises OverflowError because `n` does not fit.
   */
  function ToBytes(n: nat, width: nat): (r: Option<seq<byte>>)
    ensures r.Some? <==> n < Pow256(width)
    ensures r.Some? ==> |r.value| == width && FromBytes(r.value) == n
  {
    if width == 0 then
      if n == 0 then Some([]) else None
    else
      match ToBytes(n / 256, width - 1)
      case None => None
      case Some(high) =>
        var bs := high + [(n % 256) as byte];
        assert bs[..|bs| - 1] == high;
        Some(bs)
  }

  /** Decoding and re-encoding at the same width gives back the bytes. */
  lemma {:induction false} ToBytesFromBytes(bs: seq<byte>)
    ensures FromBytes(bs) >= 0 && ToBytes(FromBytes(bs), |bs|) == Some(bs)
  {
    FromBytesNonNegative(bs);
    if bs != [] {
      var high := bs[..|bs| - 1];
      ToBytesFromBytes(high);
      FromBytesNonNegative(high);
      var n := FromBytes(bs);
      assert n / 256 == FromBytes(high) && n % 256 == bs[|bs| - 1] as int;
      assert high + [bs[|bs| - 1]] == bs;
    }
  }

  /** The width-4 field of the envelope: defined exactly below 2^32, and inverted by FromBytes. */
  lemma Uint32RoundTrip(n: nat)
    ensures ToBytes(n, 4).Some? <==> n < Uint32Limit
    ensures n < Uint32Limit ==> FromBytes(ToBytes(n, 4).value) == n
  {
  }
}
