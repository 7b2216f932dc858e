/** The attribute histogram of the PKD geometry: the global [lo, hi] scan
    over the per-particle attribute and `getAttributeBits`, which maps one
    attribute value to a one-hot 32-bit bin mask (PKDGeometry.cpp). */
module AttributeBins {
  import opened Boxes

  /** Number of histogram bins, one per bit of a 32-bit mask. */
  const NumBins: nat := 32
  /** 2^31: the first value a C `int` cannot hold. */
  const IntLimit: real := 2147483648.0

  /** C's float-to-int conversion, which truncates toward zero. */
  function TruncToInt(x: real): (i: int)
    ensures 0.0 <= x ==> i as real <= x < i as real + 1.0
    ensures x < 0.0 ==> i as real - 1.0 < x <= i as real
  {
    if 0.0 <= x then x.Floor else -((-x).Floor)
  }

  /** Where `v` falls in [lo, hi] measured in bin widths: 0 at lo, 32 at hi. */
  function Scaled(v: real, lo: real, hi: real): (s: real)
    requires hi != lo
    ensures v == lo ==> s == 0.0
    ensures v == hi ==> s == NumBins as real
  {
    var w := hi - lo;
    assert w / w == 1.0 by { assert w != 0.0; assert (w / w) * w == w; }
    32.0 * ((v - lo) / w)
  }

  /** What `getAttributeBits` demands of its inputs: either the range is a
      single value, or the truncated bin position fits an `int` and is not
      negative, so that the final shift is defined.  Values slightly below
      `lo` pass, because truncation takes (-1, 0) to bin 0. */
  predicate BinDefined(v: real, lo: real, hi: real)
  {
    hi == lo || -1.0 < Scaled(v, lo, hi) < IntLimit
  }

  /** The `bit` of `getAttributeBits`: the truncated bin position, clamped
      above to 31 so that `v == hi` lands in the last bin. */
  function BinIndex(v: real, lo: real, hi: real): (b: nat)
    requires hi != lo && BinDefined(v, lo, hi)
    ensures b < NumBins
    ensures b == 0 <==> Scaled(v, lo, hi) < 1.0
    ensures b == NumBins - 1 <==> Scaled(v, lo, hi) >= (NumBins - 1) as real
    ensures 0.0 <= Scaled(v, lo, hi) ==>
      b as real <= Scaled(v, lo, hi) && (b < NumBins - 1 ==> Scaled(v, lo, hi) < b as real + 1.0)
  {
    var t := TruncToInt(Scaled(v, lo, hi));
    if 31 < t then 31 else t
  }

  /** `getAttributeBits`: the one-hot mask of `v`'s bin; a degenerate range
      (hi == lo) puts every value in bin 0. */
  function GetAttributeBits(v: real, lo: real, hi: real): (bits: bv32)
    requires BinDefined(v, lo, hi)
    ensures bits != 0 && bits & (bits - 1) == 0
    ensures hi == lo ==> bits == 1
  {
    if hi == lo then 1 else BinMask(BinIndex(v, lo, hi))
  }

  /** The one-hot mask `1 << b` of bin `b`. */
  function BinMask(b: nat): (m: bv32)
    requires b < NumBins
    ensures m != 0 && m & (m - 1) == 0
    ensures m == 1 <==> b == 0
    ensures m == 0x8000_0000 <==> b == NumBins - 1
    ensures forall j: bv5 {:trigger m >> j} :: (m >> j) & 1 == 1 <==> j == b as bv5
  {
    (1 as bv32) << (b as bv5)
  }

  /** Within a proper range, the low end maps to bit 0 and the high end to
      bit 31, never to a 33rd bin. */
  lemma BinEndpoints(lo: real, hi: real)
    requires lo < hi
    ensures BinDefined(lo, lo, hi) && GetAttributeBits(lo, lo, hi) == 1
    ensures BinDefined(hi, lo, hi) && GetAttributeBits(hi, lo, hi) == 0x8000_0000
  {
    assert Scaled(lo, lo, hi) == 0.0;
    assert (hi - lo) / (hi - lo) == 1.0;
    assert Scaled(hi, lo, hi) == 32.0;
  }

  /** Every value of the range [lo, hi] can be binned. */
  lemma InRangeBinDefined(v: real, lo: real, hi: real)
    requires lo <= v <= hi
    ensures BinDefined(v, lo, hi)
    ensures hi != lo ==> 0.0 <= Scaled(v, lo, hi) <= 32.0
  {
    if hi != lo {
      var q := (v - lo) / (hi - lo);
      assert q * (hi - lo) == v - lo;
      assert 0.0 <= q <= 1.0;
    }
  }

  /** Bins are ordered like the values: a larger value never falls in a
      lower bin. */
  lemma BinIndexMonotone(v1: real, v2: real, lo: real, hi: real)
    requires lo < hi && lo <= v1 <= v2 <= hi
    ensures BinDefined(v1, lo, hi) && BinDefined(v2, lo, hi)
    ensures BinIndex(v1, lo, hi) <= BinIndex(v2, lo, hi)
  {
    InRangeBinDefined(v1, lo, hi);
    InRangeBinDefined(v2, lo, hi);
    assert (v1 - lo) / (hi - lo) <= (v2 - lo) / (hi - lo);
  }

  /** `[lo, hi]` is the range of the first `n` entries: it holds each of
      them and both ends are attained; with no entries it is the single
      value `attribute[0]`. */
  ghost predicate IsAttributeRange(attribute: seq<real>, n: nat, lo: real, hi: real)
    requires 1 <= |attribute| && n <= |attribute|
  {
    (forall i :: 0 <= i < n ==> lo <= attribute[i] <= hi) &&
    (n == 0 ==> lo == attribute[0] && hi == attribute[0]) &&
    (n > 0 ==> (exists i :: 0 <= i < n && attribute[i] == lo) && (exists j :: 0 <= j < n && attribute[j] == hi))
  }

  /** The range is determined by the data: the scan has a single answer. */
  lemma AttributeRangeUnique(attribute: seq<real>, n: nat, lo1: real, hi1: real, lo2: real, hi2: real)
    requires 1 <= |attribute| && n <= |attribute|
    requires IsAttributeRange(attribute, n, lo1, hi1) && IsAttributeRange(attribute, n, lo2, hi2)
    ensures lo1 == lo2 && hi1 == hi2
  {
    if n > 0 {
      var i1 :| 0 <= i1 < n && attribute[i1] == lo1;
      var i2 :| 0 <= i2 < n && attribute[i2] == lo2;
      var j1 :| 0 <= j1 < n && attribute[j1] == hi1;
      var j2 :| 0 <= j2 < n && attribute[j2] == hi2;
    }
  }

  /** The min/max scan of `finalize`: starting from `attribute[0]`, fold
      `std::min`/`std::max` over the first `n` entries.  Entry 0 is read even
      when `n` is 0, so the attribute data must not be empty. */
  method AttributeRange(attribute: seq<real>, n: nat) returns (lo: real, hi: real)
    requires 1 <= |attribute| && n <= |attribute|
    ensures IsAttributeRange(attribute, n, lo, hi)
  {
    lo, hi := attribute[0], attribute[0];
    var i := 0;
    while i < n
      invariant 0 <= i <= n
      invariant forall k :: 0 <= k < i ==> lo <= attribute[k] <= hi
      invariant exists k :: 0 <= k < (if i == 0 then 1 else i) && attribute[k] == lo
      invariant exists k :: 0 <= k < (if i == 0 then 1 else i) && attribute[k] == hi
    {
      lo := Min(lo, attribute[i]);
      hi := Max(hi, attribute[i]);
      i := i + 1;
    }
  }
}
