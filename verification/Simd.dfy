/** Vectors as sequences of lanes, and the searches built on them (src/simd/index_of.h). */
module Simd {
  import opened Basics

  /** The lanes of a byte vector: one on the scalar target, otherwise a count that can be quartered. */
  predicate IsLaneCount(n: nat) {
    n == 1 || (n > 0 && n % 4 == 0)
  }

  /** The lane-wise comparison of `v` with a vector that holds `needle` in every lane. */
  function Eq<T(==)>(needle: T, v: seq<T>): (mask: seq<bool>)
    ensures |mask| == |v|
    ensures forall i :: 0 <= i < |v| ==> mask[i] == (needle == v[i])
  {
    seq(|v|, i requires 0 <= i < |v| => needle == v[i])
  }

  /** The least true lane, or -1. */
  function FindFirstTrue(mask: seq<bool>): (r: int)
    ensures -1 <= r < |mask|
    ensures r >= 0 ==> mask[r]
    ensures forall i :: 0 <= i < (if r < 0 then |mask| else r) ==> !mask[i]
  {
    if mask == [] then -1
    else if mask[0] then 0
    else
      var r := FindFirstTrue(mask[1..]);
      if r < 0 then -1 else r + 1
  }

  function IndexOfChunk<T(==)>(needle: T, v: seq<T>): (r: Option<nat>)
    ensures r.Some? ==> r.value < |v| && v[r.value] == needle && needle !in v[..r.value]
    ensures r.None? ==> needle !in v
  {
    var pos := FindFirstTrue(Eq(needle, v));
    if pos >= 0 then Some(pos) else None
  }

  /** The first occurrence of `needle`, or the length: the same answer for every lane count. */
  method IndexOf<T(==)>(lanes: nat, needle: T, input: seq<T>) returns (r: nat)
    requires lanes > 0
    ensures r <= |input| && needle !in input[..r]
    ensures r < |input| ==> input[r] == needle
  {
    var i := 0;
    while i + lanes <= |input|
      invariant i <= |input| && needle !in input[..i]
    {
      var pos := IndexOfChunk(needle, input[i..i + lanes]);
      if pos.Some? {
        assert forall k :: i <= k < i + pos.value ==> input[k] == input[i..i + lanes][..pos.value][k - i];
        return i + pos.value;
      }
      assert forall k :: i <= k < i + lanes ==> input[k] == input[i..i + lanes][k - i];
      i := i + lanes;
    }
    while i < |input|
      invariant i <= |input| && needle !in input[..i]
    {
      if FindFirstTrue(Eq(needle, [input[i]])) == 0 {
        return i;
      }
      i := i + 1;
    }
    return |input|;
  }
}
