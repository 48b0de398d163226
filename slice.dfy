/**
 * `slice` (enclib.h:4-12): copy src[start..end) into dst as a C string. A
 * NULL pointer is modelled as None (for src) or null (for dst).
 */
module Slices {
  import opened Wrappers
  import opened CText

  /** The text slice leaves in dst: "" when src is NULL or the range is empty. */
  function Sliced(src: Option<seq<byte>>, start: nat, end: nat): (r: seq<byte>)
    requires src.Some? && start < end ==> end <= |src.value|
    ensures |r| == if src.Some? && start < end then end - start else 0
  {
    if src.None? || start >= end then [] else src.value[start..end]
  }

  /** A slice of a C string is a C string. */
  lemma SliceOfCString(src: CStr, start: nat, end: nat)
    requires start < end <= |src|
    ensures forall k | 0 <= k < |Sliced(Some(src), start, end)| :: Sliced(Some(src), start, end)[k] != 0
  {
    forall k | 0 <= k < end - start
      ensures Sliced(Some(src), start, end)[k] != 0
    {
      assert Sliced(Some(src), start, end)[k] == src[start + k];
    }
  }

  /**
   * slice: with a non-NULL dst, the bytes src[start..end) followed by a NUL
   * (just the NUL for a NULL src or an empty range); nothing else in dst
   * changes. With a NULL dst nothing happens.
   */
  method Slice(src: Option<seq<byte>>, dst: array?<byte>, start: nat, end: nat)
    requires dst != null ==> 0 < dst.Length
    requires src.Some? && start < end ==> end <= |src.value|
    requires dst != null && src.Some? && start < end ==> end - start < dst.Length
    modifies dst
    ensures dst != null ==> forall k | 0 <= k < |Sliced(src, start, end)| :: dst[k] == Sliced(src, start, end)[k]
    ensures dst != null ==> dst[|Sliced(src, start, end)|] == 0
    ensures dst != null ==> forall k | |Sliced(src, start, end)| < k < dst.Length :: dst[k] == old(dst[k])
  {
    if src.None? || dst == null || start >= end {
      if dst != null {
        dst[0] := 0;
      }
      return;
    }
    var length := end - start;
    forall k | 0 <= k < length {
      dst[k] := src.value[start + k];
    }
    dst[length] := 0;
  }
}
