/** Bytes, and what byte strings of several formats share. */
module Bytes {
  type Byte = b: int | 0 <= b < 256

  /** The longest entry and attribute name. */
  const MAX_NAME := 255

  /** Buffers that agree up to a point agree on every slice before it. */
  lemma SliceBefore(a: seq<Byte>, b: seq<Byte>, end: nat, i: nat, j: nat)
    requires i <= j <= end <= |a| == |b| && a[..end] == b[..end]
    ensures a[i..j] == b[i..j]
  {
    assert a[i..j] == a[..end][i..j] && b[i..j] == b[..end][i..j];
  }
}
