/**
 The growable position array every matcher fills: a block of `l` slots of which the
 first `c` hold match offsets. It starts with DEFAULT_LEN zeroed slots and is
 re-allocated REALLOC_INC slots larger whenever `c + 1 >= l` before a write.
 */
module PositionBuffer {

  const DefaultLen: nat := 32
  const ReallocInc: nat := 8

  /** `slots` is the allocated block (`|slots|` is the capacity `l`), `count` is `c`. */
  datatype PosArray = PosArray(slots: seq<int>, count: nat)

  /** The capacity invariant: the next write index `c` lies inside the block, and
      the block is never more than REALLOC_INC slots ahead of the count (beyond the
      initial DEFAULT_LEN). */
  predicate Valid(b: PosArray) {
    b.count < |b.slots| <= Max(DefaultLen, b.count + ReallocInc)
  }

  function Max(x: int, y: int): int {
    if x < y then y else x
  }

  /** The recorded offsets, in the order they were written. */
  function Items(b: PosArray): seq<int>
    requires b.count <= |b.slots|
  {
    b.slots[..b.count]
  }

  /** Every slot past the count holds 0. `calloc` zeroes the initial block; the
      slots `realloc` adds are indeterminate in C and are modelled as 0. */
  ghost predicate Zeroed(b: PosArray)
    requires b.count <= |b.slots|
  {
    b.slots[b.count..] == seq(|b.slots| - b.count, _ => 0)
  }

  /** A fresh array: `calloc(sizeof(size_t), DEFAULT_LEN)`. */
  function Empty(): (b: PosArray)
    ensures Valid(b) && Zeroed(b) && Items(b) == []
    ensures |b.slots| == DefaultLen
  {
    PosArray(seq(DefaultLen, _ => 0), 0)
  }

  /** `if ((c + 1) >= l) { l += REALLOC_INC; realloc } (*pos_array)[c++] = x;`
      The grown slots are modelled as zero. `search_file` reads slots past the
      count when kmp reports more offsets than another matcher. */
  function Append(b: PosArray, x: int): (b': PosArray)
    requires Valid(b)
    ensures Valid(b')
    ensures Items(b') == Items(b) + [x]
    ensures Zeroed(b) ==> Zeroed(b')
    ensures |b'.slots| == |b.slots| || |b'.slots| == |b.slots| + ReallocInc
    ensures |b'.slots| == |b.slots| + ReallocInc <==> b.count + 1 >= |b.slots|
  {
    var slots := if b.count + 1 >= |b.slots| then b.slots + seq(ReallocInc, _ => 0) else b.slots;
    PosArray(slots[b.count := x], b.count + 1)
  }
}
