/** The allocator size bound: the largest element count an allocator hands out
    is the maximum value of its (unsigned, `bits`-wide) size type divided by the
    element size, so that a request for that many elements has a byte count
    the size type can hold. */
module Allocators {

  function Pow2(n: nat): (r: nat)
    ensures 1 <= r
  {
    if n == 0 then 1 else 2 * Pow2(n - 1)
  }

  /** `numeric_limits<size_type>::max()` for an unsigned size type of `bits` bits. */
  function SizeTypeMax(bits: nat): nat
  {
    Pow2(bits) - 1
  }

  /** Multiplication in the size type: unsigned arithmetic wraps modulo 2^bits. */
  function SizeTypeMul(a: nat, b: nat, bits: nat): (r: nat)
    ensures r < Pow2(bits)
  {
    (a * b) % Pow2(bits)
  }

  /** `allocator_traits<A>::max_size(alloc)`, with `elemSize` standing for
      `sizeof(value_type)` (never zero in C++). The result is the greatest
      count whose byte size fits in the size type. */
  function MaxSize<A>(alloc: A, bits: nat, elemSize: nat): (r: nat)
    requires 1 <= elemSize
    ensures r * elemSize <= SizeTypeMax(bits)
    ensures SizeTypeMax(bits) < (r + 1) * elemSize
  {
    SizeTypeMax(bits) / elemSize
  }

  /** Asking for `max_size` elements never overflows the byte count: the
      size-type product equals the true product. */
  lemma MaxSizeBytesDoNotWrap<A>(alloc: A, bits: nat, elemSize: nat)
    requires 1 <= elemSize
    ensures SizeTypeMul(MaxSize(alloc, bits, elemSize), elemSize, bits)
            == MaxSize(alloc, bits, elemSize) * elemSize
  {
    var m := MaxSize(alloc, bits, elemSize);
    SmallMod(m * elemSize, Pow2(bits));
  }

  /** One element more than `max_size` does not fit: its true byte count
      exceeds the size type, so the size-type product would wrap. */
  lemma MaxSizeIsLargest<A>(alloc: A, bits: nat, elemSize: nat)
    requires 1 <= elemSize
    ensures (MaxSize(alloc, bits, elemSize) + 1) * elemSize >= Pow2(bits)
    ensures forall k: nat :: k * elemSize <= SizeTypeMax(bits) ==> k <= MaxSize(alloc, bits, elemSize)
  {
    var m := MaxSize(alloc, bits, elemSize);
    forall k: nat | k * elemSize <= SizeTypeMax(bits)
      ensures k <= m
    {
      if k > m {
        MulMonotone(m + 1, k, elemSize);
      }
    }
  }

  /** The allocator instance does not matter, only the element size. */
  lemma MaxSizeIgnoresAllocator<A>(a1: A, a2: A, bits: nat, elemSize: nat)
    requires 1 <= elemSize
    ensures MaxSize(a1, bits, elemSize) == MaxSize(a2, bits, elemSize)
  {
  }

  /** Byte-sized elements may use the whole size type, and larger elements
      never allow more of them. */
  lemma MaxSizeByElementSize<A>(alloc: A, bits: nat, e1: nat, e2: nat)
    requires 1 <= e1 <= e2
    ensures MaxSize(alloc, bits, 1) == SizeTypeMax(bits)
    ensures MaxSize(alloc, bits, e2) <= MaxSize(alloc, bits, e1)
  {
    var m2 := MaxSize(alloc, bits, e2);
    MulMonotone(e1, e2, m2);
    assert m2 * e1 <= m2 * e2;
    MaxSizeIsLargest(alloc, bits, e1);
  }

  lemma SmallMod(x: nat, m: nat)
    requires x < m
    ensures x % m == x
  {
  }

  lemma MulMonotone(a: nat, b: nat, c: nat)
    requires a <= b
    ensures a * c <= b * c
  {
  }
}
