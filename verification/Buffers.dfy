/** Device buffers as the host sees them, and the plain option type. */
module Buffers {
  import opened Blocks

  datatype Option<+T> = None | Some(value: T)

  /** The access flags a buffer was created with. */
  datatype Access = ReadWrite | ReadOnly | WriteOnly

  /** A buffer of whole elements; bytes that do not make up an element do not matter to any check. */
  datatype Buffer<V> = Buffer(data: array<V>, access: Access)

  /** The largest element type is a vector of sixteen 8-byte numbers (src/core.cpp:204-207). */
  const MAX_ELEMENT_SIZE: nat := 128

  /** The range check of the sort and the scan: buffer and range are compared in bytes, and the size of the
      range is a product in size_t. */
  predicate LargeEnough(length: nat, elements: nat, size: nat) {
    elements * size % SIZE_RANGE <= length * size
  }

  /** Every range that fits passes; one that does not fit passes exactly if the product wraps far enough. */
  lemma LargeEnoughExactly(length: nat, elements: nat, size: nat)
    requires size > 0 && length * size < SIZE_RANGE
    ensures LargeEnough(length, elements, size) <==>
            elements <= length || (elements * size >= SIZE_RANGE && elements * size % SIZE_RANGE <= length * size)
  {
    MultiplesApart(length, elements, size);
    MultiplesApart(elements, length, size);
  }

  /** The check is right for all ranges whose number of elements fits a cl_uint. */
  lemma LargeEnoughShort(length: nat, elements: nat, size: nat)
    requires 0 < size <= MAX_ELEMENT_SIZE && elements < UINT_RANGE
    ensures LargeEnough(length, elements, size) <==> elements <= length
  {
    MultiplesApart(length, elements, size);
    MultiplesApart(elements, length, size);
    MulMono(size, MAX_ELEMENT_SIZE, elements);
  }

  /** 2^62 + 1 elements of four bytes pass as one element. */
  lemma LongRangePasses()
    ensures LargeEnough(1, 0x4000_0000_0000_0001, 4)
  {
  }
}
