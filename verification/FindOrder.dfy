/** find_order of lab4/kern/mm/kmalloc.c, and the sizes for which its answer is too small. */
module FindOrder {
  import opened Logarithms

  const PAGE_SIZE := 4096

  function Order(size: int): nat
    decreases if size > PAGE_SIZE then size else 0
  {
    if size > PAGE_SIZE then 1 + Order(size / 2) else 0
  }

  method ComputeOrder(size: int) returns (order: nat)
    ensures order == Order(size)
  {
    order := 0;
    var left := size;
    while left > PAGE_SIZE
      invariant order + Order(left) == Order(size)
      decreases if left > PAGE_SIZE then left else 0
    {
      left := left / 2;
      order := order + 1;
    }
  }

  /** What the kernel gets: the size as an int of 32 bits. */
  function AsInt(size: nat): int
    requires size < 0x1_0000_0000
  {
    if size < 0x8000_0000 then size else size - 0x1_0000_0000
  }

  lemma {:induction false} OrderBounds(size: nat)
    ensures size < 4097 * Pow2(Order(size))
    ensures Order(size) > 0 ==> 4097 * Pow2(Order(size) - 1) <= size
  {
    if size > PAGE_SIZE {
      OrderBounds(size / 2);
    }
  }

  /** The sizes just above a power-of-two number of pages. */
  ghost predicate JustAbove(size: int, k: nat) {
    PAGE_SIZE * Pow2(k) < size < 4097 * Pow2(k)
  }

  lemma {:induction false} Pow2Steps(j: nat, k: nat)
    requires j < k
    ensures 2 * Pow2(j) <= Pow2(k)
  {
    if j < k - 1 {
      Pow2Steps(j, k - 1);
    }
  }

  lemma JustAboveOrder(size: nat, k: nat)
    requires k > 0 && JustAbove(size, k)
    ensures Order(size) == k
  {
    OrderBounds(size);
    var o := Order(size);
    if o < k {
      Pow2Steps(o, k);
    } else if o > k {
      if k < o - 1 { Pow2Steps(k, o - 1); }
    }
  }

  /**
    The pages that kmalloc gets cover the size asked for exactly when the size is not just
    above a power of two of at least two pages, and fits an int.
   */
  lemma OrderCovers(size: nat)
    requires size < 0x1_0000_0000
    ensures size <= PAGE_SIZE * Pow2(Order(AsInt(size)))
            <==> size < 0x8000_0000 && !(exists k: nat | k > 0 :: JustAbove(size, k))
  {
    if size >= 0x8000_0000 {
      assert Order(AsInt(size)) == 0;
    } else {
      var o := Order(size);
      OrderBounds(size);
      if size > PAGE_SIZE * Pow2(o) {
        assert JustAbove(size, o);
      } else if k: nat :| k > 0 && JustAbove(size, k) {
        JustAboveOrder(size, k);
      }
    }
  }

  /** A request for 8193 bytes gets two pages. */
  lemma OneByteShort()
    ensures PAGE_SIZE * Pow2(Order(8193)) == 8192
  {
    assert Order(8193) == 1 + Order(4096);
  }
}
