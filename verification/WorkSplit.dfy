/** How `parallel_for` divides an index range: one aligned, contiguous piece for every thread. */
module WorkSplit {
  import opened Arith

  function Blocks(n: nat, align: nat): nat
    requires align > 0
  {
    (n + align - 1) / align
  }

  /** The first block of a thread. */
  function FirstBlock(idx: nat, count: nat, n: nat, align: nat): nat
    requires count > 0 && align > 0
  {
    var base, rem := Blocks(n, align) / count, Blocks(n, align) % count;
    idx * base + Min(idx, rem)
  }

  /** The half-open range of a thread. */
  function Split(idx: nat, count: nat, n: nat, align: nat): (nat, nat)
    requires count > 0 && align > 0
  {
    var base, rem := Blocks(n, align) / count, Blocks(n, align) % count;
    var b0 := idx * base + Min(idx, rem);
    var b1 := b0 + base + if idx < rem then 1 else 0;
    ProductNotNegative(b0, align);
    ProductNotNegative(b1, align);
    (Min(b0 * align, n), Min(b1 * align, n))
  }

  lemma BlocksCover(n: nat, align: nat)
    requires align > 0
    ensures n <= Blocks(n, align) * align <= n + align - 1
  {
    var q, r := (n + align - 1) / align, (n + align - 1) % align;
    assert q * align + r == n + align - 1;
  }

  /** A thread's range starts where the range of the one before it ends. */
  lemma SplitIsStaircase(idx: nat, count: nat, n: nat, align: nat)
    requires count > 0 && align > 0
    ensures Split(idx, count, n, align).0 == Min(FirstBlock(idx, count, n, align) * align, n)
    ensures Split(idx, count, n, align).1 == Min(FirstBlock(idx + 1, count, n, align) * align, n)
    ensures FirstBlock(idx, count, n, align) <= FirstBlock(idx + 1, count, n, align)
  {
    NextProduct(idx, Blocks(n, align) / count);
  }

  lemma FirstAndLastBlock(count: nat, n: nat, align: nat)
    requires count > 0 && align > 0
    ensures FirstBlock(0, count, n, align) == 0
    ensures FirstBlock(count, count, n, align) == Blocks(n, align)
  {
    var blocks := Blocks(n, align);
    assert blocks == count * (blocks / count) + blocks % count;
  }

  lemma {:induction false} FirstBlockMonotone(i: nat, j: nat, count: nat, n: nat, align: nat)
    requires count > 0 && align > 0 && i <= j
    ensures FirstBlock(i, count, n, align) <= FirstBlock(j, count, n, align)
    decreases j
  {
    if i < j {
      FirstBlockMonotone(i, j - 1, count, n, align);
      SplitIsStaircase(j - 1, count, n, align);
    }
  }

  ghost predicate Within(k: nat, idx: nat, count: nat, n: nat, align: nat)
    requires count > 0 && align > 0
  {
    Split(idx, count, n, align).0 <= k < Split(idx, count, n, align).1
  }

  /** Some thread's range holds the index. */
  ghost predicate Covered(k: nat, count: nat, n: nat, align: nat)
    requires count > 0 && align > 0
  {
    exists idx: nat :: idx < count && Within(k, idx, count, n, align)
  }

  lemma {:induction false} SomeThreadHas(k: nat, upTo: nat, count: nat, n: nat, align: nat)
    requires count > 0 && align > 0 && k < n
    requires k < FirstBlock(upTo, count, n, align) * align
    ensures exists idx: nat :: idx < upTo && Within(k, idx, count, n, align)
  {
    hide FirstBlock;
    hide Split;
    if upTo == 0 {
      FirstAndLastBlock(count, n, align);
    } else {
      SplitIsStaircase(upTo - 1, count, n, align);
      if k < FirstBlock(upTo - 1, count, n, align) * align {
        SomeThreadHas(k, upTo - 1, count, n, align);
      } else {
        assert Within(k, upTo - 1, count, n, align);
      }
    }
  }

  lemma OneThreadHas(k: nat, i: nat, j: nat, count: nat, n: nat, align: nat)
    requires count > 0 && align > 0
    requires Within(k, i, count, n, align) && Within(k, j, count, n, align)
    ensures i == j
  {
    hide FirstBlock;
    hide Split;
    SplitIsStaircase(i, count, n, align);
    SplitIsStaircase(j, count, n, align);
    if i < j {
      LaterStartsAfter(i, j, count, n, align);
    } else if j < i {
      LaterStartsAfter(j, i, count, n, align);
    }
  }

  lemma LaterStartsAfter(i: nat, j: nat, count: nat, n: nat, align: nat)
    requires count > 0 && align > 0 && i < j
    ensures Split(i, count, n, align).1 <= Split(j, count, n, align).0
  {
    hide FirstBlock;
    hide Split;
    SplitIsStaircase(i, count, n, align);
    SplitIsStaircase(j, count, n, align);
    FirstBlockMonotone(i + 1, j, count, n, align);
    MulMonotone(FirstBlock(i + 1, count, n, align), FirstBlock(j, count, n, align), align);
  }

  /** Every index below n is in the range of exactly one thread, and a range that is not empty
      starts at a multiple of the alignment and ends at one or at n. */
  lemma SplitPartitions(count: nat, n: nat, align: nat)
    requires count > 0 && align > 0
    ensures forall k: nat :: k < n ==> Covered(k, count, n, align)
    ensures forall k: nat, i: nat, j: nat ::
      Within(k, i, count, n, align) && Within(k, j, count, n, align) ==> i == j
    ensures forall i: nat :: Split(i, count, n, align).0 <= Split(i, count, n, align).1 <= n
    ensures forall i: nat :: Split(i, count, n, align).0 < Split(i, count, n, align).1 ==>
      Split(i, count, n, align).0 % align == 0
      && (Split(i, count, n, align).1 % align == 0 || Split(i, count, n, align).1 == n)
  {
    hide FirstBlock;
    hide Split;
    hide Blocks;
    forall k: nat | k < n ensures Covered(k, count, n, align) {
      FirstAndLastBlock(count, n, align);
      BlocksCover(n, align);
      SomeThreadHas(k, count, count, n, align);
    }
    forall k: nat, i: nat, j: nat | Within(k, i, count, n, align) && Within(k, j, count, n, align) ensures i == j {
      OneThreadHas(k, i, j, count, n, align);
    }
    forall i: nat
      ensures Split(i, count, n, align).0 <= Split(i, count, n, align).1 <= n
      ensures Split(i, count, n, align).0 < Split(i, count, n, align).1 ==>
        Split(i, count, n, align).0 % align == 0
        && (Split(i, count, n, align).1 % align == 0 || Split(i, count, n, align).1 == n)
    {
      SplitIsStaircase(i, count, n, align);
      var f, g := FirstBlock(i, count, n, align), FirstBlock(i + 1, count, n, align);
      MulMonotone(f, g, align);
      MultipleOf(f, align);
      MultipleOf(g, align);
    }
  }

  lemma MultipleOf(q: nat, align: nat)
    requires align > 0
    ensures q * align % align == 0
  {
    var d := q * align / align;
    assert q * align == d * align + q * align % align;
    assert (q - d) * align == q * align - d * align;
    MulMonotone(1, q - d, align);
    MulMonotone(q - d, -1, align);
  }

  lemma BlocksOfThread(idx: nat, count: nat, blocks: nat)
    requires idx < count
    ensures (blocks + count - 1 - idx) / count == blocks / count + if idx < blocks % count then 1 else 0
  {
    var base, rem := blocks / count, blocks % count;
    assert blocks == base * count + rem;
    var extra := if idx < rem then 1 else 0;
    NextProduct(base, count);
    QuotientIs(blocks + count - 1 - idx, count, base + extra);
  }

  lemma QuotientIs(v: nat, u: nat, q: nat)
    requires u > 0 && q * u <= v < q * u + u
    ensures v / u == q
  {
    var p := v / u;
    assert v == p * u + v % u;
    MulMonotone(p + 1, q, u);
    MulMonotone(q + 1, p, u);
    NextProduct(p, u);
    NextProduct(q, u);
  }

  /** Every thread has as many blocks as any other, or one more if it comes earlier; the last may be cut short. */
  lemma SplitIsEven(idx: nat, count: nat, n: nat, align: nat)
    requires idx < count && align > 0
    ensures var blocks := (n + align - 1) / align;
      var (begin, end) := Split(idx, count, n, align);
      && end == Min(begin + (blocks + count - 1 - idx) / count * align, n)
      && (idx == 0 ==> begin == 0) && (idx == count - 1 ==> end == n)
  {
    var blocks := Blocks(n, align);
    var f, g := FirstBlock(idx, count, n, align), FirstBlock(idx + 1, count, n, align);
    BlocksOfThread(idx, count, blocks);
    SplitIsStaircase(idx, count, n, align);
    FirstAndLastBlock(count, n, align);
    BlocksCover(n, align);
    NextProduct(idx, blocks / count);
    assert g - f == (blocks + count - 1 - idx) / count;
    hide FirstBlock;
    hide Split;
    hide Blocks;
    SumTimes(f, g - f, align);
    ProductNotNegative(g - f, align);
    ProductNotNegative(f, align);
  }

  lemma SumTimes(a: int, b: int, u: int)
    ensures (a + b) * u == a * u + b * u
  {
  }

  /** No product in the computation exceeds n + align - 1, so machine words hold them all whenever
      they hold that sum. */
  lemma SplitFits(idx: nat, count: nat, n: nat, align: nat)
    requires idx < count && align > 0
    ensures FirstBlock(idx, count, n, align) <= FirstBlock(idx + 1, count, n, align) <= Blocks(n, align)
    ensures FirstBlock(idx + 1, count, n, align) * align <= n + align - 1
  {
    hide FirstBlock;
    hide Blocks;
    SplitIsStaircase(idx, count, n, align);
    FirstBlockMonotone(idx + 1, count, count, n, align);
    FirstAndLastBlock(count, n, align);
    BlocksCover(n, align);
    MulMonotone(FirstBlock(idx + 1, count, n, align), Blocks(n, align), align);
  }
}
