/**
 * Types and arithmetic shared by the two allocators: the error enumeration of
 * the allocator interfaces, machine-word bounds, powers of two and the
 * mask-based rounding the allocators perform on addresses.
 */
module AllocTypes {
  import opened Arith

  /** Largest value of a 64-bit `usize`. */
  const USIZE_MAX: nat := 0xFFFF_FFFF_FFFF_FFFF

  /** The two failures an allocation or an extension can report. */
  datatype AllocError = NoMemory | InvalidParam

  /** Result of a fallible allocator operation. */
  datatype AllocResult<+T> = Ok(value: T) | Err(error: AllocError)

  /** `n` is 1, 2, 4, 8, ...; in particular 0 is not a power of two. */
  predicate IsPowerOfTwo(n: nat)
    decreases n
  {
    n == 1 || (n > 1 && n % 2 == 0 && IsPowerOfTwo(n / 2))
  }

  lemma {:induction false} PowerOfTwoPositive(n: nat)
    requires IsPowerOfTwo(n)
    ensures n >= 1
  {
  }

  /**
   * `x & !(a - 1)` for a power of two `a`: clear the low bits, that is,
   * round `x` down to a multiple of `a`.
   */
  function AlignDown(x: nat, a: nat): (r: nat)
    requires a > 0
    ensures r % a == 0 && r <= x && x < r + a
  {
    ModOfMultiplePlus(a, x / a, 0);
    assert x - x % a == a * (x / a);
    x - x % a
  }

  /** `(x + a - 1) & !(a - 1)`: round `x` up to a multiple of `a`. */
  function AlignUp(x: nat, a: nat): (r: nat)
    requires a > 0
    ensures r % a == 0 && x <= r < x + a
  {
    AlignDown(x + a - 1, a)
  }

  /**
   * `!(m - 1)` on a 64-bit word, `m` a power of two no larger than the word
   * range, is `2^64 - m`; the allocators use it as the mask that rounds down
   * to a multiple of `m`.
   */
  function NotMinusOne(m: nat): (r: nat)
    requires 1 <= m <= USIZE_MAX + 1
  {
    USIZE_MAX - (m - 1)
  }

  /**
   * The page-alignment mask is formed with a plain `*`, and for a page size
   * of two or more that product always exceeds the word: a build with
   * overflow checks panics there on every accepted alignment.
   */
  lemma PageMaskProductOverflows(alignPages: nat, pageSize: nat)
    requires 1 <= alignPages && 2 <= pageSize
    requires alignPages * pageSize <= USIZE_MAX
    ensures NotMinusOne(alignPages) * pageSize > USIZE_MAX
  {
    var W := USIZE_MAX + 1;
    assert NotMinusOne(alignPages) * pageSize == W * pageSize - alignPages * pageSize;
    MulMonotone(W, 2, pageSize);
  }

  /**
   * The page-alignment mask is formed as `!(align_pages - 1) * PAGE_SIZE`
   * with wrap-around; the wrapped product is the mask `!(align_pages *
   * PAGE_SIZE - 1)` of the byte alignment itself, so masking with it rounds
   * down to a multiple of the byte alignment.
   */
  lemma WrappedPageMask(alignPages: nat, pageSize: nat)
    requires 1 <= alignPages && 1 <= pageSize
    requires alignPages * pageSize <= USIZE_MAX
    ensures (NotMinusOne(alignPages) * pageSize) % (USIZE_MAX + 1)
            == NotMinusOne(alignPages * pageSize)
  {
    var W := USIZE_MAX + 1;
    var A := alignPages * pageSize;
    calc {
      NotMinusOne(alignPages) * pageSize;
      (W - alignPages) * pageSize;
      W * pageSize - A;
      W * (pageSize - 1) + (W - A);
    }
    assert 0 <= W - A < W;
    ModOfMultiplePlus(W, pageSize - 1, W - A);
  }
}
