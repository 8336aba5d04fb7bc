/**
 * The early allocator: one region `[byte_start, end)` used from both ends.
 * Byte allocations bump `bytePos` upwards, page allocations bump `pagePos`
 * downwards, and the byte area is reclaimed as a whole when the counter of
 * live byte allocations drops to zero.
 *
 *   [ bytes-used | avail-area | pages-used ]
 *   byteStart   bytePos      pagePos      end
 */
module BumpAllocator {
  import opened Arith
  import opened AllocTypes
  import opened Optional

  /**
   * Where the page cursor goes for a request of `total` bytes at byte
   * alignment `align`: `total` below `pagePos`, then down to the alignment;
   * `None` when the subtraction would underflow.
   */
  function PageTarget(pagePos: nat, total: nat, align: nat): (r: Option<nat>)
    requires align > 0
    ensures r.Some? <==> total <= pagePos
    ensures r.Some? ==> r.value % align == 0 && r.value + total <= pagePos < r.value + total + align
  {
    if pagePos < total then None else Some(AlignDown(pagePos - total, align))
  }

  /**
   * For an accepted alignment the wrapped page mask is the byte mask of
   * `alignPow2`, which is positive.
   */
  lemma AcceptedPageMask(alignPow2: nat, pageSize: nat)
    requires IsPowerOfTwo(pageSize) && alignPow2 <= USIZE_MAX
    requires alignPow2 % pageSize == 0 && IsPowerOfTwo(alignPow2 / pageSize)
    ensures alignPow2 > 0
    ensures (NotMinusOne(alignPow2 / pageSize) * pageSize) % (USIZE_MAX + 1) == NotMinusOne(alignPow2)
  {
    var alignPages := alignPow2 / pageSize;
    PowerOfTwoPositive(pageSize);
    PowerOfTwoPositive(alignPages);
    assert alignPow2 == alignPages * pageSize by {
      ExactQuotient(alignPow2, pageSize);
    }
    WrappedPageMask(alignPages, pageSize);
  }

  class EarlyAllocator {
    /** The page size, a configuration constant (a const generic in the source). */
    const pageSize: nat

    var byteStart: nat
    var bytePos: nat
    var pagePos: nat
    var end: nat
    /** Live byte allocations; `Init` seeds it with the region size. */
    var byteCount: nat

    /** The cursor order, every field a machine word, the page size a power of two. */
    ghost predicate Valid()
      reads this
    {
      IsPowerOfTwo(pageSize) && pageSize <= USIZE_MAX &&
      byteStart <= bytePos <= pagePos <= end <= USIZE_MAX &&
      byteCount <= USIZE_MAX
    }

    /** `EarlyAllocator::new`: every cursor and the counter are zero. */
    constructor (pageSize: nat)
      requires IsPowerOfTwo(pageSize) && pageSize <= USIZE_MAX
      ensures this.pageSize == pageSize
      ensures byteStart == 0 && bytePos == 0 && pagePos == 0 && end == 0 && byteCount == 0
      ensures Valid()
    {
      this.pageSize := pageSize;
      byteStart, bytePos, pagePos, end, byteCount := 0, 0, 0, 0, 0;
    }

    /**
     * Hand the allocator the region `[start, start + size)`. The live-byte
     * counter is set to `size`, not to zero.
     */
    method Init(start: nat, size: nat)
      requires Valid()
      requires start + size <= USIZE_MAX
      modifies this
      ensures Valid()
      ensures byteStart == start && bytePos == start
      ensures pagePos == start + size && end == start + size
      ensures byteCount == size
    {
      byteStart := start;
      bytePos := start;
      pagePos := start + size;
      end := start + size;
      byteCount := size;
    }

    /**
     * Byte allocation: round `bytePos` up to `align` and advance it by
     * `size`, unless that would overflow the word or cross `pagePos`.
     */
    method Alloc(size: nat, align: nat) returns (r: AllocResult<nat>)
      requires Valid()
      requires IsPowerOfTwo(align) && size <= USIZE_MAX
      requires bytePos + align <= USIZE_MAX
      requires AlignUp(bytePos, align) + size <= pagePos ==> byteCount < USIZE_MAX
      modifies this
      ensures Valid()
      ensures byteStart == old(byteStart) && pagePos == old(pagePos) && end == old(end)
      ensures var a := AlignUp(old(bytePos), align);
              if a + size <= old(pagePos) then
                r == Ok(a) && bytePos == a + size && byteCount == old(byteCount) + 1
              else
                r == Err(NoMemory) && bytePos == old(bytePos) && byteCount == old(byteCount)
      ensures r.Ok? ==> r.value % align == 0 && old(bytePos) <= r.value && r.value + size <= pagePos
    {
      var alignedPos := AlignUp(bytePos, align);
      if alignedPos + size > USIZE_MAX {
        return Err(NoMemory);
      }
      var nextPos := alignedPos + size;
      if nextPos > pagePos {
        return Err(NoMemory);
      }
      bytePos := nextPos;
      byteCount := byteCount + 1;
      return Ok(alignedPos);
    }

    /**
     * Byte release: the address and size are ignored; the counter drops by
     * one and, when it reaches zero, the whole byte area is reclaimed.
     */
    method Dealloc(ptr: nat, size: nat)
      requires Valid()
      modifies this
      ensures Valid()
      ensures byteStart == old(byteStart) && pagePos == old(pagePos) && end == old(end)
      ensures old(byteCount) == 0 ==> byteCount == 0 && bytePos == old(bytePos)
      ensures old(byteCount) > 0 ==> byteCount == old(byteCount) - 1
      ensures old(byteCount) > 0 ==> bytePos == if byteCount == 0 then byteStart else old(bytePos)
    {
      if byteCount > 0 {
        byteCount := byteCount - 1;
        if byteCount == 0 {
          bytePos := byteStart;
        }
      }
    }

    /** Bytes between the region start and the page cursor. */
    function TotalBytes(): (r: nat)
      reads this
      requires Valid()
      ensures r <= end - byteStart
    {
      pagePos - byteStart
    }

    /** Bytes handed out from the front. */
    function UsedBytes(): (r: nat)
      reads this
      requires Valid()
      ensures r <= TotalBytes()
    {
      bytePos - byteStart
    }

    /** The gap between the two cursors; used and available make up the total. */
    function AvailableBytes(): (r: nat)
      reads this
      requires Valid()
      ensures UsedBytes() + r == TotalBytes()
    {
      pagePos - bytePos
    }

    /**
     * Page allocation: the byte alignment must be a multiple of the page
     * size whose quotient is a power of two; the page cursor moves down by
     * `numPages` pages and then down to that alignment, unless it would
     * underflow or cross the byte cursor.
     */
    method AllocPages(numPages: nat, alignPow2: nat) returns (r: AllocResult<nat>)
      requires Valid()
      requires alignPow2 <= USIZE_MAX
      requires PageAlignAccepted(alignPow2) ==> numPages * pageSize <= USIZE_MAX
      modifies this
      ensures Valid()
      ensures byteStart == old(byteStart) && bytePos == old(bytePos)
      ensures end == old(end) && byteCount == old(byteCount)
      ensures !PageAlignAccepted(alignPow2) ==> r == Err(InvalidParam) && pagePos == old(pagePos)
      ensures PageAlignAccepted(alignPow2) ==>
              var target := PageTarget(old(pagePos), numPages * pageSize, alignPow2);
              if target.Some? && target.value >= bytePos then
                r == Ok(target.value) && pagePos == target.value
              else
                r == Err(NoMemory) && pagePos == old(pagePos)
      ensures r.Ok? ==> r.value % alignPow2 == 0 && bytePos <= r.value &&
                        r.value + numPages * pageSize <= old(pagePos)
    {
      PowerOfTwoPositive(pageSize);
      if alignPow2 % pageSize != 0 {
        return Err(InvalidParam);
      }
      var alignPages := alignPow2 / pageSize;
      if !IsPowerOfTwo(alignPages) {
        return Err(InvalidParam);
      }
      assert PageAlignAccepted(alignPow2);
      // The mask `!(align_pages - 1) * PAGE_SIZE`, wrapped to a word, is
      // `!(align_pow2 - 1)`; masking with it rounds down to `alignPow2`.
      AcceptedPageMask(alignPow2, pageSize);
      var totalSize := numPages * pageSize;
      if pagePos < totalSize {
        return Err(NoMemory);
      }
      var newPagePos := AlignDown(pagePos - totalSize, alignPow2);
      if newPagePos < bytePos {
        return Err(NoMemory);
      }
      pagePos := newPagePos;
      return Ok(newPagePos);
    }

    /**
     * A byte alignment `alloc_pages` accepts: a multiple of the page size
     * whose page count is a power of two (so never zero).
     */
    predicate PageAlignAccepted(alignPow2: nat)
      reads this
      requires Valid()
      ensures PageAlignAccepted(alignPow2) ==> alignPow2 >= pageSize
    {
      PowerOfTwoPositive(pageSize);
      if alignPow2 % pageSize == 0 && IsPowerOfTwo(alignPow2 / pageSize) then
        PowerOfTwoPositive(alignPow2 / pageSize);
        MulMonotone(pageSize, 1, alignPow2 / pageSize);
        true
      else
        false
    }

    /** Whole pages between the byte cursor and the region end. */
    function TotalPages(): (r: nat)
      reads this
      requires Valid()
      ensures r * pageSize <= end - bytePos
    {
      PowerOfTwoPositive(pageSize);
      (end - bytePos) / pageSize
    }

    /** Whole pages handed out from the back. */
    function UsedPages(): (r: nat)
      reads this
      requires Valid()
      ensures r * pageSize <= end - pagePos
    {
      PowerOfTwoPositive(pageSize);
      (end - pagePos) / pageSize
    }

    /** Whole pages in the gap; with the used pages they fit in the total. */
    function AvailablePages(): (r: nat)
      reads this
      requires Valid()
      ensures UsedPages() + r <= TotalPages()
    {
      PowerOfTwoPositive(pageSize);
      FloorDivSplit(end - pagePos, pagePos - bytePos, pageSize);
      (pagePos - bytePos) / pageSize
    }
  }

  /** One step of a run of byte traffic: a request, or a release of a block. */
  datatype ByteOp = Request(size: nat, align: nat) | Release(ptr: nat, size: nat)

  /**
   * Every request of a run has a power-of-two alignment and a word-sized
   * size for which `byte_pos + align` cannot overflow below `pagePos`.
   */
  predicate WellFormedRun(ops: seq<ByteOp>, pagePos: nat)
  {
    forall i :: 0 <= i < |ops| && ops[i].Request? ==>
      IsPowerOfTwo(ops[i].align) && ops[i].size <= USIZE_MAX && pagePos + ops[i].align <= USIZE_MAX
  }

  /** How many releases a run holds. */
  function Releases(ops: seq<ByteOp>): (n: nat)
    ensures n <= |ops|
    decreases |ops|
  {
    if |ops| == 0 then 0
    else Releases(ops[..|ops| - 1]) + (if ops[|ops| - 1].Release? then 1 else 0)
  }

  /**
   * Bulk reclaim over any interleaving of requests and releases, each
   * request with its own size and alignment, starting with no live byte
   * allocation. The counter always equals the granted requests minus the
   * releases that found it positive (`ignored` counts those that found it at
   * zero); whenever it is zero the byte cursor is back at the region start.
   * So a run whose releases match its granted requests one for one, never
   * running ahead of them, reclaims the whole byte area. Release addresses
   * and sizes play no part. The page side is untouched.
   */
  method AllocDeallocReclaims(a: EarlyAllocator, ops: seq<ByteOp>) returns (granted: seq<(nat, nat)>, ignored: nat)
    requires a.Valid() && a.byteCount == 0 && a.bytePos == a.byteStart
    requires |ops| < USIZE_MAX && WellFormedRun(ops, a.pagePos)
    modifies a
    ensures a.Valid() && ignored <= Releases(ops)
    ensures a.byteCount + Releases(ops) == |granted| + ignored
    ensures a.byteCount == 0 ==> a.bytePos == a.byteStart && a.UsedBytes() == 0
    ensures Releases(ops) == |granted| && ignored == 0 ==> a.byteCount == 0 && a.bytePos == a.byteStart
    ensures forall k :: 0 <= k < |granted| ==> a.byteStart <= granted[k].0 && granted[k].0 + granted[k].1 <= a.pagePos
    ensures a.byteStart == old(a.byteStart) && a.pagePos == old(a.pagePos) && a.end == old(a.end)
  {
    granted, ignored := [], 0;
    for i := 0 to |ops|
      invariant a.Valid() && a.byteCount <= |granted| <= i && ignored <= Releases(ops[..i])
      invariant a.byteCount + Releases(ops[..i]) == |granted| + ignored
      invariant a.byteCount == 0 ==> a.bytePos == a.byteStart
      invariant forall k :: 0 <= k < |granted| ==> a.byteStart <= granted[k].0 && granted[k].0 + granted[k].1 <= a.pagePos
      invariant a.byteStart == old(a.byteStart) && a.pagePos == old(a.pagePos) && a.end == old(a.end)
    {
      assert ops[..i + 1][..i] == ops[..i];
      match ops[i]
      case Request(size, align) =>
        var r := a.Alloc(size, align);
        if r.Ok? {
          granted := granted + [(r.value, size)];
        }
      case Release(ptr, size) =>
        if a.byteCount == 0 {
          ignored := ignored + 1;
        }
        a.Dealloc(ptr, size);
    }
    assert ops[..|ops|] == ops;
  }

  /**
   * One page at page alignment, taken from a page-aligned page cursor with a
   * page of room above the byte cursor, lowers the available bytes by
   * exactly one page.
   */
  method OnePageReducesAvailable(a: EarlyAllocator) returns (r: AllocResult<nat>)
    requires a.Valid() && a.pagePos % a.pageSize == 0 && a.bytePos + a.pageSize <= a.pagePos
    modifies a
    ensures a.Valid() && r == Ok(old(a.pagePos) - a.pageSize)
    ensures a.AvailableBytes() + a.pageSize == old(a.AvailableBytes())
    ensures a.UsedBytes() == old(a.UsedBytes())
  {
    var p := a.pageSize;
    PowerOfTwoPositive(p);
    assert p % p == 0 && p / p == 1 by {
      ModOfMultiplePlus(p, 1, 0);
    }
    assert a.PageAlignAccepted(p);
    var q := a.pagePos / p;
    assert (a.pagePos - p) % p == 0 by {
      ExactQuotient(a.pagePos, p);
      assert q >= 1;
      assert a.pagePos - p == p * (q - 1) + 0;
      ModOfMultiplePlus(p, q - 1, 0);
    }
    r := a.AllocPages(1, p);
  }

  /**
   * Because `Init` seeds the counter with the region size, a paired
   * allocation and release right after `Init` leaves the counter at the
   * region size and the allocated bytes in use: nothing is reclaimed.
   */
  method InitThenPairedAlloc(a: EarlyAllocator, start: nat, size: nat, allocSize: nat, align: nat)
    returns (r: AllocResult<nat>)
    requires a.Valid() && 0 < size && start + size < USIZE_MAX
    requires IsPowerOfTwo(align) && start + align <= USIZE_MAX
    requires AlignUp(start, align) + allocSize <= start + size
    modifies a
    ensures a.Valid() && r.Ok?
    ensures a.byteCount == size && a.byteCount != 0
    ensures a.UsedBytes() == r.value - start + allocSize
    ensures a.bytePos == a.byteStart ==> allocSize == 0 && r.value == start
  {
    a.Init(start, size);
    r := a.Alloc(allocSize, align);
    a.Dealloc(r.value, allocSize);
  }
}
