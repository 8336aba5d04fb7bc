/**
 * The lab byte allocator: a region `[start, end)` consumed from both ends
 * by requests of alignment 1 (`pos1` bumps up, `pos2` bumps down, the side
 * chosen by the parity of the request counter `cnt`), and four embedded
 * buffers that serve every request of larger alignment by size class.
 *
 *   [ low side | gap | high side ]
 *   start     pos1   pos2      end
 */
module LabAllocator {
  import opened AllocTypes

  /**
   * While `pos2` is still at `end`, an alignment-1 request is refused when
   * the gap is smaller than this many bytes.
   */
  const HEADROOM: nat := 0x102000

  /** What `total_bytes` reports, whatever the region. */
  const REPORTED_TOTAL: nat := 0x1000

  class LabByteAllocator {
    /** Base addresses of the embedded buffers of 96, 192, 384 and 86016 bytes. */
    const block96: nat
    const block192: nat
    const block384: nat
    const block86016: nat

    var start: nat
    var pos1: nat
    var pos2: nat
    var end: nat
    var cnt: nat

    /** Four separate, non-null buffers. */
    predicate BlocksDistinct()
    {
      0 < block96 && 0 < block192 && 0 < block384 && 0 < block86016 &&
      block96 != block192 && block96 != block384 && block96 != block86016 &&
      block192 != block384 && block192 != block86016 && block384 != block86016
    }

    /** Every field fits a machine word. */
    ghost predicate WordSized()
      reads this
    {
      start <= USIZE_MAX && pos1 <= USIZE_MAX && pos2 <= USIZE_MAX &&
      end <= USIZE_MAX && cnt <= USIZE_MAX
    }

    /** The cursors lie in order inside the region. */
    ghost predicate Ordered()
      reads this
    {
      start <= pos1 <= pos2 <= end
    }

    ghost predicate Valid()
      reads this
    {
      BlocksDistinct() && WordSized() && Ordered()
    }

    /** `LabByteAllocator::new`: every cursor and the counter are zero. */
    constructor (block96: nat, block192: nat, block384: nat, block86016: nat)
      requires 0 < block96 && 0 < block192 && 0 < block384 && 0 < block86016
      requires block96 != block192 && block96 != block384 && block96 != block86016
      requires block192 != block384 && block192 != block86016 && block384 != block86016
      ensures this.block96 == block96 && this.block192 == block192
      ensures this.block384 == block384 && this.block86016 == block86016
      ensures start == 0 && pos1 == 0 && pos2 == 0 && end == 0 && cnt == 0
      ensures Valid()
    {
      this.block96, this.block192, this.block384, this.block86016 :=
        block96, block192, block384, block86016;
      start, pos1, pos2, end, cnt := 0, 0, 0, 0, 0;
    }

    /** Take the region `[start, start + size)`; the counter is left as it was. */
    method Init(start: nat, size: nat)
      requires BlocksDistinct() && WordSized()
      requires start + size <= USIZE_MAX
      modifies this
      ensures Valid()
      ensures this.start == start && pos1 == start
      ensures pos2 == start + size && end == start + size
      ensures cnt == old(cnt)
    {
      this.start := start;
      pos1 := start;
      pos2 := start + size;
      end := start + size;
    }

    /**
     * Grow the region by `[memStart, memStart + size)`, accepted only when
     * it starts exactly at `end`; the high side must then be empty.
     */
    method AddMemory(memStart: nat, size: nat) returns (r: AllocResult<()>)
      requires WordSized()
      requires memStart == end ==> pos2 == end && end + size <= USIZE_MAX
      modifies this
      ensures WordSized()
      ensures start == old(start) && pos1 == old(pos1) && cnt == old(cnt)
      ensures memStart == old(end) ==> r == Ok(()) && end == old(end) + size && pos2 == end
      ensures memStart != old(end) ==> r == Err(InvalidParam) && end == old(end) && pos2 == old(pos2)
      ensures old(Ordered()) ==> Ordered()
    {
      if memStart == end {
        end := end + size;
        pos2 := end;
      } else {
        return Err(InvalidParam);
      }
      return Ok(());
    }

    /** Alignment-1 requests are refused: the high side is empty and the gap is short. */
    predicate HeadroomExhausted()
      reads this
      requires Ordered()
    {
      pos2 == end && pos2 - pos1 < HEADROOM
    }

    /**
     * What an accepted alignment-1 request of `size` bytes needs from the
     * caller: the source asserts that the low cursor stays strictly below
     * the high one, never underflows, never hands out address 0, and never
     * overflows the counter.
     */
    predicate FitsNext(size: nat)
      reads this
    {
      cnt < USIZE_MAX &&
      if cnt % 2 == 1 then 0 < pos1 && pos1 + size < pos2
      else size <= pos2 && pos1 < pos2 - size
    }

    /** The embedded buffer that serves a request of `size` bytes and alignment above 1. */
    function ClassBlock(size: nat): (r: nat)
      requires BlocksDistinct()
      ensures r == block96 <==> size == 96
      ensures r == block192 <==> size == 192
      ensures r == block384 <==> size == 384
      ensures r == block86016 <==> size != 96 && size != 192 && size != 384
    {
      match size
      case 96 => block96
      case 192 => block192
      case 384 => block384
      case _ => block86016
    }

    /**
     * Byte allocation. Alignment 1: refused while the headroom is exhausted,
     * otherwise an odd counter bumps `pos1` up and returns its old value, an
     * even counter bumps `pos2` down and returns its new value, and the
     * counter grows by one. Larger alignment: the size-class buffer, with no
     * change to any field.
     */
    method Alloc(size: nat, align: nat) returns (r: AllocResult<nat>)
      requires Valid() && align >= 1
      requires align == 1 && !HeadroomExhausted() ==> FitsNext(size)
      modifies this
      ensures Valid()
      ensures start == old(start) && end == old(end)
      ensures align == 1 && old(HeadroomExhausted()) ==>
              r == Err(NoMemory) && pos1 == old(pos1) && pos2 == old(pos2) && cnt == old(cnt)
      ensures align == 1 && !old(HeadroomExhausted()) && old(cnt) % 2 == 1 ==>
              r == Ok(old(pos1)) && pos1 == old(pos1) + size && pos2 == old(pos2)
      ensures align == 1 && !old(HeadroomExhausted()) && old(cnt) % 2 == 0 ==>
              pos2 == old(pos2) - size && r == Ok(pos2) && pos1 == old(pos1)
      ensures align == 1 && !old(HeadroomExhausted()) ==> cnt == old(cnt) + 1 && pos1 < pos2
      ensures align > 1 ==>
              r == Ok(ClassBlock(size)) && pos1 == old(pos1) && pos2 == old(pos2) && cnt == old(cnt)
      ensures r.Ok? ==> r.value > 0
    {
      if align == 1 {
        if pos2 == end && pos2 - pos1 < HEADROOM {
          return Err(NoMemory);
        }
        var ptr;
        if cnt % 2 == 1 {
          ptr := pos1;
          pos1 := pos1 + size;
          assert pos1 < pos2;
        } else {
          pos2 := pos2 - size;
          ptr := pos2;
          assert pos1 < pos2;
        }
        cnt := cnt + 1;
        return Ok(ptr);
      } else {
        return Ok(ClassBlock(size));
      }
    }

    /**
     * Byte release: a block starting at `pos2` gives its bytes back to the
     * high side and resets the counter; otherwise a block ending at `pos1`
     * gives them back to the low side; any other address changes nothing.
     */
    method Dealloc(ptr: nat, size: nat)
      requires WordSized()
      requires ptr == pos2 ==> pos2 + size <= USIZE_MAX
      requires ptr != pos2 ==> size <= pos1
      modifies this
      ensures WordSized()
      ensures start == old(start) && end == old(end)
      ensures ptr == old(pos2) ==> pos2 == old(pos2) + size && cnt == 0 && pos1 == old(pos1)
      ensures ptr != old(pos2) && ptr + size == old(pos1) ==>
              pos1 == old(pos1) - size && pos2 == old(pos2) && cnt == old(cnt)
      ensures ptr != old(pos2) && ptr + size != old(pos1) ==>
              pos1 == old(pos1) && pos2 == old(pos2) && cnt == old(cnt)
      ensures old(Ordered()) && (ptr == old(pos2) ==> old(pos2) + size <= end) &&
              (ptr != old(pos2) && ptr + size == old(pos1) ==> start + size <= old(pos1)) ==>
              Ordered()
    {
      if ptr == pos2 {
        pos2 := pos2 + size;
        cnt := 0;
      } else if ptr == pos1 - size {
        pos1 := pos1 - size;
      }
    }

    /** A fixed figure, unrelated to the managed region. */
    function TotalBytes(): (r: nat)
      ensures r == REPORTED_TOTAL
    {
      0x1000
    }

    /**
     * Bytes taken from the low side plus bytes taken from the high side,
     * summed left to right as the source does, so `pos_1 - start + end`
     * must not overflow.
     */
    function UsedBytes(): (r: nat)
      reads this
      requires Ordered()
      requires pos1 - start + end <= USIZE_MAX
      ensures r <= end - start
    {
      pos1 - start + end - pos2
    }

    /** The gap; with the used bytes it makes up the region. */
    function AvailableBytes(): (r: nat)
      reads this
      requires Ordered()
      ensures pos1 - start + end <= USIZE_MAX ==> UsedBytes() + r == end - start
    {
      pos2 - pos1
    }
  }

  /**
   * An allocation on the high side released with the returned address and
   * the same size restores `pos2` and resets the counter.
   */
  method HighSideRoundTrip(a: LabByteAllocator, size: nat) returns (p: AllocResult<nat>)
    requires a.Valid() && !a.HeadroomExhausted() && a.cnt % 2 == 0 && a.FitsNext(size)
    modifies a
    ensures a.Valid()
    ensures p == Ok(old(a.pos2) - size)
    ensures a.pos1 == old(a.pos1) && a.pos2 == old(a.pos2) && a.cnt == 0
  {
    p := a.Alloc(size, 1);
    a.Dealloc(p.value, size);
  }

  /**
   * An allocation on the low side released with the returned address and
   * the same size restores `pos1`; the counter keeps its increment.
   */
  method LowSideRoundTrip(a: LabByteAllocator, size: nat) returns (p: AllocResult<nat>)
    requires a.Valid() && !a.HeadroomExhausted() && a.cnt % 2 == 1 && a.FitsNext(size)
    modifies a
    ensures a.Valid()
    ensures p == Ok(old(a.pos1))
    ensures a.pos1 == old(a.pos1) && a.pos2 == old(a.pos2) && a.cnt == old(a.cnt) + 1
  {
    p := a.Alloc(size, 1);
    a.Dealloc(p.value, size);
  }

  /**
   * Two alignment-1 requests in a row, starting from an even counter, land
   * on opposite ends of the gap: the first at its top, the second at its
   * bottom.
   */
  method Alternation(a: LabByteAllocator, size: nat) returns (p: AllocResult<nat>, q: AllocResult<nat>)
    requires a.Valid() && !a.HeadroomExhausted() && a.cnt % 2 == 0
    requires a.cnt + 1 < USIZE_MAX && 0 < a.pos1 && size <= a.pos2 && a.pos1 + 2 * size < a.pos2
    modifies a
    ensures a.Valid()
    ensures p == Ok(old(a.pos2) - size) && q == Ok(old(a.pos1))
    ensures a.pos1 == old(a.pos1) + size && a.pos2 == old(a.pos2) - size && a.cnt == old(a.cnt) + 2
  {
    p := a.Alloc(size, 1);
    q := a.Alloc(size, 1);
  }

  /**
   * Requests of alignment above 1 and equal size share one address, and
   * neither of them changes the allocator.
   */
  method SizeClassAliasing(a: LabByteAllocator, size: nat, align: nat) returns (p: AllocResult<nat>, q: AllocResult<nat>)
    requires a.Valid() && align > 1
    modifies a
    ensures p == q == Ok(a.ClassBlock(size))
    ensures a.pos1 == old(a.pos1) && a.pos2 == old(a.pos2) && a.cnt == old(a.cnt)
  {
    p := a.Alloc(size, align);
    q := a.Alloc(size, align);
  }

  /**
   * On a fresh allocator given `[0x1000, 0x2000)`, an alignment-1 request
   * is refused: the high side is empty and 0x1000 bytes is below the
   * headroom.
   */
  method SmallRegionRefused() returns (r: AllocResult<nat>)
    ensures r == Err(NoMemory)
  {
    var a := new LabByteAllocator(0x10, 0x20, 0x30, 0x40);
    a.Init(0x1000, 0x1000);
    r := a.Alloc(64, 1);
  }
}
