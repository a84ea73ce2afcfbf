/** `FixedBaseAllocator`: a bump allocator over a fixed region
    `[base, base + size)`. Every allocation aligns the next free address up to
    the requested alignment, hands out `layout.size()` bytes there and moves
    the `used` counter past them; `deallocate` gives nothing back. Addresses are
    plain numbers and `base == 0` is the null pointer. */
module Allocator {
  import opened Wire

  /** `ptr.align_offset(align)` for a byte pointer: the bytes to skip from
      `addr` to the next multiple of `align`. */
  function AlignDelta(addr: nat, align: nat): (d: nat)
    requires align > 0
    ensures d < align
  {
    (align - addr % align) % align
  }

  lemma AlignDeltaAligns(addr: nat, align: nat)
    requires align > 0
    ensures (addr + AlignDelta(addr, align)) % align == 0
  {
    var q, r := addr / align, addr % align;
    assert addr == q * align + r;
    if r == 0 {
      assert AlignDelta(addr, align) == 0;
      MulDivExact(q, align);
    } else {
      assert AlignDelta(addr, align) == align - r;
      assert addr + (align - r) == (q + 1) * align;
      MulDivExact(q + 1, align);
    }
  }

  /** What one `allocate(layout)` call does, from the fields before the call:
      the returned address and the new `used`, or the panic it raises. */
  function AllocStep(base: u64, used: u64, size: u64, lsize: u64, align: nat): (r: Result<(nat, u64)>)
    requires align > 0
    ensures r.Ok? ==> base + used <= r.value.0 && r.value.0 + lsize == base + r.value.1 && r.value.1 <= size
    ensures r.Err? ==> r.error in {NullBase, Overflow, OutOfMemory}
  {
    if base == 0 then Err(NullBase)
    else
      var delta := AlignDelta(base + used, align);
      var allocSize := delta + lsize;
      if allocSize >= U64_LIMIT then Err(Overflow)
      else if used + allocSize >= U64_LIMIT then Err(Overflow)
      else if used + allocSize > size then Err(OutOfMemory)
      else Ok((base + used + delta, used + allocSize))
  }

  /** Exactly when `allocate` succeeds, and which panic it raises otherwise. */
  lemma AllocStepOutcome(base: u64, used: u64, size: u64, lsize: u64, align: nat)
    requires align > 0
    ensures var d := AlignDelta(base + used, align);
      AllocStep(base, used, size, lsize, align).Ok? <==>
        base != 0 && used + d + lsize < U64_LIMIT && used + d + lsize <= size
    ensures base == 0 ==> AllocStep(base, used, size, lsize, align) == Err(NullBase)
    ensures var d := AlignDelta(base + used, align);
      base != 0 && used + d + lsize < U64_LIMIT && used + d + lsize > size ==>
        AllocStep(base, used, size, lsize, align) == Err(OutOfMemory)
  {
  }

  /** A successful allocation is aligned, starts at or after the old bump
      point, ends exactly at the new one, and stays inside the region. */
  lemma AllocStepPlacement(base: u64, used: u64, size: u64, lsize: u64, align: nat)
    requires align > 0
    requires AllocStep(base, used, size, lsize, align).Ok?
    ensures var (ptr, newUsed) := AllocStep(base, used, size, lsize, align).value;
      && ptr % align == 0
      && ptr == base + used + AlignDelta(base + used, align)
      && base + used <= ptr < base + used + align
      && ptr + lsize == base + newUsed
      && used <= newUsed <= size
  {
    AlignDeltaAligns(base + used, align);
  }

  /** Ranges `[start, start + len)` handed out so far, in order, each ending
      no later than the next begins. */
  ghost predicate Ordered(blocks: seq<(nat, nat)>)
  {
    forall i, j :: 0 <= i < j < |blocks| ==> blocks[i].0 + blocks[i].1 <= blocks[j].0
  }

  class FixedBaseAllocator {
    var base: u64
    var used: u64
    var size: u64
    /** Every range returned by a successful `allocate` since the last `init`. */
    ghost var blocks: seq<(nat, nat)>

    /** The bump invariant: `used` never passes `size`, and the ranges handed
        out are pairwise disjoint and lie inside `[base, base + used)`. */
    ghost predicate Valid()
      reads this
    {
      && used <= size
      && Ordered(blocks)
      && (forall i :: 0 <= i < |blocks| ==> base <= blocks[i].0 && blocks[i].0 + blocks[i].1 <= base + used)
    }

    /** `FixedBaseAllocator::new`: null base, nothing used, no room. */
    constructor New()
      ensures Valid() && base == 0 && used == 0 && size == 0 && blocks == []
    {
      base, used, size := 0, 0, 0;
      blocks := [];
    }

    /** `init`: takes over the region `[ptr, ptr + size)` with nothing used. */
    method Init(ptr: u64, newSize: u64)
      modifies this
      ensures Valid() && base == ptr && used == 0 && size == newSize && blocks == []
    {
      base, used, size := ptr, 0, newSize;
      blocks := [];
    }

    /** `allocate`: a panic leaves every field as it was; success moves `used`
        to the end of the new range and records the range. */
    method Allocate(lsize: u64, align: nat) returns (r: Result<nat>)
      requires align > 0 && Valid()
      modifies this
      ensures Valid() && base == old(base) && size == old(size)
      ensures var step := AllocStep(old(base), old(used), old(size), lsize, align);
        && (step.Err? ==> r == Err(step.error) && used == old(used) && blocks == old(blocks))
        && (step.Ok? ==> r == Ok(step.value.0) && used == step.value.1
                         && blocks == old(blocks) + [(step.value.0, lsize as nat)])
    {
      if base == 0 {
        return Err(NullBase);
      }
      var ptr := base + used;
      var alignDelta := AlignDelta(ptr, align);
      ptr := ptr + alignDelta;
      if alignDelta + lsize >= U64_LIMIT {
        return Err(Overflow);
      }
      var allocSize: u64 := alignDelta + lsize;
      if used + allocSize >= U64_LIMIT {
        return Err(Overflow);
      }
      var newUsed: u64 := used + allocSize;
      if newUsed > size {
        return Err(OutOfMemory);
      }
      used := newUsed;
      blocks := blocks + [(ptr, lsize as nat)];
      r := Ok(ptr);
    }

    /** `deallocate`: a no-op; `used` and the handed-out ranges stay. */
    method Deallocate(ptr: nat, lsize: u64)
      requires Valid()
      ensures Valid()
    {
    }
  }

  /** Two successive allocations give disjoint ranges, in address order,
      both inside the region. */
  lemma SuccessiveAllocationsDisjoint(base: u64, used: u64, size: u64,
                                      l1: u64, a1: nat, l2: u64, a2: nat)
    requires a1 > 0 && a2 > 0
    requires AllocStep(base, used, size, l1, a1).Ok?
    requires AllocStep(base, AllocStep(base, used, size, l1, a1).value.1, size, l2, a2).Ok?
    ensures var (p1, u1) := AllocStep(base, used, size, l1, a1).value;
      var (p2, u2) := AllocStep(base, u1, size, l2, a2).value;
      base <= p1 && p1 + l1 <= p2 && p2 + l2 <= base + size
  {
    var (p1, u1) := AllocStep(base, used, size, l1, a1).value;
    AllocStepPlacement(base, used, size, l1, a1);
    AllocStepPlacement(base, u1, size, l2, a2);
  }
}
