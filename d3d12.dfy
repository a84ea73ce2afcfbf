/** The integer bookkeeping of the Direct3D 12 wrapper: the bump allocator
    of a descriptor heap, the sizing, writing and addressing of a per-frame
    constant buffer (one 256-aligned slot per back buffer), and the staging
    of uploads: a buffer is copied as it is, a texture row by row at the
    aligned row pitch. The device, its driver-given values (heap start,
    handle increment, GPU addresses) and every COM call are outside this
    model; the values the driver supplies are parameters. */
module D3D12 {
  import opened Wire
  import opened Optional
  import Render
  import Framing

  /** Back buffers, and so constant-buffer slots, per swap chain. */
  const BACKBUFFER_COUNT: nat := 3

  /** `D3D12_TEXTURE_DATA_PITCH_ALIGNMENT` of the Direct3D 12 headers. */
  const PITCH_ALIGNMENT: nat := 256

  // ---------------------------------------------------------------------
  // Arithmetic facts the proofs below lean on
  // ---------------------------------------------------------------------

  lemma MulMonotone(a: nat, b: nat, c: nat)
    requires a <= b
    ensures a * c <= b * c
  {
    assert b * c == a * c + (b - a) * c;
  }

  lemma MulStrict(a: nat, b: nat, c: nat)
    requires a <= b
    ensures a * c < b * c <==> c > 0 && a < b
  {
    assert b * c == a * c + (b - a) * c;
    if c > 0 && a < b {
      MulMonotone(1, b - a, c);
    }
  }

  lemma MulOrder(a: nat, b: nat, c: nat)
    requires c > 0
    ensures a < b <==> a * c < b * c
  {
    if a < b {
      MulStrict(a, b, c);
    } else {
      MulMonotone(b, a, c);
    }
  }

  lemma MulDiv(a: nat, c: nat)
    requires c > 0
    ensures (a * c) / c == a
  {
    RowOf(a * c, a, c);
  }

  // ---------------------------------------------------------------------
  // Splicing bytes into a mapped range (`copy_from_slice`)
  // ---------------------------------------------------------------------

  /** `s` with `src` copied over the bytes from `at` on. */
  function Splice(s: seq<byte>, at: nat, src: seq<byte>): (r: seq<byte>)
    requires at + |src| <= |s|
    ensures |r| == |s|
    ensures r[at..at + |src|] == src
    ensures forall k :: 0 <= k < |s| && !(at <= k < at + |src|) ==> r[k] == s[k]
  {
    var r := seq(|s|, k requires 0 <= k < |s| => if at <= k < at + |src| then src[k - at] else s[k]);
    assert r[at..at + |src|] == src;
    r
  }

  /** The splice is what an in-place copy leaves: the bytes before `at`,
      then `src`, then the bytes after it. */
  lemma SpliceIsConcat(s: seq<byte>, at: nat, src: seq<byte>)
    requires at + |src| <= |s|
    ensures Splice(s, at, src) == s[..at] + src + s[at + |src|..]
  {
    var r, c := Splice(s, at, src), s[..at] + src + s[at + |src|..];
    assert forall k :: 0 <= k < |s| ==> r[k] == c[k];
  }

  // ---------------------------------------------------------------------
  // DescriptorHeap
  // ---------------------------------------------------------------------

  /** The handles the first `k` successful allocations hand out, in order. */
  function Handles(start: nat, increment: nat, k: nat): (hs: seq<nat>)
    ensures |hs| == k
  {
    if k == 0 then [] else Handles(start, increment, k - 1) + [start + (k - 1) * increment]
  }

  /** Allocation `i` hands out the handle `i` increments past the start. */
  lemma {:induction false} HandleAt(start: nat, increment: nat, k: nat, i: nat)
    requires i < k
    ensures Handles(start, increment, k)[i] == start + i * increment
  {
    if i < k - 1 {
      HandleAt(start, increment, k - 1, i);
    }
  }

  /** With a non-zero increment the handles are strictly increasing, so no
      descriptor is handed out twice. */
  lemma HandlesIncrease(start: nat, increment: nat, k: nat, i: nat, j: nat)
    requires increment > 0 && i < j < k
    ensures Handles(start, increment, k)[i] < Handles(start, increment, k)[j]
  {
    HandleAt(start, increment, k, i);
    HandleAt(start, increment, k, j);
    MulStrict(i, j, increment);
  }

  /** The first `count` handles each leave room for a whole descriptor
      inside the heap `[start, start + count * increment)`. */
  lemma HandlesInHeap(start: nat, increment: nat, count: nat, k: nat, i: nat)
    requires k <= count && i < k
    ensures start <= Handles(start, increment, k)[i]
    ensures Handles(start, increment, k)[i] + increment <= start + count * increment
  {
    HandleAt(start, increment, k, i);
    MulMonotone(i + 1, count, increment);
  }

  /** A descriptor heap: `top` is the next free handle and `end` one past
      the last descriptor; `handed` are the handles given out so far. */
  class DescriptorHeap {
    const start: nat
    const increment: nat
    const count: nat
    const end: nat
    var top: nat
    ghost var handed: seq<nat>

    /** The heap spans `count` descriptors from `start`, and `top` sits one
        increment past each handle given out so far. */
    ghost predicate Valid()
      reads this
    {
      && end == start + count * increment < U64_LIMIT
      && |handed| <= count
      && top == start + |handed| * increment
      && handed == Handles(start, increment, |handed|)
      && (increment == 0 ==> |handed| == 0)
    }

    /** A fresh heap of `count` descriptors at `start`. */
    constructor (start: u64, count: nat, increment: nat)
      requires start + count * increment < U64_LIMIT
      ensures Valid()
      ensures this.start == start && this.count == count && this.increment == increment
      ensures top == start && handed == []
    {
      this.start := start;
      this.count := count;
      this.increment := increment;
      this.end := start + count * increment;
      this.top := start;
      this.handed := [];
    }

    /** `alloc_descriptor`: the next handle, or `None` once `top` reaches
        `end`. It succeeds exactly while fewer than `count` handles have
        been given out (and never when the increment is 0, which makes the
        heap empty). */
    method AllocDescriptor() returns (h: Option<nat>)
      requires Valid()
      modifies this
      ensures Valid()
      ensures h.Some? <==> old(top) < end
      ensures h.Some? <==> increment > 0 && |old(handed)| < count
      ensures h.Some? ==> h.value == old(top) && top == old(top) + increment && handed == old(handed) + [h.value]
      ensures h.None? ==> top == old(top) && handed == old(handed)
    {
      MulStrict(|handed|, count, increment);
      if top >= end {
        return None;
      }
      var t := top;
      top := t + increment;
      handed := handed + [t];
      return Some(t);
    }

    /** `offset`: how many descriptors have been allocated, recovered from
        `top`; a zero increment divides by zero. */
    function Offset(): (r: Result<nat>)
      requires Valid()
      reads this
      ensures r.Err? <==> increment == 0
      ensures r.Err? ==> r.error == DivisionByZero
      ensures r.Ok? ==> r.value == |handed|
    {
      if increment == 0 then Err(DivisionByZero)
      else
        MulDiv(|handed|, increment);
        Ok((top - start) / increment)
    }
  }

  /** The handles a valid heap has given out are strictly increasing and
      each has a whole descriptor's room before `end`. */
  lemma HandedDistinct(h: DescriptorHeap, i: nat, j: nat)
    requires h.Valid() && i < j < |h.handed|
    ensures h.handed[i] < h.handed[j]
    ensures h.start <= h.handed[i] && h.handed[j] + h.increment <= h.end
  {
    HandlesIncrease(h.start, h.increment, |h.handed|, i, j);
    HandlesInHeap(h.start, h.increment, h.count, |h.handed|, i);
    HandlesInHeap(h.start, h.increment, h.count, |h.handed|, j);
  }

  /** `create_descriptor_heap` once the device has made the heap: the end
      pointer `start + count * increment` must not overflow. */
  method CreateDescriptorHeap(start: u64, count: nat, increment: nat) returns (r: Result<DescriptorHeap>)
    ensures r.Ok? <==> start + count * increment < U64_LIMIT
    ensures r.Err? ==> r.error == Overflow
    ensures r.Ok? ==> fresh(r.value) && r.value.Valid() && r.value.handed == []
    ensures r.Ok? ==> r.value.start == start && r.value.count == count && r.value.increment == increment
  {
    if start + count * increment >= U64_LIMIT {
      return Err(Overflow);
    }
    var heap := new DescriptorHeap(start, count, increment);
    return Ok(heap);
  }

  // ---------------------------------------------------------------------
  // PerFrameConstantBuffer
  // ---------------------------------------------------------------------

  /** `x.wrapping_neg()` on a 64-bit `usize`. */
  function WrappingNeg(x: u64): (r: u64)
    ensures (x + r) % U64_LIMIT == 0
  {
    (U64_LIMIT - x) % U64_LIMIT
  }

  /** `256 * a + b` leaves the remainder `b` for a byte-sized `b`. */
  lemma Mod256(a: int, b: int)
    requires 0 <= b < 256
    ensures (256 * a + b) % 256 == b
  {
  }

  /** Adding the low byte of the negation rounds up to a multiple of 256. */
  lemma NegMaskRounds(x: u64)
    ensures var s := x + WrappingNeg(x) % 256; s % 256 == 0 && x <= s < x + 256
  {
    var q, t := x % 256, x / 256;
    var n := U64_LIMIT / 256;
    assert x == 256 * t + q && U64_LIMIT == 256 * n;
    if x == 0 {
      assert WrappingNeg(x) == 0;
    } else if q == 0 {
      assert WrappingNeg(x) == 256 * (n - t) + 0;
      Mod256(n - t, 0);
    } else {
      assert WrappingNeg(x) == 256 * (n - t - 1) + (256 - q);
      Mod256(n - t - 1, 256 - q);
      Mod256(t + 1, 0);
    }
  }

  /** The slot size of `create_per_frame_constant_buffer`:
      `wanted + (wanted.wrapping_neg() & 0xFF)`, failing if that overflows.
      The `assert!` that follows always holds: the size is a multiple of 256
      and at least `wanted`; it is also less than 256 bytes more. */
  function SlotSize(wanted: u64): (r: Result<u64>)
    ensures r.Err? <==> wanted + WrappingNeg(wanted) % 256 >= U64_LIMIT
    ensures r.Err? ==> r.error == Overflow
    ensures r.Ok? ==> r.value % 256 == 0 && wanted <= r.value < wanted + 256
  {
    var size := wanted + WrappingNeg(wanted) % 256;
    if size >= U64_LIMIT then Err(Overflow)
    else
      NegMaskRounds(wanted);
      assert size % 256 == 0 && size >= wanted;
      Ok(size)
  }

  /** The mask-of-the-negation rounding of the constant buffer and the
      add-and-mask rounding of the acceleration-structure sizes agree. */
  lemma SlotSizeIsRoundUp(wanted: u64)
    ensures SlotSize(wanted).Ok? ==> SlotSize(wanted).value == Render.RoundUp256(wanted)
    ensures SlotSize(wanted).Ok? <==> Render.RoundUp256(wanted) < U64_LIMIT
  {
    var r := Render.RoundUp256(wanted);
    Render.RoundUp256Least(wanted, wanted + WrappingNeg(wanted) % 256);
    var d := wanted + WrappingNeg(wanted) % 256 - r;
    assert 0 <= d < 256 && d % 256 == 0;
  }

  /** The per-frame constant buffer: `BACKBUFFER_COUNT` slots of `size`
      bytes, mapped at `mapped`, at GPU address `base`. */
  class PerFrameConstantBuffer {
    const size: nat
    const base: u64
    const mapped: array<byte>

    ghost predicate Valid()
    {
      && size % 256 == 0
      && mapped.Length == size * BACKBUFFER_COUNT < U64_LIMIT
    }

    constructor (size: nat, base: u64, mapped: array<byte>)
      requires size % 256 == 0 && mapped.Length == size * BACKBUFFER_COUNT < U64_LIMIT
      ensures Valid() && this.size == size && this.base == base && this.mapped == mapped
    {
      this.size := size;
      this.base := base;
      this.mapped := mapped;
    }

    /** `write`: data longer than a slot is refused; otherwise it is copied
        to the start of slot `index` and nothing else changes. An index past
        the last slot panics on the slice (or on the overflow of
        `size * index`). */
    method Write(index: u32, data: seq<byte>) returns (r: Result<Option<()>>)
      requires Valid()
      modifies mapped
      ensures |data| > size ==> r == Ok(None) && unchanged(mapped)
      ensures |data| <= size ==> (r.Ok? <==> size * index + |data| <= mapped.Length)
      ensures r.Err? ==> unchanged(mapped)
      ensures r.Err? ==> r.error == (if size * index + |data| >= U64_LIMIT then Overflow else OutOfBounds)
      ensures r == Ok(Some(())) ==> mapped[..] == Splice(old(mapped[..]), size * index, data)
    {
      if |data| > size {
        return Ok(None);
      }
      if size * index + |data| >= U64_LIMIT {
        return Err(Overflow);
      }
      var at := size * index;
      if at + |data| > mapped.Length {
        return Err(OutOfBounds);
      }
      ghost var before := mapped[..];
      Framing.CopyInto(mapped, at, data);
      SpliceIsConcat(before, at, data);
      return Ok(Some(()));
    }

    /** `get_gpu_virtual_address`: the address of slot `index`, or the panic
        of the u64 product or sum. */
    function GpuVirtualAddress(index: u32): (r: Result<u64>)
      ensures r.Ok? <==> base + size * index < U64_LIMIT
      ensures r.Err? ==> r.error == Overflow
      ensures r.Ok? ==> r.value - base == size * index
    {
      if size * index >= U64_LIMIT || base + size * index >= U64_LIMIT then Err(Overflow)
      else Ok(base + size * index)
    }
  }

  /** `create_per_frame_constant_buffer` once the device has made and mapped
      the upload resource at `base`: the slot size is rounded up to 256 and
      the buffer holds one slot per back buffer. */
  method CreatePerFrameConstantBuffer(wanted: u64, base: u64) returns (r: Result<PerFrameConstantBuffer>)
    ensures r.Ok? <==> SlotSize(wanted).Ok? && SlotSize(wanted).value * BACKBUFFER_COUNT < U64_LIMIT
    ensures r.Err? ==> r.error == Overflow
    ensures r.Ok? ==> fresh(r.value) && fresh(r.value.mapped) && r.value.Valid()
    ensures r.Ok? ==> r.value.size == SlotSize(wanted).value && r.value.base == base
  {
    var size := SlotSize(wanted);
    if size.Err? {
      return Err(size.error);
    }
    if size.value * BACKBUFFER_COUNT >= U64_LIMIT {
      return Err(Overflow);
    }
    var mapped := new byte[size.value * BACKBUFFER_COUNT];
    var buffer := new PerFrameConstantBuffer(size.value, base, mapped);
    return Ok(buffer);
  }

  /** Every slot of a valid buffer lies inside the mapped memory, so writing
      at most one slot's worth to slot `index < BACKBUFFER_COUNT` succeeds. */
  lemma SlotInMap(b: PerFrameConstantBuffer, index: u32, len: nat)
    requires b.Valid() && index < BACKBUFFER_COUNT && len <= b.size
    ensures b.size * index + len <= b.mapped.Length
  {
    MulMonotone(index + 1, BACKBUFFER_COUNT, b.size);
  }

  /** Writing slot `i` leaves every other slot's bytes as they were: the
      frames in flight do not disturb each other's constants. */
  lemma WriteKeepsOtherSlots(m: seq<byte>, size: nat, i: nat, j: nat, data: seq<byte>)
    requires |m| == size * BACKBUFFER_COUNT && i < BACKBUFFER_COUNT && j < BACKBUFFER_COUNT && i != j
    requires |data| <= size
    ensures size * i + |data| <= |m| && size * j + size <= |m|
    ensures Splice(m, size * i, data)[size * j..size * j + size] == m[size * j..size * j + size]
  {
    MulMonotone(i + 1, BACKBUFFER_COUNT, size);
    MulMonotone(j + 1, BACKBUFFER_COUNT, size);
    if i < j {
      MulMonotone(i + 1, j, size);
    } else {
      MulMonotone(j + 1, i, size);
    }
    var r := Splice(m, size * i, data);
    assert forall k :: size * j <= k < size * j + size ==> r[k] == m[k];
  }

  /** The GPU address of slot `index` is as far from `base` as the slot's
      bytes are from the start of the mapping, and it keeps the 256-byte
      alignment a constant-buffer view needs. */
  lemma AddressMatchesSlot(b: PerFrameConstantBuffer, index: u32)
    requires b.Valid() && b.GpuVirtualAddress(index).Ok?
    ensures b.GpuVirtualAddress(index).value == b.base + b.size * index
    ensures b.base % 256 == 0 ==> b.GpuVirtualAddress(index).value % 256 == 0
  {
    var q := b.size / 256;
    assert b.size * index == 256 * (q * index);
  }

  // ---------------------------------------------------------------------
  // Uploads
  // ---------------------------------------------------------------------

  /** `upload_buffer_sync`: an empty buffer is refused; otherwise the
      upload memory of the same length receives the data as it is. */
  function UploadBuffer(data: seq<byte>): (r: Option<seq<byte>>)
    ensures r.None? <==> |data| == 0
    ensures r.Some? ==> |r.value| == |data| && forall k :: 0 <= k < |data| ==> r.value[k] == data[k]
  {
    if |data| == 0 then None else Some(data)
  }

  /** The row pitch of `upload_tex2d_sync`: `width * 4` rounded up to the
      pitch alignment, computed in u32 (overflow panics). */
  function UploadPitch(width: u32): (r: Result<u32>)
    ensures r.Ok? <==> width * 4 + PITCH_ALIGNMENT - 1 < U32_LIMIT
    ensures r.Err? ==> r.error == Overflow
    ensures r.Ok? ==> r.value % PITCH_ALIGNMENT == 0 && width * 4 <= r.value < width * 4 + PITCH_ALIGNMENT
    ensures r.Ok? ==> r.value == Render.RoundUp256(width * 4)
  {
    var padded := width * 4 + PITCH_ALIGNMENT - 1;
    if padded >= U32_LIMIT then Err(Overflow)
    else Ok(padded - padded % PITCH_ALIGNMENT)
  }

  /** Byte `k` of memory with row pitch `pitch` is byte `k % pitch` of row
      `k / pitch`: the row is the unique `y` with `y * pitch <= k < (y + 1) * pitch`. */
  lemma RowOf(k: nat, y: nat, pitch: nat)
    requires pitch > 0 && y * pitch <= k < y * pitch + pitch
    ensures k / pitch == y && k % pitch == k - y * pitch
  {
    var q, r := k / pitch, k % pitch;
    assert k == q * pitch + r && 0 <= r < pitch;
    assert (q + 1) * pitch == q * pitch + pitch && (y + 1) * pitch == y * pitch + pitch;
    MulOrder(q, y + 1, pitch);
    MulOrder(y, q + 1, pitch);
  }

  /** A byte before row `y` belongs to an earlier row. */
  lemma RowBefore(k: nat, y: nat, pitch: nat)
    requires pitch > 0 && k < y * pitch
    ensures k / pitch < y
  {
    var q := k / pitch;
    assert k == q * pitch + k % pitch;
    MulOrder(q, y, pitch);
  }

  /** Where byte `x` of row `y` of the packed data is, the row fits. */
  lemma RowInData(y: nat, rows: nat, rowBytes: nat, x: nat)
    requires y < rows && x < rowBytes
    ensures y * rowBytes + x < rows * rowBytes
  {
    MulMonotone(y + 1, rows, rowBytes);
  }

  /** The upload memory after the first `rows` rows of the copy loop: the
      byte at offset `x < rowBytes` of row `y < rows` holds byte `x` of row
      `y` of the tightly packed `data`; the padding after each row, and
      everything past the staged rows, is left as it was in `m`. */
  function StagedRows(m: seq<byte>, data: seq<byte>, rowBytes: nat, pitch: nat, rows: nat): (r: seq<byte>)
    requires rowBytes <= pitch && rows * pitch <= |m| && rows * rowBytes <= |data|
    ensures |r| == |m|
  {
    seq(|m|, k requires 0 <= k < |m| =>
      if pitch > 0 && k < rows * pitch && k % pitch < rowBytes then
        RowBefore(k, rows, pitch);
        RowInData(k / pitch, rows, rowBytes, k % pitch);
        data[k / pitch * rowBytes + k % pitch]
      else m[k])
  }

  /** Row `y` of the staged memory is row `y` of the texture. */
  lemma StagedRowRead(m: seq<byte>, data: seq<byte>, rowBytes: nat, pitch: nat, rows: nat, y: nat, x: nat)
    requires rowBytes <= pitch && rows * pitch <= |m| && rows * rowBytes <= |data|
    requires y < rows && x < rowBytes
    ensures y * pitch + x < |m| && y * rowBytes + x < |data|
    ensures StagedRows(m, data, rowBytes, pitch, rows)[y * pitch + x] == data[y * rowBytes + x]
  {
    MulMonotone(y + 1, rows, pitch);
    RowInData(y, rows, rowBytes, x);
    RowOf(y * pitch + x, y, pitch);
  }

  /** The padding of staged row `y` (bytes `rowBytes..pitch` of the row) is
      left as it was. */
  lemma StagedPaddingKept(m: seq<byte>, data: seq<byte>, rowBytes: nat, pitch: nat, rows: nat, y: nat, x: nat)
    requires rowBytes <= pitch && rows * pitch <= |m| && rows * rowBytes <= |data|
    requires y < rows && rowBytes <= x < pitch
    ensures y * pitch + x < |m|
    ensures StagedRows(m, data, rowBytes, pitch, rows)[y * pitch + x] == m[y * pitch + x]
  {
    MulMonotone(y + 1, rows, pitch);
    RowOf(y * pitch + x, y, pitch);
  }

  /** When the rows need no padding (the row length is already aligned), the
      staged rows are the texture data itself. */
  lemma TightRowsContiguous(m: seq<byte>, data: seq<byte>, rowBytes: nat, rows: nat)
    requires rows * rowBytes <= |m| && rows * rowBytes <= |data|
    ensures StagedRows(m, data, rowBytes, rowBytes, rows)[..rows * rowBytes] == data[..rows * rowBytes]
  {
    var r := StagedRows(m, data, rowBytes, rowBytes, rows);
    forall k | 0 <= k < rows * rowBytes
      ensures r[k] == data[k]
    {
      assert k == k / rowBytes * rowBytes + k % rowBytes;
    }
  }

  /** Copying row `y` into the memory staged up to row `y` stages row `y`. */
  lemma StagedStep(m: seq<byte>, data: seq<byte>, rowBytes: nat, pitch: nat, y: nat)
    requires rowBytes <= pitch && (y + 1) * pitch <= |m| && (y + 1) * rowBytes <= |data|
    ensures y * pitch <= (y + 1) * pitch && y * rowBytes + rowBytes == (y + 1) * rowBytes
    ensures Splice(StagedRows(m, data, rowBytes, pitch, y), y * pitch, data[y * rowBytes..y * rowBytes + rowBytes])
         == StagedRows(m, data, rowBytes, pitch, y + 1)
  {
    MulMonotone(y, y + 1, pitch);
    MulMonotone(y, y + 1, rowBytes);
    var before, after := StagedRows(m, data, rowBytes, pitch, y), StagedRows(m, data, rowBytes, pitch, y + 1);
    var at := y * pitch;
    var src := data[y * rowBytes..y * rowBytes + rowBytes];
    var spliced := Splice(before, at, src);
    forall k | 0 <= k < |m|
      ensures spliced[k] == after[k]
    {
      if pitch > 0 {
        if k < at {
          RowBefore(k, y, pitch);
          MulMonotone(y, y + 1, pitch);
        } else if k < at + pitch {
          RowOf(k, y, pitch);
        }
      }
    }
  }

  /** Row `y < height` of `rowBytes <= pitch` bytes fits in `height` pitched rows. */
  lemma RowFits(y: nat, height: nat, pitch: nat, rowBytes: nat)
    requires y < height && rowBytes <= pitch
    ensures y * pitch + rowBytes <= height * pitch
  {
    MulMonotone(y + 1, height, pitch);
  }

  /** A row that runs past the data means the whole image does. */
  lemma RowShort(y: nat, height: nat, rowBytes: nat, n: nat)
    requires y < height && y * rowBytes + rowBytes > n
    ensures height * rowBytes > n
  {
    MulMonotone(y + 1, height, rowBytes);
  }

  /** One turn of the copy loop: copying row `y` over the memory staged up to
      row `y` gives the memory staged up to row `y + 1`. */
  lemma CopyRowStep(before: seq<byte>, prev: seq<byte>, now: seq<byte>, data: seq<byte>,
                    rowBytes: nat, height: nat, pitch: nat, y: nat)
    requires rowBytes <= pitch && |before| == height * pitch && y < height
    requires y * rowBytes + rowBytes <= |data|
    requires y * pitch <= |before| && y * rowBytes <= |data|
    requires prev == StagedRows(before, data, rowBytes, pitch, y)
    requires y * pitch + rowBytes <= |prev|
    requires now == prev[..y * pitch] + data[y * rowBytes..y * rowBytes + rowBytes] + prev[y * pitch + rowBytes..]
    ensures (y + 1) * pitch <= |before| && (y + 1) * rowBytes <= |data|
    ensures now == StagedRows(before, data, rowBytes, pitch, y + 1)
  {
    MulMonotone(y + 1, height, pitch);
    StagedStep(before, data, rowBytes, pitch, y);
    SpliceIsConcat(prev, y * pitch, data[y * rowBytes..y * rowBytes + rowBytes]);
  }

  /** The closure `upload_tex2d_sync` hands to `write_with`: copies each of
      the `height` rows of `data` (`rowBytes` bytes each) to its pitched
      place in `mapped`. A `data` shorter than the rows panics on its slice. */
  method CopyRows(mapped: array<byte>, data: seq<byte>, rowBytes: nat, height: nat, pitch: nat) returns (r: Result<()>)
    requires rowBytes <= pitch && mapped.Length == height * pitch
    modifies mapped
    ensures r.Ok? <==> height * rowBytes <= |data|
    ensures r.Err? ==> r.error == OutOfBounds
    ensures r.Ok? ==> mapped[..] == StagedRows(old(mapped[..]), data, rowBytes, pitch, height)
  {
    ghost var before := mapped[..];
    for y := 0 to height
      invariant y * pitch <= mapped.Length && y * rowBytes <= |data|
      invariant mapped[..] == StagedRows(before, data, rowBytes, pitch, y)
    {
      RowFits(y, height, pitch, rowBytes);
      var mapStart := y * pitch;
      var dataStart := y * rowBytes;
      var dataEnd := dataStart + rowBytes;
      if dataEnd > |data| {
        RowShort(y, height, rowBytes, |data|);
        return Err(OutOfBounds);
      }
      ghost var prev := mapped[..];
      Framing.CopyInto(mapped, mapStart, data[dataStart..dataEnd]);
      CopyRowStep(before, prev, mapped[..], data, rowBytes, height, pitch, y);
    }
    return Ok(());
  }

  /** `n` bytes of fresh upload memory holding `initial`. */
  function FreshMemory(n: nat, initial: nat -> byte): (m: seq<byte>)
    ensures |m| == n && forall k :: 0 <= k < n ==> m[k] == initial(k)
  {
    seq(n, k requires 0 <= k < n => initial(k))
  }

  /** `upload_tex2d_sync` up to the GPU copy: the pitch, an upload buffer of
      `height * pitch` bytes (this product of two u32 values cannot
      overflow a 64-bit `usize`), and the row copy. The fresh upload memory
      starts as `initial`; the padding keeps those bytes. */
  method UploadTex2d(data: seq<byte>, width: u32, height: u32, initial: nat -> byte) returns (r: Result<seq<byte>>)
    ensures r.Ok? <==> UploadPitch(width).Ok? && height * (width * 4) <= |data|
    ensures r.Err? ==> r.error == (if UploadPitch(width).Err? then Overflow else OutOfBounds)
    ensures r.Ok? ==> var pitch := UploadPitch(width).value;
      r.value == StagedRows(FreshMemory(height * pitch, initial), data, width * 4, pitch, height)
  {
    var pitch := UploadPitch(width);
    if pitch.Err? {
      return Err(pitch.error);
    }
    var size := height * pitch.value;
    var mapped := new byte[size](k requires 0 <= k < size => initial(k));
    assert mapped[..] == FreshMemory(size, initial);
    var copied := CopyRows(mapped, data, width * 4, height, pitch.value);
    if copied.Err? {
      return Err(copied.error);
    }
    return Ok(mapped[..]);
  }
}
