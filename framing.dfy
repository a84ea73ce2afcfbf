/** The on-disk scene file. The writer cuts the serialized scene into 1 GiB
    chunks and writes, per chunk, a record made of the u32 LE length of the
    lz4 output followed by that output; lz4 runs with size prepending on, so
    the output itself starts with the chunk's u32 LE length. The reader walks
    the records, reads the compressed length at record bytes [0..4] and the
    uncompressed length at [4..8] (the lz4 size prefix), decompresses each
    payload into a zero-filled 4 GiB buffer at the running total, and
    truncates the buffer to that total.

    The lz4 block codec itself is a pair of function parameters: `comp` gives
    the compressed block of a chunk (or fails), and `dec(block, n)` gives what
    block decoding with an `n`-byte destination produces (or fails). */
module Framing {
  import opened Wire
  import opened SceneCodec
  import SceneStream

  /** `vec.chunks(1024 * 1024 * 1024)` in the writer. */
  const CHUNK_SIZE: nat := 1024 * 1024 * 1024
  /** `vec![0; 4 * 1024 * 1024 * 1024]` in the reader. */
  const BUFFER_SIZE: nat := 4 * 1024 * 1024 * 1024

  type BlockCompress = seq<byte> -> Result<seq<byte>>
  type BlockDecompress = (seq<byte>, nat) -> Result<seq<byte>>

  /** The contract the model needs from lz4 for the chunks the writer produces:
      compression succeeds, its output plus the 4-byte prefix fits the u32
      record length, and decoding with the chunk's length as destination size
      gives the chunk back. */
  ghost predicate Lz4RoundTrips(comp: BlockCompress, dec: BlockDecompress)
  {
    forall c: seq<byte> | 0 < |c| <= CHUNK_SIZE :: ChunkRoundTrips(c, comp, dec)
  }

  /** The same contract for one chunk `c`. */
  ghost predicate ChunkRoundTrips(c: seq<byte>, comp: BlockCompress, dec: BlockDecompress)
  {
    comp(c).Ok? && 4 + |comp(c).value| < U32_LIMIT && dec(comp(c).value, |c|) == Ok(c)
  }

  // ------------------------------------------------------------- lz4 calls

  /** `lz4::block::compress(c, None, true)`: the u32 LE length of `c`, then
      the compressed block; failure is the writer's `expect` panic. */
  function Lz4Compress(c: seq<byte>, comp: BlockCompress): (r: Result<seq<byte>>)
    ensures r.Ok? <==> comp(c).Ok?
    ensures r.Ok? ==> |r.value| == 4 + |comp(c).value| && r.value[..4] == U32Bytes(|c| % U32_LIMIT)
    ensures r.Ok? ==> r.value[4..] == comp(c).value
    ensures r.Err? ==> r.error == CompressFailed
  {
    match comp(c)
    case Err(_) => Err(CompressFailed)
    case Ok(block) => Ok(U32Bytes(|c| % U32_LIMIT) + block)
  }

  /** At most `n` bytes of `d`: a destination of `n` bytes holds no more. */
  function Clip(d: seq<byte>, n: nat): (r: seq<byte>)
    ensures |r| <= n && |r| <= |d| && r == d[..|r|]
    ensures |d| <= n ==> r == d
  {
    if |d| <= n then d else d[..n]
  }

  /** `lz4::block::decompress_to_buffer(src, None, dest)` with `room` bytes of
      destination: reads the u32 LE size prefix, refuses a destination
      smaller than it, and writes at most that many bytes, which it returns.
      Every failure is the reader's `unwrap` panic. */
  function Lz4Decompress(src: seq<byte>, room: nat, dec: BlockDecompress): (r: Result<seq<byte>>)
    ensures r.Ok? ==> |src| >= 4 && FromLE(src[..4]) <= room && |r.value| <= FromLE(src[..4])
    ensures |src| < 4 || FromLE(src[..4]) > room ==> r == Err(DecompressFailed)
    ensures r.Err? ==> r.error == DecompressFailed
  {
    if |src| < 4 then Err(DecompressFailed)
    else
      var n := FromLE(src[..4]);
      if n > room then Err(DecompressFailed)
      else
        match dec(src[4..], n)
        case Err(_) => Err(DecompressFailed)
        case Ok(d) => Ok(Clip(d, n))
  }

  // ----------------------------------------------------------------- writer

  /** `v.chunks(n)`: consecutive slices of `n` bytes, the last one shorter. */
  function ChunksOf(v: seq<byte>, n: nat): (cs: seq<seq<byte>>)
    requires n > 0
    ensures forall i :: 0 <= i < |cs| ==> 0 < |cs[i]| <= n
    decreases |v|
  {
    if |v| == 0 then []
    else if |v| <= n then [v]
    else [v[..n]] + ChunksOf(v[n..], n)
  }

  /** The chunks are non-empty, at most `n` bytes each, concatenate to the
      whole buffer, and there are none exactly when the buffer is empty. */
  lemma {:induction false} ChunksOfCover(v: seq<byte>, n: nat)
    requires n > 0
    ensures Flatten(ChunksOf(v, n)) == v
    ensures forall i :: 0 <= i < |ChunksOf(v, n)| ==> 0 < |ChunksOf(v, n)[i]| <= n
    ensures ChunksOf(v, n) == [] <==> v == []
    decreases |v|
  {
    if |v| == 0 {
    } else if |v| <= n {
      assert Flatten([v]) == v + Flatten([]);
    } else {
      ChunksOfCover(v[n..], n);
      var cs := ChunksOf(v, n);
      assert cs[1..] == ChunksOf(v[n..], n);
      assert v == v[..n] + v[n..];
    }
  }

  /** One record: the u32 LE length of the compressed bytes (`as u32`), then
      the compressed bytes. */
  function Record(compressed: seq<byte>): (r: seq<byte>)
    ensures |r| == 4 + |compressed| && r[4..] == compressed
  {
    U32Bytes(|compressed| % U32_LIMIT) + compressed
  }

  /** The records of the chunks `cs`, in order. */
  function WriteRecords(cs: seq<seq<byte>>, comp: BlockCompress): (r: Result<seq<byte>>)
    ensures r.Ok? <==> forall i :: 0 <= i < |cs| ==> comp(cs[i]).Ok?
    ensures r.Err? ==> r.error == CompressFailed
  {
    if cs == [] then Ok([])
    else
      var compressed :- Lz4Compress(cs[0], comp);
      var rest :- WriteRecords(cs[1..], comp);
      Ok(Record(compressed) + rest)
  }

  /** What the writer puts in the file for the serialized scene `v`. */
  function WriteFrame(v: seq<byte>, comp: BlockCompress): (r: Result<seq<byte>>)
    ensures r.Ok? <==> forall c :: c in ChunksOf(v, CHUNK_SIZE) ==> comp(c).Ok?
    ensures v == [] ==> r == Ok([])
  {
    var cs := ChunksOf(v, CHUNK_SIZE);
    assert (forall c :: c in cs ==> comp(c).Ok?) <==> (forall i :: 0 <= i < |cs| ==> comp(cs[i]).Ok?);
    WriteRecords(cs, comp)
  }

  /** The bytes already written, in front of what the remaining steps give. */
  function PrependBytes(done: seq<byte>, r: Result<seq<byte>>): (p: Result<seq<byte>>)
    ensures p.Ok? <==> r.Ok?
    ensures p.Ok? ==> p.value == done + r.value
    ensures p.Err? ==> p.error == r.error
  {
    match r
    case Ok(rest) => Ok(done + rest)
    case Err(e) => Err(e)
  }

  lemma PrependNoBytes(r: Result<seq<byte>>)
    ensures PrependBytes([], r) == r
  {
    if r.Ok? {
      assert [] + r.value == r.value;
    }
  }

  lemma PrependBytesTwice(done: seq<byte>, x: seq<byte>, r: Result<seq<byte>>)
    ensures PrependBytes(done, PrependBytes(x, r)) == PrependBytes(done + x, r)
  {
    if r.Ok? {
      Assoc(done, x, r.value);
    }
  }

  /** One step of WriteRecords: the first chunk's record, then the others'. */
  lemma WriteRecordsStep(cs: seq<seq<byte>>, i: nat, comp: BlockCompress)
    requires i < |cs|
    ensures Lz4Compress(cs[i], comp).Err? ==> WriteRecords(cs[i..], comp) == Err(CompressFailed)
    ensures Lz4Compress(cs[i], comp).Ok? ==>
      WriteRecords(cs[i..], comp) == PrependBytes(Record(Lz4Compress(cs[i], comp).value), WriteRecords(cs[i + 1..], comp))
  {
    assert cs[i..][0] == cs[i] && cs[i..][1..] == cs[i + 1..];
  }

  /** The `for c in vec.chunks(1024 * 1024 * 1024)` loop writing one record
      per chunk. */
  method WriteChunks(vec: seq<byte>, comp: BlockCompress) returns (file: Result<seq<byte>>)
    ensures file == WriteFrame(vec, comp)
  {
    var cs := ChunksOf(vec, CHUNK_SIZE);
    var out: seq<byte> := [];
    PrependNoBytes(WriteRecords(cs, comp));
    assert cs[0..] == cs;
    for i := 0 to |cs|
      invariant WriteRecords(cs, comp) == PrependBytes(out, WriteRecords(cs[i..], comp))
    {
      WriteRecordsStep(cs, i, comp);
      var compressed := Lz4Compress(cs[i], comp);
      if compressed.Err? {
        return Err(compressed.error);
      }
      PrependBytesTwice(out, Record(compressed.value), WriteRecords(cs[i + 1..], comp));
      out := out + Record(compressed.value);
    }
    assert out + [] == out;
    file := Ok(out);
  }

  /** The writer: `scene.serialize()`, then the chunk records. */
  method WriteSceneFile(s: Scene, comp: BlockCompress) returns (file: Result<seq<byte>>)
    ensures file == WriteFrame(EncodeScene(s), comp)
  {
    var vec := SceneStream.SerializeScene(s, []);
    assert vec == EncodeScene(s);
    file := WriteChunks(vec, comp);
  }

  // ----------------------------------------------------------------- reader

  function Zeros(n: nat): (r: seq<byte>)
    ensures |r| == n && forall i :: 0 <= i < n ==> r[i] == 0
  {
    seq(n, i => 0)
  }

  /** The record at the front of a non-empty `view`, with `room` bytes of the
      buffer free: the `u_size` bytes it leaves in the buffer (what lz4 wrote,
      then the zeros the buffer already held) and the view after it. */
  function NextRecord(view: seq<byte>, room: nat, dec: BlockDecompress): (r: Result<(seq<byte>, seq<byte>)>)
    ensures r.Ok? ==> |r.value.0| <= room && |r.value.1| < |view|
  {
    if |view| < 8 then Err(OutOfBounds)
    else
      var cSize := FromLE(view[..4]);
      var uSize := FromLE(view[4..8]);
      if |view| < 4 + cSize then Err(OutOfBounds)
      else
        var d :- Lz4Decompress(view[4..4 + cSize], room, dec);
        assert view[4..4 + cSize][..4] == view[4..8];
        Ok((d + Zeros(uSize - |d|), view[4 + cSize..]))
  }

  /** The reader loop from `view` on, with `room` bytes of the buffer still
      free: the bytes it leaves in the buffer from the current total to the
      final one. */
  function ReadRecords(view: seq<byte>, room: nat, dec: BlockDecompress): (r: Result<seq<byte>>)
    ensures r.Ok? ==> |r.value| <= room
    decreases |view|
  {
    if |view| == 0 then Ok([])
    else
      var (bytes, rest) :- NextRecord(view, room, dec);
      PrependBytes(bytes, ReadRecords(rest, room - |bytes|, dec))
  }

  /** `view` read with `room` bytes free gives `r`. (Naming the equation keeps
      it one fact for the solver wherever it is asserted or assumed.) */
  ghost predicate ReadsAs(view: seq<byte>, room: nat, dec: BlockDecompress, r: Result<seq<byte>>)
  {
    ReadRecords(view, room, dec) == r
  }

  /** One step of ReadRecords: a record NextRecord accepts puts its bytes in
      front of what the rest of the view reads as, with that much less room. */
  lemma ReadRecordsOk(view: seq<byte>, room: nat, dec: BlockDecompress, bytes: seq<byte>, rest: seq<byte>,
                      newRoom: nat, later: Result<seq<byte>>)
    requires |view| != 0 && NextRecord(view, room, dec) == Ok((bytes, rest))
    requires newRoom == room - |bytes| && ReadsAs(rest, newRoom, dec, later)
    ensures ReadsAs(view, room, dec, PrependBytes(bytes, later))
  {
  }

  /** One step of ReadRecords: a record NextRecord refuses ends the read with
      its panic. */
  lemma ReadRecordsErr(view: seq<byte>, room: nat, dec: BlockDecompress, e: Error)
    requires |view| != 0 && NextRecord(view, room, dec) == Err(e)
    ensures ReadsAs(view, room, dec, Err(e))
  {
  }

  /** The records written for the chunks `cs` are `w`. */
  ghost predicate Writes(cs: seq<seq<byte>>, comp: BlockCompress, w: seq<byte>)
  {
    WriteRecords(cs, comp) == Ok(w)
  }

  /** The reader loop's invariant: the whole file reads as the bytes `done`
      already in the buffer, followed by what the remaining `view` gives with
      `room` bytes free. */
  ghost predicate ReaderAt(data: seq<byte>, dec: BlockDecompress, done: seq<byte>, view: seq<byte>, room: nat)
  {
    ReadRecords(data, BUFFER_SIZE, dec) == PrependBytes(done, ReadRecords(view, room, dec))
  }

  /** What NextRecord gives for a record whose payload decompresses. */
  lemma NextRecordOk(view: seq<byte>, room: nat, dec: BlockDecompress, cSize: nat, uSize: nat, d: seq<byte>)
    requires |view| >= 8 && cSize == FromLE(view[..4]) && uSize == FromLE(view[4..8]) && |view| >= 4 + cSize
    requires Lz4Decompress(view[4..4 + cSize], room, dec) == Ok(d)
    ensures |d| <= uSize <= room
    ensures NextRecord(view, room, dec) == Ok((d + Zeros(uSize - |d|), view[4 + cSize..]))
  {
    assert view[4..4 + cSize][..4] == view[4..8];
  }

  /** Writes `src` into `buf` at `at`, as lz4 writes into `&mut buf[total_size..]`. */
  method CopyInto(buf: array<byte>, at: nat, src: seq<byte>)
    requires at + |src| <= buf.Length
    modifies buf
    ensures buf[..] == old(buf[..at]) + src + old(buf[at + |src|..])
  {
    for k := 0 to |src|
      invariant forall i :: 0 <= i < buf.Length ==> buf[i] == if at <= i < at + k then src[i - at] else old(buf[i])
    {
      buf[at + k] := src[k];
    }
    assert forall i :: 0 <= i < buf.Length ==> buf[..][i] == (old(buf[..at]) + src + old(buf[at + |src|..]))[i];
  }

  /** After lz4 writes `written` at `at` over a zero tail, the first `at + n`
      bytes are the old prefix, `written` and then `n - |written|` zeros, and
      everything past them is still zero. */
  lemma PaddedCopy(was: seq<byte>, now: seq<byte>, at: nat, written: seq<byte>, pad: seq<byte>, n: nat)
    requires |was| == |now| && n == |written| + |pad| && at + n <= |was|
    requires forall k :: at <= k < |was| ==> was[k] == 0
    requires forall k :: 0 <= k < |pad| ==> pad[k] == 0
    requires now == was[..at] + written + was[at + |written|..]
    ensures now[..at + n] == was[..at] + (written + pad)
    ensures forall k :: at + n <= k < |now| ==> now[k] == 0
  {
    forall k | 0 <= k < at + n
      ensures now[..at + n][k] == (was[..at] + (written + pad))[k]
    {
      if k >= at + |written| {
        assert now[k] == was[k];
      }
    }
  }

  /** The buffer holds zeros from `total` to its end. */
  ghost predicate ZeroTail(buf: array<byte>, total: nat)
    reads buf
  {
    forall k :: total <= k < buf.Length ==> buf[k] == 0
  }

  /** The reader loop's invariant carries over one record: the buffer prefix
      grows by the record's bytes and the view moves on. */
  lemma ReaderAdvance(data: seq<byte>, dec: BlockDecompress, before: seq<byte>, view: seq<byte>, room: nat,
                      bytes: seq<byte>, rest: seq<byte>, after: seq<byte>, newRoom: nat)
    requires |view| != 0 && NextRecord(view, room, dec) == Ok((bytes, rest))
    requires ReaderAt(data, dec, before, view, room)
    requires after == before + bytes && newRoom == room - |bytes|
    ensures ReaderAt(data, dec, after, rest, newRoom)
  {
    ghost var later := ReadRecords(rest, newRoom, dec);
    ReadRecordsOk(view, room, dec, bytes, rest, newRoom, later);
    PrependBytesTwice(before, bytes, later);
  }

  /** The reader loop stops at a record NextRecord refuses, with its panic. */
  lemma ReaderFails(data: seq<byte>, dec: BlockDecompress, before: seq<byte>, view: seq<byte>, room: nat, e: Error)
    requires |view| != 0 && NextRecord(view, room, dec) == Err(e)
    requires ReaderAt(data, dec, before, view, room)
    ensures ReadRecords(data, BUFFER_SIZE, dec) == Err(e)
  {
    ReadRecordsErr(view, room, dec, e);
  }

  /** The reader loop ends when the view is empty, with the buffer prefix. */
  lemma ReaderDone(data: seq<byte>, dec: BlockDecompress, done: seq<byte>, room: nat)
    requires ReaderAt(data, dec, done, [], room)
    ensures ReadRecords(data, BUFFER_SIZE, dec) == Ok(done)
  {
    assert done + [] == done;
  }

  /** One pass of the reader loop: the record at the front of `view` is
      decompressed into `buf` at `total`, where `room` bytes are left. The
      result is the rest of the view and the new total, or the panic; the
      ghost `bytes` are what NextRecord says the record leaves in the buffer,
      and they now follow the old prefix. */
  method ReadOneRecord(buf: array<byte>, total: nat, room: nat, view: seq<byte>, dec: BlockDecompress)
    returns (r: Result<(seq<byte>, nat)>, ghost bytes: seq<byte>)
    requires total + room == buf.Length && ZeroTail(buf, total)
    modifies buf
    ensures r.Err? ==> NextRecord(view, room, dec) == Err(r.error)
    ensures r.Ok? ==> var (rest, newTotal) := r.value;
      && newTotal == total + |bytes| && newTotal <= buf.Length && ZeroTail(buf, newTotal)
      && NextRecord(view, room, dec) == Ok((bytes, rest))
      && buf[..newTotal] == old(buf[..total]) + bytes
  {
    bytes := [];
    if |view| < 8 {
      return Err(OutOfBounds), bytes;
    }
    var cSize := FromLE(view[..4]);
    var uSize := FromLE(view[4..8]);
    if |view| < 4 + cSize {
      return Err(OutOfBounds), bytes;
    }
    var d := Lz4Decompress(view[4..4 + cSize], room, dec);
    if d.Err? {
      return Err(d.error), bytes;
    }
    var written := d.value;
    NextRecordOk(view, room, dec, cSize, uSize, written);
    ghost var pad := Zeros(uSize - |written|);
    ghost var was := buf[..];
    CopyInto(buf, total, written);
    PaddedCopy(was, buf[..], total, written, pad, uSize);
    bytes := written + pad;
    r := Ok((view[4 + cSize..], total + uSize));
  }

  /** The body of the reader loop: one record read into the buffer, with the
      loop invariant carried over to the rest of the view, or the panic that
      ends the whole read. The ghost `after` is the new buffer prefix and
      `newRoom` the bytes left after it. */
  method ReadStep(buf: array<byte>, total: nat, room: nat, view: seq<byte>, dec: BlockDecompress,
                  ghost data: seq<byte>, ghost done: seq<byte>)
    returns (r: Result<(seq<byte>, nat)>, ghost after: seq<byte>, newRoom: nat)
    requires total + room == buf.Length && ZeroTail(buf, total)
    requires |view| != 0 && buf[..total] == done && ReaderAt(data, dec, done, view, room)
    modifies buf
    ensures r.Err? ==> ReadRecords(data, BUFFER_SIZE, dec) == Err(r.error)
    ensures r.Ok? ==> var (rest, newTotal) := r.value;
      && |rest| < |view| && newTotal <= buf.Length && newRoom == buf.Length - newTotal && ZeroTail(buf, newTotal)
      && buf[..newTotal] == after && ReaderAt(data, dec, after, rest, newRoom)
  {
    ghost var bytes;
    r, bytes := ReadOneRecord(buf, total, room, view, dec);
    if r.Err? {
      ReaderFails(data, dec, done, view, room, r.error);
      return r, done, room;
    }
    var (rest, newTotal) := r.value;
    newRoom := buf.Length - newTotal;
    ReaderAdvance(data, dec, done, view, room, bytes, rest, done + bytes, newRoom);
    after := done + bytes;
  }

  /** `load_data_from_disk` on the file's bytes `data`. */
  method LoadDataFromDisk(data: seq<byte>, dec: BlockDecompress) returns (r: Result<seq<byte>>)
    ensures r == ReadRecords(data, BUFFER_SIZE, dec)
  {
    var buf := new byte[BUFFER_SIZE](i => 0);
    var view := data;
    var total: nat := 0;
    var room: nat := BUFFER_SIZE;
    ghost var done: seq<byte> := [];
    assert buf[..0] == [];
    PrependNoBytes(ReadRecords(data, BUFFER_SIZE, dec));
    while |view| != 0
      invariant total <= buf.Length && room == buf.Length - total && ZeroTail(buf, total)
      invariant buf[..total] == done && ReaderAt(data, dec, done, view, room)
      decreases |view|
    {
      var step;
      step, done, room := ReadStep(buf, total, room, view, dec, data, done);
      if step.Err? {
        return Err(step.error);
      }
      view, total := step.value.0, step.value.1;
    }
    ReaderDone(data, dec, done, room);
    r := Ok(buf[..total]);
  }

  // ---------------------------------------------------------- scene loading

  /** The fully-consumed check after decoding: `assert!(buf.len() == 0)`. */
  function SceneFromData(data: seq<byte>): (r: Result<Scene>)
    ensures r.Ok? <==> DecodeScene(data).Ok? && DecodeScene(data).value.1 == []
    ensures r.Ok? ==> r.value == DecodeScene(data).value.0
    ensures DecodeScene(data).Ok? && DecodeScene(data).value.1 != [] ==> r == Err(AssertionFailed)
  {
    var p :- DecodeScene(data);
    if p.1 != [] then Err(AssertionFailed) else Ok(p.0)
  }

  /** `load_scene_from_file` and `load_scene_from_file_with_allocator`. */
  function LoadScene(file: seq<byte>, dec: BlockDecompress): (r: Result<Scene>)
    ensures r.Ok? ==> ReadRecords(file, BUFFER_SIZE, dec).Ok?
    ensures r.Ok? ==> DecodeScene(ReadRecords(file, BUFFER_SIZE, dec).value) == Ok((r.value, []))
    ensures ReadRecords(file, BUFFER_SIZE, dec).Err? ==> r == Err(ReadRecords(file, BUFFER_SIZE, dec).error)
  {
    var data :- ReadRecords(file, BUFFER_SIZE, dec);
    SceneFromData(data)
  }

  method LoadSceneFromFile(file: seq<byte>, dec: BlockDecompress) returns (r: Result<Scene>)
    ensures r == LoadScene(file, dec)
  {
    var data := LoadDataFromDisk(file, dec);
    if data.Err? {
      return Err(data.error);
    }
    var p := SceneStream.DeserializeScene(data.value);
    if p.Err? {
      return Err(p.error);
    }
    if p.value.1 != [] {
      return Err(AssertionFailed);
    }
    r := Ok(p.value.0);
  }

  // ------------------------------------------------------------ round trips

  /** Reading the records written for chunks `cs` gives back their
      concatenation `flat`, as long as it fits in the room left; `w` is the
      bytes written. */
  lemma {:induction false} ChunkRecordsRoundTrip(cs: seq<seq<byte>>, flat: seq<byte>, room: nat, comp: BlockCompress, dec: BlockDecompress)
    returns (w: seq<byte>)
    requires forall i :: 0 <= i < |cs| ==> 0 < |cs[i]| <= CHUNK_SIZE && ChunkRoundTrips(cs[i], comp, dec)
    requires flat == Flatten(cs) && |flat| <= room
    ensures Writes(cs, comp, w)
    ensures ReadsAs(w, room, dec, Ok(flat))
  {
    if cs == [] {
      w := [];
    } else {
      // naming the head through `:|` keeps the solver from unfolding the
      // round-trip hypothesis at every occurrence of `cs[0]`
      var c :| c == cs[0];
      var tail := cs[1..];
      var tailFlat := Flatten(tail);
      assert flat == c + tailFlat;
      assert forall i :: 0 <= i < |tail| ==> 0 < |tail[i]| <= CHUNK_SIZE && ChunkRoundTrips(tail[i], comp, dec) by {
        forall i | 0 <= i < |tail| ensures 0 < |tail[i]| <= CHUNK_SIZE && ChunkRoundTrips(tail[i], comp, dec) {
          assert tail[i] == cs[i + 1];
        }
      }
      var tailRoom := room - |c|;
      var restBytes := ChunkRecordsRoundTrip(tail, tailFlat, tailRoom, comp, dec);
      w := ConsRoundTrip(cs, c, restBytes, Ok(tailFlat), room, tailRoom, comp, dec);
    }
  }

  /** The inductive step: the first chunk's record in front of records that
      read back as `later`. */
  lemma ConsRoundTrip(cs: seq<seq<byte>>, c: seq<byte>, restBytes: seq<byte>, later: Result<seq<byte>>,
                      room: nat, tailRoom: nat, comp: BlockCompress, dec: BlockDecompress)
    returns (w: seq<byte>)
    requires cs != [] && c == cs[0]
    requires ChunkRoundTrips(c, comp, dec) && 0 < |c| <= CHUNK_SIZE && |c| <= room && tailRoom == room - |c|
    requires Writes(cs[1..], comp, restBytes) && ReadsAs(restBytes, tailRoom, dec, later)
    ensures Writes(cs, comp, w) && ReadsAs(w, room, dec, PrependBytes(c, later))
  {
    var rec := OneRecordRoundTrip(c, restBytes, later, room, tailRoom, comp, dec);
    WriteRecordsCons(cs, comp, rec, restBytes);
    w := rec + restBytes;
  }

  /** WriteRecords of a non-empty list whose parts all succeed. */
  lemma WriteRecordsCons(cs: seq<seq<byte>>, comp: BlockCompress, rec: seq<byte>, restBytes: seq<byte>)
    requires cs != [] && Lz4Compress(cs[0], comp).Ok? && rec == Record(Lz4Compress(cs[0], comp).value)
    requires Writes(cs[1..], comp, restBytes)
    ensures Writes(cs, comp, rec + restBytes)
  {
  }

  /** The record written for one chunk, `rec`, reads back as that chunk,
      whatever follows. */
  lemma OneRecordRoundTrip(c: seq<byte>, restBytes: seq<byte>, later: Result<seq<byte>>, room: nat,
                            tailRoom: nat, comp: BlockCompress, dec: BlockDecompress)
    returns (rec: seq<byte>)
    requires ChunkRoundTrips(c, comp, dec) && 0 < |c| <= CHUNK_SIZE && |c| <= room && tailRoom == room - |c|
    requires ReadsAs(restBytes, tailRoom, dec, later)
    ensures Lz4Compress(c, comp).Ok? && rec == Record(Lz4Compress(c, comp).value)
    ensures ReadsAs(rec + restBytes, room, dec, PrependBytes(c, later))
  {
    var cp := Lz4Compress(c, comp).value;
    rec := Record(cp);
    assert Lz4Decompress(cp, room, dec) == Ok(c) by {
      assert |c| % U32_LIMIT == |c|;
    }
    var view := rec + restBytes;
    RecordLayout(cp, restBytes, |c|);
    NextRecordOk(view, room, dec, |cp|, |c|, c);
    assert c + Zeros(0) == c;
    ReadRecordsOk(view, room, dec, c, restBytes, tailRoom, later);
  }

  /** Where the parts of a record for the lz4 output `cp`, whose size prefix is
      `n`, sit in the byte stream. */
  lemma RecordLayout(cp: seq<byte>, restBytes: seq<byte>, n: nat)
    requires 4 <= |cp| < U32_LIMIT && n < U32_LIMIT && cp[..4] == U32Bytes(n)
    ensures var view := Record(cp) + restBytes;
      && |view| >= 8 && FromLE(view[..4]) == |cp| && FromLE(view[4..8]) == n
      && view[4..4 + |cp|] == cp && view[4 + |cp|..] == restBytes
  {
    var view := Record(cp) + restBytes;
    assert |cp| % U32_LIMIT == |cp|;
    assert view[..4] == U32Bytes(|cp|);
    assert view[4..8] == cp[..4];
    assert view[4..4 + |cp|] == cp;
    assert view[4 + |cp|..] == restBytes;
  }

  /** The file the writer produces for the serialized scene `v` reads back as
      `v`, provided `v` fits the reader's 4 GiB buffer. */
  lemma FrameRoundTrip(v: seq<byte>, comp: BlockCompress, dec: BlockDecompress)
    requires Lz4RoundTrips(comp, dec) && |v| <= BUFFER_SIZE
    ensures WriteFrame(v, comp).Ok?
    ensures ReadRecords(WriteFrame(v, comp).value, BUFFER_SIZE, dec) == Ok(v)
  {
    ChunksOfCover(v, CHUNK_SIZE);
    var cs := ChunksOf(v, CHUNK_SIZE);
    assert forall i :: 0 <= i < |cs| ==> ChunkRoundTrips(cs[i], comp, dec);
    var w := ChunkRecordsRoundTrip(cs, v, BUFFER_SIZE, comp, dec);
  }

  /** Writing a well-formed scene to a file and loading it gives the scene
      back, and the load's full-consumption assertion holds. */
  lemma SceneFileRoundTrip(s: Scene, comp: BlockCompress, dec: BlockDecompress)
    requires ValidScene(s) && Lz4RoundTrips(comp, dec) && |EncodeScene(s)| <= BUFFER_SIZE
    ensures WriteFrame(EncodeScene(s), comp).Ok?
    ensures LoadScene(WriteFrame(EncodeScene(s), comp).value, dec) == Ok(s)
  {
    FrameRoundTrip(EncodeScene(s), comp, dec);
    SceneRoundTripWhole(s);
  }

  /** A file with no records loads as an empty buffer, and an empty buffer is
      written as no records. */
  lemma EmptyFrame(comp: BlockCompress, dec: BlockDecompress)
    ensures ReadRecords([], BUFFER_SIZE, dec) == Ok([])
    ensures WriteFrame([], comp) == Ok([])
  {
    ChunksOfCover([], CHUNK_SIZE);
  }
}
