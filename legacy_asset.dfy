/** The legacy `.asset` container the renderer loads its first mesh from: a
    packed 16-byte header (magic, version, entry count), then a table of packed
    128-byte entries (NUL-terminated name, tag, asset type, byte offset and
    size), with each asset's data at its offset. The file is its bytes; seeks
    and reads become slices of them, and a read that runs past the end is the
    `None` that `read_exact(..).ok()?` returns. */
module LegacyAsset {
  import opened Wire
  import opened Optional
  import SceneCodec

  const ASSET_FILE_MAGIC: u32 := 0xAF00_AF00
  const ASSET_NAME_LENGTH: nat := 80
  const ASSET_TAG_LENGTH: nat := 28
  /** `size_of::<Header>()`, `size_of::<TableEntry>()`, `size_of::<AssetMesh>()`. */
  const HEADER_SIZE: nat := 16
  const ENTRY_SIZE: nat := 128
  const ASSET_MESH_SIZE: nat := 40
  /** `AssetType::Mesh` and `MeshFlags::Animated`. */
  const ASSET_TYPE_MESH: u32 := 1
  const MESH_FLAG_ANIMATED: u32 := 1
  /** The largest byte size `Layout::array` accepts (`isize::MAX` on 64-bit). */
  const ISIZE_MAX: nat := 0x7FFF_FFFF_FFFF_FFFF
  /** Element sizes of the mesh arrays: `Vec3`, `Vec2`, weights/joints and `u32`. */
  const VEC3_BYTES: nat := 12
  const VEC2_BYTES: nat := 8
  const JOINT_BYTES: nat := 16
  const INDEX_BYTES: nat := 4

  datatype Header = Header(magic: u32, version: u32, tableEntryCount: u64)

  datatype TableEntry = TableEntry(name: seq<byte>, tag: seq<byte>, typ: u32, offset: u64, size: u64)

  /** The fields of `AssetMesh`, in declaration order. */
  datatype AssetMesh = AssetMesh(
    flags: u32, verticesCount: u32, indicesCount: u32, texturesCount: u32,
    jointsCount: u32, animationsCount: u32, vertexDataOffset: u32,
    textureAssetsOffset: u32, jointsOffsets: u32, animationsOffset: u32)

  /** An opened asset file: its bytes, header and entry table. */
  datatype AssetFile = AssetFile(file: seq<byte>, header: Header, entries: seq<TableEntry>)

  /** `crate::mesh::Mesh`. */
  datatype LoadedMesh = LoadedMesh(
    positions: seq<SceneCodec.Vec3>, normals: seq<SceneCodec.Vec3>,
    indices: seq<u32>, transform: SceneCodec.Mat4)

  /** The little-endian bytes of the `f32` values 0.0 and 1.0. */
  const F32_ZERO: seq<byte> := [0, 0, 0, 0]
  const F32_ONE: seq<byte> := [0, 0, 0x80, 0x3F]

  /** `Mat4::identity()` as its 16 packed `f32`s. */
  function Identity(): (m: SceneCodec.Mat4)
  {
    var z := F32_ZERO;
    var o := F32_ONE;
    o + z + z + z + z + o + z + z + z + z + o + z + z + z + z + o
  }

  // ------------------------------------------------------------ layouts

  predicate FieldSizes(e: TableEntry)
  {
    |e.name| == ASSET_NAME_LENGTH && |e.tag| == ASSET_TAG_LENGTH
  }

  /** The packed bytes of a header, as the file stores them. */
  function EncodeHeader(h: Header): (r: seq<byte>)
    ensures |r| == HEADER_SIZE
  {
    U32Bytes(h.magic) + U32Bytes(h.version) + U64Bytes(h.tableEntryCount)
  }

  /** `transmute` of the 16 header bytes. */
  function DecodeHeader(b: seq<byte>): (h: Header)
    requires |b| == HEADER_SIZE
    ensures EncodeHeader(h) == b
  {
    Pow256Values();
    LEOfFromLE(b[..4]);
    LEOfFromLE(b[4..8]);
    LEOfFromLE(b[8..]);
    Header(FromLE(b[..4]), FromLE(b[4..8]), FromLE(b[8..]))
  }

  /** The packed bytes of a table entry. */
  function EncodeEntry(e: TableEntry): (r: seq<byte>)
    requires FieldSizes(e)
    ensures |r| == ENTRY_SIZE
  {
    e.name + e.tag + U32Bytes(e.typ) + U64Bytes(e.offset) + U64Bytes(e.size)
  }

  /** One 128-byte record of the table as a `TableEntry`. */
  function DecodeEntry(b: seq<byte>): (e: TableEntry)
    requires |b| == ENTRY_SIZE
    ensures FieldSizes(e) && EncodeEntry(e) == b
  {
    Pow256Values();
    LEOfFromLE(b[108..112]);
    LEOfFromLE(b[112..120]);
    LEOfFromLE(b[120..]);
    var e := TableEntry(b[..80], b[80..108], FromLE(b[108..112]), FromLE(b[112..120]), FromLE(b[120..]));
    assert b[..80] + b[80..108] == b[..108];
    assert b[..108] + b[108..112] == b[..112];
    assert b[..112] + b[112..120] == b[..120];
    assert b[..120] + b[120..] == b;
    e
  }

  lemma DecodeEncodeHeader(h: Header)
    ensures DecodeHeader(EncodeHeader(h)) == h
  {
    var b := EncodeHeader(h);
    Pow256Values();
    assert b[..4] == U32Bytes(h.magic) && b[4..8] == U32Bytes(h.version) && b[8..] == U64Bytes(h.tableEntryCount);
  }

  lemma DecodeEncodeEntry(e: TableEntry)
    requires FieldSizes(e)
    ensures DecodeEntry(EncodeEntry(e)) == e
  {
    var b := EncodeEntry(e);
    assert b[..80] == e.name && b[80..108] == e.tag;
    assert b[108..112] == U32Bytes(e.typ) && b[112..120] == U64Bytes(e.offset) && b[120..] == U64Bytes(e.size);
  }

  /** The ten packed `u32` fields of an `AssetMesh`. */
  function DecodeAssetMesh(b: seq<byte>): (m: AssetMesh)
    requires |b| == ASSET_MESH_SIZE
    ensures U32Bytes(m.flags) == b[0..4] && U32Bytes(m.verticesCount) == b[4..8]
    ensures U32Bytes(m.indicesCount) == b[8..12] && U32Bytes(m.texturesCount) == b[12..16]
    ensures U32Bytes(m.jointsCount) == b[16..20] && U32Bytes(m.animationsCount) == b[20..24]
    ensures U32Bytes(m.vertexDataOffset) == b[24..28] && U32Bytes(m.textureAssetsOffset) == b[28..32]
    ensures U32Bytes(m.jointsOffsets) == b[32..36] && U32Bytes(m.animationsOffset) == b[36..40]
  {
    Pow256Values();
    LEOfFromLE(b[0..4]); LEOfFromLE(b[4..8]); LEOfFromLE(b[8..12]); LEOfFromLE(b[12..16]);
    LEOfFromLE(b[16..20]); LEOfFromLE(b[20..24]); LEOfFromLE(b[24..28]);
    LEOfFromLE(b[28..32]); LEOfFromLE(b[32..36]); LEOfFromLE(b[36..40]);
    AssetMesh(FromLE(b[0..4]), FromLE(b[4..8]), FromLE(b[8..12]), FromLE(b[12..16]),
              FromLE(b[16..20]), FromLE(b[20..24]), FromLE(b[24..28]),
              FromLE(b[28..32]), FromLE(b[32..36]), FromLE(b[36..40]))
  }

  // ---------------------------------------------------------- from_file

  /** The table entries stored in `b`, one per 128 bytes. */
  function DecodeTable(b: seq<byte>, k: nat): (es: seq<TableEntry>)
    requires |b| == k * ENTRY_SIZE
    ensures |es| == k && forall i :: 0 <= i < k ==> FieldSizes(es[i])
  {
    if k == 0 then []
    else
      assert k * ENTRY_SIZE == ENTRY_SIZE + (k - 1) * ENTRY_SIZE;
      [DecodeEntry(b[..ENTRY_SIZE])] + DecodeTable(b[ENTRY_SIZE..], k - 1)
  }

  /** `AssetFile::from_file` on the file's bytes: `None` when the header
      cannot be read, the magic is wrong, the table's byte size is too large
      for a `Layout`, or the file ends inside the table. */
  function FromFile(file: seq<byte>): (r: Option<AssetFile>)
    ensures r.Some? <==>
      && |file| >= HEADER_SIZE && FromLE(file[..4]) == ASSET_FILE_MAGIC
      && FromLE(file[8..16]) * ENTRY_SIZE <= ISIZE_MAX
      && |file| >= HEADER_SIZE + FromLE(file[8..16]) * ENTRY_SIZE
    ensures r.Some? ==> r.value.file == file && EncodeHeader(r.value.header) == file[..HEADER_SIZE]
    ensures r.Some? ==> |r.value.entries| == r.value.header.tableEntryCount
    ensures r.Some? ==>
      && (forall i :: 0 <= i < |r.value.entries| ==> FieldSizes(r.value.entries[i]))
      && HEADER_SIZE + |r.value.entries| * ENTRY_SIZE <= |file|
      && EncodeTable(r.value.entries) == file[HEADER_SIZE..HEADER_SIZE + |r.value.entries| * ENTRY_SIZE]
  {
    if |file| < HEADER_SIZE then None
    else
      var header := DecodeHeader(file[..HEADER_SIZE]);
      assert file[..HEADER_SIZE][..4] == file[..4] && file[..HEADER_SIZE][8..] == file[8..16];
      if header.magic != ASSET_FILE_MAGIC then None
      else
        var count := header.tableEntryCount;
        if count * ENTRY_SIZE > ISIZE_MAX then None
        else if |file| < HEADER_SIZE + count * ENTRY_SIZE then None
        else
          var table := file[HEADER_SIZE..HEADER_SIZE + count * ENTRY_SIZE];
          EncodeDecodeTable(table, count);
          Some(AssetFile(file, header, DecodeTable(table, count)))
  }

  /** The packed bytes of a whole table. */
  function EncodeTable(es: seq<TableEntry>): (r: seq<byte>)
    requires forall i :: 0 <= i < |es| ==> FieldSizes(es[i])
    ensures |r| == |es| * ENTRY_SIZE
  {
    if es == [] then []
    else
      var r := EncodeEntry(es[0]) + EncodeTable(es[1..]);
      assert |es| * ENTRY_SIZE == ENTRY_SIZE + (|es| - 1) * ENTRY_SIZE;
      r
  }

  lemma {:induction false} DecodeEncodeTable(es: seq<TableEntry>)
    requires forall i :: 0 <= i < |es| ==> FieldSizes(es[i])
    ensures DecodeTable(EncodeTable(es), |es|) == es
  {
    if es != [] {
      var b := EncodeTable(es);
      var tail := es[1..];
      DecodeEncodeTable(tail);
      DecodeEncodeEntry(es[0]);
      assert b[..ENTRY_SIZE] == EncodeEntry(es[0]) && b[ENTRY_SIZE..] == EncodeTable(tail);
      assert [es[0]] + tail == es;
    }
  }

  /** The entries read from a table re-encode to exactly its bytes. */
  lemma {:induction false} EncodeDecodeTable(b: seq<byte>, k: nat)
    requires |b| == k * ENTRY_SIZE
    ensures EncodeTable(DecodeTable(b, k)) == b
  {
    if k > 0 {
      assert k * ENTRY_SIZE == ENTRY_SIZE + (k - 1) * ENTRY_SIZE;
      EncodeDecodeTable(b[ENTRY_SIZE..], k - 1);
      var es := DecodeTable(b, k);
      assert es[1..] == DecodeTable(b[ENTRY_SIZE..], k - 1);
      assert b == b[..ENTRY_SIZE] + b[ENTRY_SIZE..];
    }
  }

  /** A file written with the right magic, its header and then its table
      opens to exactly that header and table, whatever follows the table. */
  lemma FromFileRoundTrip(h: Header, es: seq<TableEntry>, data: seq<byte>)
    requires h.magic == ASSET_FILE_MAGIC && |es| == h.tableEntryCount
    requires |es| * ENTRY_SIZE <= ISIZE_MAX
    requires forall i :: 0 <= i < |es| ==> FieldSizes(es[i])
    ensures FromFile(EncodeHeader(h) + EncodeTable(es) + data) ==
      Some(AssetFile(EncodeHeader(h) + EncodeTable(es) + data, h, es))
  {
    var file := EncodeHeader(h) + EncodeTable(es) + data;
    var table := EncodeTable(es);
    assert file[..HEADER_SIZE] == EncodeHeader(h);
    assert file[HEADER_SIZE..HEADER_SIZE + |es| * ENTRY_SIZE] == table;
    DecodeEncodeHeader(h);
    DecodeEncodeTable(es);
  }

  // --------------------------------------------------------- find_asset

  /** Offset of the first NUL byte, or `|b|` when there is none. */
  function FirstNul(b: seq<byte>): (k: nat)
    ensures k <= |b| && (forall j :: 0 <= j < k ==> b[j] != 0) && (k < |b| ==> b[k] == 0)
  {
    if |b| == 0 then 0 else if b[0] == 0 then 0 else 1 + FirstNul(b[1..])
  }

  /** Strict UTF-8 well-formedness, as `str::from_utf8` checks it: no overlong
      forms, no surrogates, nothing above U+10FFFF. */
  predicate Utf8Valid(b: seq<byte>)
    decreases |b|
  {
    if |b| == 0 then true
    else
      var c := b[0];
      if c < 0x80 then Utf8Valid(b[1..])
      else if 0xC2 <= c <= 0xDF then
        |b| >= 2 && IsCont(b[1]) && Utf8Valid(b[2..])
      else if 0xE0 <= c <= 0xEF then
        |b| >= 3 && IsCont(b[1]) && IsCont(b[2])
        && (c == 0xE0 ==> b[1] >= 0xA0) && (c == 0xED ==> b[1] <= 0x9F)
        && Utf8Valid(b[3..])
      else if 0xF0 <= c <= 0xF4 then
        |b| >= 4 && IsCont(b[1]) && IsCont(b[2]) && IsCont(b[3])
        && (c == 0xF0 ==> b[1] >= 0x90) && (c == 0xF4 ==> b[1] <= 0x8F)
        && Utf8Valid(b[4..])
      else false
  }

  /** `CStr::from_ptr(e.name.as_ptr()).to_str().unwrap()`: the bytes before the
      first NUL, scanning on from the name field into the tag and type fields
      that follow it in the packed record; panics on invalid UTF-8. */
  function EntryName(e: TableEntry): (r: Result<seq<byte>>)
    ensures r.Ok? ==> Utf8Valid(r.value) && (forall j :: 0 <= j < |r.value| ==> r.value[j] != 0)
    ensures r.Ok? && FieldSizes(e) && |r.value| < ASSET_NAME_LENGTH ==> r.value == e.name[..|r.value|] && e.name[|r.value|] == 0
    ensures var raw := e.name + e.tag + U32Bytes(e.typ); var k := FirstNul(raw);
      r.Err? <==> k == |raw| || !Utf8Valid(raw[..k])
    ensures r.Err? ==> r.error == InvalidName
  {
    var raw := e.name + e.tag + U32Bytes(e.typ);
    var k := FirstNul(raw);
    if k == |raw| || !Utf8Valid(raw[..k]) then Err(InvalidName) else Ok(raw[..k])
  }

  /** A name field holding valid UTF-8 without NUL, then a NUL, reads as
      exactly those bytes. */
  lemma EntryNameDecodes(e: TableEntry, n: seq<byte>)
    requires FieldSizes(e) && |n| < ASSET_NAME_LENGTH && e.name[..|n|] == n && e.name[|n|] == 0
    requires Utf8Valid(n) && forall j :: 0 <= j < |n| ==> n[j] != 0
    ensures EntryName(e) == Ok(n)
  {
    var raw := e.name + e.tag + U32Bytes(e.typ);
    assert raw[..|n|] == n && raw[|n|] == 0;
    assert FirstNul(raw) == |n|;
  }

  predicate Matches(e: TableEntry, name: seq<byte>, typ: u32)
  {
    EntryName(e) == Ok(name) && e.typ == typ
  }

  /** An entry the loop looks at and moves past: its name reads cleanly and
      does not match. */
  predicate Passes(e: TableEntry, name: seq<byte>, typ: u32)
  {
    EntryName(e).Ok? && !Matches(e, name, typ)
  }

  /** What `find_asset` returns for the entries `es`, scanned from the front. */
  function FindAsset(es: seq<TableEntry>, name: seq<byte>, typ: u32): (r: Result<Option<(u64, u64)>>)
    ensures r.Err? ==> r.error == InvalidName
    ensures es == [] ==> r == Ok(None)
  {
    if |es| == 0 then Ok(None)
    else
      var n :- EntryName(es[0]);
      if n == name && es[0].typ == typ then Ok(Some((es[0].offset, es[0].size)))
      else FindAsset(es[1..], name, typ)
  }

  /** `k` is the first entry that matches, every one before it passing. */
  predicate FirstMatch(es: seq<TableEntry>, name: seq<byte>, typ: u32, k: int)
  {
    && 0 <= k < |es| && Matches(es[k], name, typ)
    && forall j :: 0 <= j < k ==> Passes(es[j], name, typ)
  }

  /** What the search does at an entry it stops at: the panic of an
      unreadable name, or the matching entry's offset and size. */
  function Decide(e: TableEntry): Result<Option<(u64, u64)>>
  {
    if EntryName(e).Err? then Err(EntryName(e).error) else Ok(Some((e.offset, e.size)))
  }

  /** The search stops at the first entry that does not pass: with the
      panic of its unreadable name, or with its offset and size when it
      matches. */
  lemma {:induction false} FindAssetAt(es: seq<TableEntry>, name: seq<byte>, typ: u32, k: nat)
    requires k < |es| && !Passes(es[k], name, typ)
    requires forall j :: 0 <= j < k ==> Passes(es[j], name, typ)
    ensures FindAsset(es, name, typ) == Decide(es[k])
    ensures EntryName(es[k]).Ok? ==> Matches(es[k], name, typ)
  {
    if k > 0 {
      assert Passes(es[0], name, typ);
      var tail := es[1..];
      assert forall j :: 0 <= j < k - 1 ==> tail[j] == es[j + 1];
      FindAssetAt(tail, name, typ, k - 1);
    }
  }

  /** When every entry passes, the search finds nothing. */
  lemma {:induction false} FindAssetNone(es: seq<TableEntry>, name: seq<byte>, typ: u32)
    requires forall j :: 0 <= j < |es| ==> Passes(es[j], name, typ)
    ensures FindAsset(es, name, typ) == Ok(None)
  {
    if |es| > 0 {
      assert Passes(es[0], name, typ);
      var tail := es[1..];
      assert forall j :: 0 <= j < |tail| ==> tail[j] == es[j + 1];
      FindAssetNone(tail, name, typ);
    }
  }

  /** Any other outcome comes from the first entry that does not pass. */
  lemma {:induction false} FindAssetDecided(es: seq<TableEntry>, name: seq<byte>, typ: u32) returns (k: nat)
    requires FindAsset(es, name, typ) != Ok(None)
    ensures k < |es| && !Passes(es[k], name, typ)
    ensures forall j :: 0 <= j < k ==> Passes(es[j], name, typ)
    ensures FindAsset(es, name, typ) == Decide(es[k])
  {
    if !Passes(es[0], name, typ) {
      k := 0;
    } else {
      var tail := es[1..];
      assert FindAsset(es, name, typ) == FindAsset(tail, name, typ);
      var k' := FindAssetDecided(tail, name, typ);
      k := k' + 1;
      assert forall j :: 0 < j < k ==> es[j] == tail[j - 1];
    }
  }

  /** `AssetFile::find_asset`: the `for` loop with its early return. */
  method FindAssetIn(f: AssetFile, name: seq<byte>, typ: u32) returns (r: Result<Option<(u64, u64)>>)
    ensures r == FindAsset(f.entries, name, typ)
  {
    var es := f.entries;
    for i := 0 to |es|
      invariant FindAsset(es, name, typ) == FindAsset(es[i..], name, typ)
    {
      assert es[i..][1..] == es[i + 1..];
      var n := EntryName(es[i]);
      if n.Err? {
        return Err(n.error);
      }
      if n.value == name && es[i].typ == typ {
        return Ok(Some((es[i].offset, es[i].size)));
      }
    }
    r := Ok(None);
  }

  // ---------------------------------------------------------- load_mesh

  /** Byte offsets of the mesh's arrays in the file. */
  datatype MeshLayout = MeshLayout(positions: nat, normals: nat, tangents: nat, uvs: nat, indices: nat)

  /** The mesh carries skinning data (weights and joints) between its uvs and
      its indices: the animated flag is set and it has joints. */
  predicate Skinned(info: AssetMesh)
  {
    info.flags % 2 == MESH_FLAG_ANIMATED && info.jointsCount > 0
  }

  /** A `u64` addition that panics on overflow (debug arithmetic). */
  function AddU64(a: nat, b: nat): (r: Result<nat>)
    ensures r.Ok? <==> a + b < U64_LIMIT
    ensures r.Ok? ==> r.value == a + b
  {
    if a + b >= U64_LIMIT then Err(Overflow) else Ok(a + b)
  }

  /** The offset arithmetic of lines 151-165, each addition checked. */
  function SubOffsets(offset: u64, info: AssetMesh): (r: Result<MeshLayout>)
    ensures var vc := info.verticesCount;
      var skin := if Skinned(info) then 2 * JOINT_BYTES * vc else 0;
      r.Ok? <==> offset + info.vertexDataOffset + 3 * VEC3_BYTES * vc + VEC2_BYTES * vc + skin < U64_LIMIT
    ensures r.Err? ==> r.error == Overflow
    ensures r.Ok? ==> var l := r.value; var vc := info.verticesCount;
      && l.positions == offset + info.vertexDataOffset
      && l.normals == l.positions + VEC3_BYTES * vc
      && l.tangents == l.normals + VEC3_BYTES * vc
      && l.uvs == l.tangents + VEC3_BYTES * vc
      && l.indices == l.uvs + VEC2_BYTES * vc + (if Skinned(info) then 2 * JOINT_BYTES * vc else 0)
  {
    var vc := info.verticesCount;
    var positions :- AddU64(offset, info.vertexDataOffset);
    var normals :- AddU64(positions, VEC3_BYTES * vc);
    var tangents :- AddU64(normals, VEC3_BYTES * vc);
    var uvs :- AddU64(tangents, VEC3_BYTES * vc);
    var indices :- AddU64(uvs, VEC2_BYTES * vc);
    var indices' :- if Skinned(info) then SkipSkin(indices, vc) else Ok(indices);
    Ok(MeshLayout(positions, normals, tangents, uvs, indices'))
  }

  /** Lines 162-164: the weights, then the joints, each `16 * vc` bytes. */
  function SkipSkin(weights: nat, vc: nat): (r: Result<nat>)
    ensures r.Ok? <==> weights + 2 * JOINT_BYTES * vc < U64_LIMIT
    ensures r.Ok? ==> r.value == weights + 2 * JOINT_BYTES * vc
    ensures r.Err? ==> r.error == Overflow
  {
    var joints :- AddU64(weights, JOINT_BYTES * vc);
    AddU64(joints, JOINT_BYTES * vc)
  }

  /** `read_vector_at_offset`: `count` records of `w` bytes from `at`, or
      `None` when the file ends first. */
  function ReadVectorAt(file: seq<byte>, at: nat, count: nat, w: nat): (r: Option<seq<seq<byte>>>)
    ensures r.Some? <==> at + count * w <= |file|
    ensures r.Some? ==> |r.value| == count && AllWidth(r.value, w) && Flatten(r.value) == file[at..at + count * w]
  {
    if at + count * w > |file| then None
    else
      FlattenChunks(file[at..at + count * w], w, count);
      Some(Chunks(file[at..at + count * w], w, count))
  }

  /** The header read at the entry's offset, or `None` when the file ends
      inside it. */
  function ReadInfo(file: seq<byte>, offset: u64): (r: Option<AssetMesh>)
    ensures r.Some? <==> offset + ASSET_MESH_SIZE <= |file|
    ensures r.Some? ==> r.value == DecodeAssetMesh(file[offset..offset + ASSET_MESH_SIZE])
  {
    if offset + ASSET_MESH_SIZE > |file| then None
    else Some(DecodeAssetMesh(file[offset..offset + ASSET_MESH_SIZE]))
  }

  /** The bounds check of lines 167-170: `None` when `offset + size`
      overflows or ends before the last index; a panic when the end of the
      index array itself overflows. */
  function CheckBounds(offset: u64, size: u64, l: MeshLayout, indicesCount: u32): (r: Result<bool>)
    ensures offset + size >= U64_LIMIT ==> r == Ok(false)
    ensures offset + size < U64_LIMIT ==>
      r == (if l.indices + INDEX_BYTES * indicesCount >= U64_LIMIT then Err(Overflow)
            else Ok(l.indices + INDEX_BYTES * indicesCount <= offset + size))
  {
    if offset + size >= U64_LIMIT then Ok(false)
    else
      var end :- AddU64(l.indices, INDEX_BYTES * indicesCount);
      Ok(offset + size >= end)
  }

  /** The `u32` values of 4-byte little-endian records. */
  function U32sOf(cs: seq<seq<byte>>): (xs: seq<u32>)
    requires AllWidth(cs, INDEX_BYTES)
    ensures SceneCodec.IndexRecords(xs) == cs
  {
    Pow256Values();
    var xs: seq<u32> := seq(|cs|, i requires 0 <= i < |cs| => FromLE(cs[i]));
    assert SceneCodec.IndexRecords(xs) == cs by {
      forall i | 0 <= i < |cs| ensures SceneCodec.IndexRecords(xs)[i] == cs[i] {
        LEOfFromLE(cs[i]);
      }
    }
    xs
  }

  /** The positions, normals and indices read at the layout's offsets. */
  function ReadArrays(file: seq<byte>, l: MeshLayout, info: AssetMesh): (r: Option<LoadedMesh>)
    ensures r.Some? <==>
      && l.positions + VEC3_BYTES * info.verticesCount <= |file|
      && l.normals + VEC3_BYTES * info.verticesCount <= |file|
      && l.indices + INDEX_BYTES * info.indicesCount <= |file|
    ensures r.Some? ==>
      && |r.value.positions| == info.verticesCount && |r.value.normals| == info.verticesCount
      && |r.value.indices| == info.indicesCount && r.value.transform == Identity()
    ensures r.Some? ==> Flatten(r.value.positions) == file[l.positions..l.positions + VEC3_BYTES * info.verticesCount]
    ensures r.Some? ==> Flatten(r.value.normals) == file[l.normals..l.normals + VEC3_BYTES * info.verticesCount]
    ensures r.Some? ==>
      Flatten(SceneCodec.IndexRecords(r.value.indices)) == file[l.indices..l.indices + INDEX_BYTES * info.indicesCount]
  {
    var vc := info.verticesCount;
    var positions := ReadVectorAt(file, l.positions, vc, VEC3_BYTES);
    var normals := ReadVectorAt(file, l.normals, vc, VEC3_BYTES);
    var indices := ReadVectorAt(file, l.indices, info.indicesCount, INDEX_BYTES);
    if positions.None? || normals.None? || indices.None? then None
    else
      var ps: seq<SceneCodec.Vec3> := positions.value;
      var ns: seq<SceneCodec.Vec3> := normals.value;
      Some(LoadedMesh(ps, ns, U32sOf(indices.value), Identity()))
  }

  /** Lines 141-193 once the entry is found at `offset` with `size`
      bytes: `None` when the entry is too small for the mesh header or the
      file ends inside it, inside the entry or inside an array; a panic when
      an offset overflows. */
  function LoadEntry(file: seq<byte>, offset: u64, size: u64): (r: Result<Option<LoadedMesh>>)
    ensures size < ASSET_MESH_SIZE || offset + ASSET_MESH_SIZE > |file| ==> r == Ok(None)
    ensures r.Err? ==> r.error == Overflow
    ensures r.Ok? && r.value.Some? ==> MeshAt(file, offset, size, r.value.value)
  {
    if size < ASSET_MESH_SIZE then Ok(None)
    else
      var info := ReadInfo(file, offset);
      if info.None? then Ok(None)
      else
        var l :- SubOffsets(offset, info.value);
        var fits :- CheckBounds(offset, size, l, info.value.indicesCount);
        if !fits then Ok(None)
        else Ok(ReadArrays(file, l, info.value))
  }

  /** `m` is what the entry at `offset` with `size` bytes holds: the entry is
      big enough for the mesh header, the index array ends inside the entry,
      and `m` is the arrays read at the header's offsets. */
  ghost predicate MeshAt(file: seq<byte>, offset: u64, size: u64, m: LoadedMesh)
  {
    && size >= ASSET_MESH_SIZE && offset + ASSET_MESH_SIZE <= |file|
    && var info := DecodeAssetMesh(file[offset..offset + ASSET_MESH_SIZE]);
    && SubOffsets(offset, info).Ok?
    && var l := SubOffsets(offset, info).value;
    && l.indices + INDEX_BYTES * info.indicesCount <= offset + size
    && ReadArrays(file, l, info) == Some(m)
  }

  /** `AssetFile::load_mesh`: a missing entry is `None`, the panic of an
      unreadable name before it propagates, and a found entry is loaded from
      its offset and size. */
  function LoadMesh(f: AssetFile, name: seq<byte>): (r: Result<Option<LoadedMesh>>)
    ensures FindAsset(f.entries, name, ASSET_TYPE_MESH).Err? ==> r == Err(FindAsset(f.entries, name, ASSET_TYPE_MESH).error)
    ensures FindAsset(f.entries, name, ASSET_TYPE_MESH) == Ok(None) ==> r == Ok(None)
    ensures FindAsset(f.entries, name, ASSET_TYPE_MESH).Ok? && FindAsset(f.entries, name, ASSET_TYPE_MESH).value.Some? ==>
      var (offset, size) := FindAsset(f.entries, name, ASSET_TYPE_MESH).value.value;
      r == LoadEntry(f.file, offset, size)
  {
    var found :- FindAsset(f.entries, name, ASSET_TYPE_MESH);
    if found.None? then Ok(None)
    else LoadEntry(f.file, found.value.0, found.value.1)
  }

  /** A loaded mesh is the one stored at the first entry named `name` with
      type `Mesh`. */
  lemma LoadMeshFound(f: AssetFile, name: seq<byte>, m: LoadedMesh)
    requires LoadMesh(f, name) == Ok(Some(m))
    ensures exists k ::
      FirstMatch(f.entries, name, ASSET_TYPE_MESH, k) && MeshAt(f.file, f.entries[k].offset, f.entries[k].size, m)
  {
    var k := FindAssetDecided(f.entries, name, ASSET_TYPE_MESH);
    FindAssetAt(f.entries, name, ASSET_TYPE_MESH, k);
    assert FirstMatch(f.entries, name, ASSET_TYPE_MESH, k);
  }
}
