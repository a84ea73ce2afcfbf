/** The structural scene codec: the scene entities and their byte-exact
    serialization. `Serialize` appends raw little-endian records to a growing
    buffer and `Deserialize` walks a forward-only cursor over a byte slice.
    Each pure `EncodeX` is what `X::serialize_buf` appends; each pure
    `DecodeX(b)` is what `X::deserialize` returns together with the cursor it
    leaves behind, or the panic it raises. Vec2/Vec3/Vec4/Mat4 are opaque
    fixed-size blobs (their float contents play no part in the format). */
module SceneCodec {
  import opened Wire

  type Vec2 = b: seq<byte> | |b| == 8 witness [0, 0, 0, 0, 0, 0, 0, 0]
  type Vec3 = b: seq<byte> | |b| == 12 witness [0, 0, 0, 0, 0, 0, 0, 0, 0, 0, 0, 0]
  type Vec4 = b: seq<byte> | |b| == 16 witness [0, 0, 0, 0, 0, 0, 0, 0, 0, 0, 0, 0, 0, 0, 0, 0]
  type Mat4 = b: seq<byte> | |b| == 64 witness seq(64, i => 0)

  datatype Format = RGBA8 | SRGBA8

  datatype MaterialParameter =
    | None
    | Texture(index: u32)
    | Vec2(v2: Vec2)
    | Vec3(v3: Vec3)
    | Vec4(v4: Vec4)

  datatype Material = Material(
    baseColor: MaterialParameter,
    normal: MaterialParameter,
    specular: MaterialParameter,
    emissive: MaterialParameter)

  datatype Mesh = Mesh(
    positions: seq<Vec3>,
    normals: seq<Vec3>,
    tangents: seq<Vec3>,
    uvs: seq<Vec2>,
    indices: seq<u32>,
    transform: Mat4,
    material: Material)

  datatype Image = Image(width: u32, height: u32, format: Format, data: seq<byte>)

  datatype Scene = Scene(meshes: seq<Mesh>, images: seq<Image>)

  /** Sizes of the element types, `size_of::<T>()`. */
  const VEC2_SIZE: nat := 8
  const VEC3_SIZE: nat := 12
  const VEC4_SIZE: nat := 16
  const MAT4_SIZE: nat := 64
  const INDEX_SIZE: nat := 4

  // ---------------------------------------------------------------- tags

  /** `impl Into<u32> for Format`. */
  function FormatToU32(f: Format): (r: u32)
    ensures r < 2
  {
    match f
    case RGBA8 => 0
    case SRGBA8 => 1
  }

  /** `impl TryFrom<u32> for Format`: the inverse of FormatToU32, and
      "Unknown format" for every other value. */
  function FormatFromU32(v: u32): (r: Result<Format>)
    ensures r.Ok? <==> v < 2
    ensures r.Ok? ==> FormatToU32(r.value) == v
    ensures r.Err? ==> r.error == UnknownFormat
  {
    match v
    case 0 => Ok(RGBA8)
    case 1 => Ok(SRGBA8)
    case _ => Err(UnknownFormat)
  }

  lemma FormatRoundTrip(f: Format)
    ensures FormatFromU32(FormatToU32(f)) == Ok(f)
  {
  }

  /** `impl Into<u32> for MaterialParameter`. */
  function ParamTag(p: MaterialParameter): (r: u32)
    ensures r <= 4
  {
    match p
    case None => 0
    case Texture(_) => 1
    case Vec2(_) => 2
    case Vec3(_) => 3
    case Vec4(_) => 4
  }

  /** Number of payload bytes that follow the tag. */
  function PayloadSize(p: MaterialParameter): (n: nat)
    ensures n <= VEC4_SIZE
  {
    match p
    case None => 0
    case Texture(_) => 4
    case Vec2(_) => VEC2_SIZE
    case Vec3(_) => VEC3_SIZE
    case Vec4(_) => VEC4_SIZE
  }

  lemma ParamTagInjective(p: MaterialParameter, q: MaterialParameter)
    requires ParamTag(p) == ParamTag(q)
    ensures p.None? == q.None? && p.Texture? == q.Texture? && p.Vec2? == q.Vec2?
    ensures p.Vec3? == q.Vec3? && p.Vec4? == q.Vec4? && PayloadSize(p) == PayloadSize(q)
  {
  }

  // ---------------------------------------------------------- well-formed

  /** The byte lengths the format writes as u64 fit in a u64 (a `usize` on the
      64-bit platform the code runs on always does). */
  ghost predicate ValidMesh(m: Mesh)
  {
    && |m.positions| * VEC3_SIZE < U64_LIMIT
    && |m.normals| * VEC3_SIZE < U64_LIMIT
    && |m.tangents| * VEC3_SIZE < U64_LIMIT
    && |m.uvs| * VEC2_SIZE < U64_LIMIT
    && |m.indices| * INDEX_SIZE < U64_LIMIT
  }

  ghost predicate ValidImage(img: Image)
  {
    |img.data| < U64_LIMIT
  }

  ghost predicate ValidScene(s: Scene)
  {
    && |s.meshes| < U64_LIMIT
    && |s.images| < U64_LIMIT
    && ValidMeshes(s.meshes)
    && ValidImages(s.images)
  }

  ghost predicate ValidMeshes(ms: seq<Mesh>)
  {
    forall m | m in ms :: ValidMesh(m)
  }

  ghost predicate ValidImages(imgs: seq<Image>)
  {
    forall img | img in imgs :: ValidImage(img)
  }

  // ------------------------------------------------------------- encoders

  /** A `usize` length written as `to_le_bytes` on a 64-bit target. No Rust
      buffer reaches 2^64 bytes, so for every value ValidScene admits the
      reduction is the identity; it only keeps the encoder total. */
  function LenBytes(n: nat): (r: seq<byte>)
    ensures |r| == 8
    ensures n < U64_LIMIT ==> FromLE(r) == n
  {
    U64Bytes(n % U64_LIMIT)
  }

  /** `impl Serialize for Vec<T>`: an 8-byte LE byte length, then the bytes. */
  function EncodeVec(bytes: seq<byte>): (r: seq<byte>)
    ensures |r| == 8 + |bytes| && r[8..] == bytes
    ensures |bytes| < U64_LIMIT ==> FromLE(r[..8]) == |bytes|
  {
    LenBytes(|bytes|) + bytes
  }

  /** `cast_slice` of a `[u32]`: every index as 4 LE bytes, packed. */
  function IndexRecords(xs: seq<u32>): (r: seq<seq<byte>>)
    ensures |r| == |xs| && AllWidth(r, INDEX_SIZE)
    ensures forall i :: 0 <= i < |xs| ==> FromLE(r[i]) == xs[i]
  {
    seq(|xs|, i requires 0 <= i < |xs| => U32Bytes(xs[i]))
  }

  /** `MaterialParameter::serialize_buf`: the u32 tag, then the payload. */
  function EncodeParam(p: MaterialParameter): (r: seq<byte>)
    ensures |r| == 4 + PayloadSize(p) && FromLE(r[..4]) == ParamTag(p)
  {
    U32Bytes(ParamTag(p)) +
    match p
    case None => []
    case Texture(v) => U32Bytes(v)
    case Vec2(v) => v
    case Vec3(v) => v
    case Vec4(v) => v
  }

  /** `Material::serialize_buf`: the four slots in field order, 16 to 80
      bytes, opening with the base colour's tag. */
  function EncodeMaterial(m: Material): (r: seq<byte>)
    ensures 16 <= |r| <= 16 + 4 * VEC4_SIZE && FromLE(r[..4]) == ParamTag(m.baseColor)
  {
    var first := EncodeParam(m.baseColor);
    var r := first + (EncodeParam(m.normal) + (EncodeParam(m.specular) + EncodeParam(m.emissive)));
    assert r[..4] == first[..4];
    r
  }

  /** `Mesh::serialize_buf`: five vectors, the transform and the material;
      the record opens with the byte length of the positions. */
  function EncodeMesh(m: Mesh): (r: seq<byte>)
    ensures |r| >= 5 * 8 + MAT4_SIZE + 16
    ensures r[..8] == LenBytes(|m.positions| * VEC3_SIZE)
  {
    FlattenLength(m.positions, VEC3_SIZE);
    EncodeVec(Flatten(m.positions)) + (EncodeVec(Flatten(m.normals)) + (EncodeVec(Flatten(m.tangents))
    + (EncodeVec(Flatten(m.uvs)) + (EncodeVec(Flatten(IndexRecords(m.indices)))
    + (m.transform + EncodeMaterial(m.material))))))
  }

  /** `Image::serialize_buf`: width, height and format as u32s, then the
      pixel bytes as a `Vec`. */
  function EncodeImage(img: Image): (r: seq<byte>)
    ensures |r| == 20 + |img.data| && r[8..12] == U32Bytes(FormatToU32(img.format)) && r[20..] == img.data
  {
    U32Bytes(img.width) + (U32Bytes(img.height) + (U32Bytes(FormatToU32(img.format)) + EncodeVec(img.data)))
  }

  /** The meshes serialized one after another (the `for m in self.meshes` loop). */
  function EncodeMeshes(ms: seq<Mesh>): seq<byte>
  {
    EncodeMany(ms, EncodeMesh)
  }

  function EncodeImages(imgs: seq<Image>): seq<byte>
  {
    EncodeMany(imgs, EncodeImage)
  }

  /** `impl Serialize for Scene`: mesh count, meshes, image count, images. */
  function EncodeScene(s: Scene): (r: seq<byte>)
    ensures |r| >= 16 && r[..8] == LenBytes(|s.meshes|)
  {
    LenBytes(|s.meshes|) + (EncodeMeshes(s.meshes) + (LenBytes(|s.images|) + EncodeImages(s.images)))
  }

  // ------------------------------------------------------------- decoders

  /** `<&T>::deserialize` for a `T` of `n` bytes: copies exactly `n` bytes and
      advances the cursor by `n`; panics when fewer remain. */
  function ReadFixed(b: seq<byte>, n: nat): (r: Result<(seq<byte>, seq<byte>)>)
    ensures r.Ok? <==> |b| >= n
    ensures r.Ok? ==> r.value.0 == b[..n] && r.value.1 == b[n..]
    ensures r.Err? ==> r.error == OutOfBounds
  {
    if |b| < n then Err(OutOfBounds) else Ok((b[..n], b[n..]))
  }

  /** The byte part of `Vec<T>::deserialize`: reads the 8-byte LE length `n`,
      copies the next `n` bytes and advances the cursor by `8 + n`. */
  function DecodeVecBytes(b: seq<byte>): (r: Result<(seq<byte>, seq<byte>)>)
    ensures r.Ok? <==> |b| >= 8 && |b| - 8 >= FromLE(b[..8])
    ensures r.Ok? ==> var n := FromLE(b[..8]); r.value.0 == b[8..8 + n] && r.value.1 == b[8 + n..]
    ensures r.Err? ==> r.error == OutOfBounds
    ensures r.Ok? ==> EncodeVec(r.value.0) + r.value.1 == b
  {
    var h :- ReadU64(b);
    var n, rest := h.0, h.1;
    if |rest| < n then Err(OutOfBounds)
    else
      assert LenBytes(n) == b[..8];
      assert b == b[..8] + (rest[..n] + rest[n..]);
      Ok((rest[..n], rest[n..]))
  }

  /** `Vec<T>::deserialize` for a `T` of `w` bytes: the byte length must be a
      multiple of `w` (`cast_slice` panics otherwise). */
  function DecodeRecords(b: seq<byte>, w: nat): (r: Result<(seq<seq<byte>>, seq<byte>)>)
    requires w > 0
    ensures r.Ok? ==> AllWidth(r.value.0, w)
    ensures r.Ok? ==> DecodeVecBytes(b).Ok? && Flatten(r.value.0) == DecodeVecBytes(b).value.0
    ensures r.Ok? ==> r.value.1 == DecodeVecBytes(b).value.1
    ensures DecodeVecBytes(b).Ok? && |DecodeVecBytes(b).value.0| % w != 0 ==> r == Err(SliceSlop)
    ensures r.Ok? ==> EncodeVec(Flatten(r.value.0)) + r.value.1 == b
  {
    var d :- DecodeVecBytes(b);
    var bytes, rest := d.0, d.1;
    if |bytes| % w != 0 then Err(SliceSlop)
    else
      DivExact(|bytes|, w);
      FlattenChunks(bytes, w, |bytes| / w);
      Ok((Chunks(bytes, w, |bytes| / w), rest))
  }

  function DecodeVec3s(b: seq<byte>): (r: Result<(seq<Vec3>, seq<byte>)>)
    ensures r.Ok? == DecodeRecords(b, VEC3_SIZE).Ok?
    ensures r.Ok? ==> r.value == DecodeRecords(b, VEC3_SIZE).value
    ensures r.Ok? ==> EncodeVec(Flatten(r.value.0)) + r.value.1 == b
  {
    var d :- DecodeRecords(b, VEC3_SIZE);
    var xs: seq<Vec3> := d.0;
    Ok((xs, d.1))
  }

  function DecodeVec2s(b: seq<byte>): (r: Result<(seq<Vec2>, seq<byte>)>)
    ensures r.Ok? == DecodeRecords(b, VEC2_SIZE).Ok?
    ensures r.Ok? ==> r.value == DecodeRecords(b, VEC2_SIZE).value
    ensures r.Ok? ==> EncodeVec(Flatten(r.value.0)) + r.value.1 == b
  {
    var d :- DecodeRecords(b, VEC2_SIZE);
    var xs: seq<Vec2> := d.0;
    Ok((xs, d.1))
  }

  function DecodeIndices(b: seq<byte>): (r: Result<(seq<u32>, seq<byte>)>)
    ensures r.Ok? == DecodeRecords(b, INDEX_SIZE).Ok?
    ensures r.Ok? ==> IndexRecords(r.value.0) == DecodeRecords(b, INDEX_SIZE).value.0
    ensures r.Ok? ==> r.value.1 == DecodeRecords(b, INDEX_SIZE).value.1
    ensures r.Ok? ==> EncodeVec(Flatten(IndexRecords(r.value.0))) + r.value.1 == b
  {
    var d :- DecodeRecords(b, INDEX_SIZE);
    var cs := d.0;
    Pow256Values();
    var xs: seq<u32> := seq(|cs|, i requires 0 <= i < |cs| => FromLE(cs[i]));
    assert IndexRecords(xs) == cs by {
      forall i | 0 <= i < |cs| ensures IndexRecords(xs)[i] == cs[i] {
        LEOfFromLE(cs[i]);
      }
    }
    Ok((xs, d.1))
  }

  /** `MaterialParameter::deserialize`: a u32 tag, then its payload; any tag
      above 4 panics. */
  function DecodeParam(b: seq<byte>): (r: Result<(MaterialParameter, seq<byte>)>)
    ensures |b| >= 4 && FromLE(b[..4]) > 4 ==> r == Err(UnknownTag)
    ensures r.Ok? ==> |b| >= 4 + PayloadSize(r.value.0)
    ensures r.Ok? ==> ParamTag(r.value.0) == FromLE(b[..4]) && r.value.1 == b[4 + PayloadSize(r.value.0)..]
    ensures r.Ok? ==> EncodeParam(r.value.0) == b[..4 + PayloadSize(r.value.0)]
    ensures r.Ok? ==> EncodeParam(r.value.0) + r.value.1 == b
  {
    var t :- ReadU32(b);
    var tag, r1 := t.0, t.1;
    if tag == 0 then Ok((None, r1))
    else if tag > 4 then Err(UnknownTag)
    else
      var p :- DecodePayload(tag, r1);
      assert b[..4 + PayloadSize(p.0)] == b[..4] + r1[..PayloadSize(p.0)];
      Ok(p)
  }

  /** The payload read for a tag from 1 to 4: a u32 texture index or a
      fixed-size vector. */
  function DecodePayload(tag: u32, b: seq<byte>): (r: Result<(MaterialParameter, seq<byte>)>)
    requires 1 <= tag <= 4
    ensures r.Ok? ==> ParamTag(r.value.0) == tag && |b| >= PayloadSize(r.value.0)
    ensures r.Ok? ==> r.value.1 == b[PayloadSize(r.value.0)..]
    ensures r.Ok? ==> EncodeParam(r.value.0) == U32Bytes(tag) + b[..PayloadSize(r.value.0)]
  {
    if tag == 1 then
      var v :- ReadU32(b);
      Ok((Texture(v.0), v.1))
    else if tag == 2 then
      var v :- ReadFixed(b, VEC2_SIZE);
      Ok((Vec2(v.0), v.1))
    else if tag == 3 then
      var v :- ReadFixed(b, VEC3_SIZE);
      Ok((Vec3(v.0), v.1))
    else
      var v :- ReadFixed(b, VEC4_SIZE);
      Ok((Vec4(v.0), v.1))
  }

  /** Four reads in a row, each consuming its encoding, consume the four
      encodings together. */
  lemma Reassemble4(e0: seq<byte>, e1: seq<byte>, e2: seq<byte>, e3: seq<byte>,
                    b: seq<byte>, r0: seq<byte>, r1: seq<byte>, r2: seq<byte>, r3: seq<byte>)
    requires b == e0 + r0 && r0 == e1 + r1 && r1 == e2 + r2 && r2 == e3 + r3
    ensures e0 + (e1 + (e2 + e3)) + r3 == b
  {
    Assoc(e2, e3, r3);
    Assoc(e1, e2 + e3, r3);
    Assoc(e0, e1 + (e2 + e3), r3);
  }

  /** The seven reads of `Mesh::deserialize` consume the mesh's encoding. */
  lemma MeshReassembled(b: seq<byte>, pos: (seq<Vec3>, seq<byte>), nrm: (seq<Vec3>, seq<byte>),
                        tan: (seq<Vec3>, seq<byte>), uvs: (seq<Vec2>, seq<byte>), idx: (seq<u32>, seq<byte>),
                        tr: (seq<byte>, seq<byte>), mat: (Material, seq<byte>))
    requires EncodeVec(Flatten(pos.0)) + pos.1 == b && EncodeVec(Flatten(nrm.0)) + nrm.1 == pos.1
    requires EncodeVec(Flatten(tan.0)) + tan.1 == nrm.1 && EncodeVec(Flatten(uvs.0)) + uvs.1 == tan.1
    requires EncodeVec(Flatten(IndexRecords(idx.0))) + idx.1 == uvs.1
    requires |idx.1| >= MAT4_SIZE && tr.0 == idx.1[..MAT4_SIZE] && tr.1 == idx.1[MAT4_SIZE..]
    requires EncodeMaterial(mat.0) + mat.1 == tr.1
    ensures EncodeMesh(Mesh(pos.0, nrm.0, tan.0, uvs.0, idx.0, tr.0, mat.0)) + mat.1 == b
  {
    assert tr.0 + tr.1 == idx.1;
    var e0, e1, e2 := EncodeVec(Flatten(pos.0)), EncodeVec(Flatten(nrm.0)), EncodeVec(Flatten(tan.0));
    var e3, e4 := EncodeVec(Flatten(uvs.0)), EncodeVec(Flatten(IndexRecords(idx.0)));
    var e5, e6 := tr.0, EncodeMaterial(mat.0);
    Reassemble4(e3, e4, e5, e6, tan.1, uvs.1, idx.1, tr.1, mat.1);
    var t := e3 + (e4 + (e5 + e6));
    Reassemble4(e0, e1, e2, t, b, pos.1, nrm.1, tan.1, mat.1);
    Assoc(e3, e4 + (e5 + e6), mat.1);
    assert e0 + (e1 + (e2 + t)) == EncodeMesh(Mesh(pos.0, nrm.0, tan.0, uvs.0, idx.0, tr.0, mat.0));
  }

  /** The four reads of `Scene::deserialize` consume the scene's encoding. */
  lemma SceneReassembled(b: seq<byte>, mc: (u64, seq<byte>), ms: (seq<Mesh>, seq<byte>),
                         ic: (u64, seq<byte>), imgs: (seq<Image>, seq<byte>))
    requires |b| >= 8 && mc.1 == b[8..] && U64Bytes(mc.0) == b[..8]
    requires |ms.0| == mc.0 && EncodeMeshes(ms.0) + ms.1 == mc.1
    requires |ms.1| >= 8 && ic.1 == ms.1[8..] && U64Bytes(ic.0) == ms.1[..8]
    requires |imgs.0| == ic.0 && EncodeImages(imgs.0) + imgs.1 == ic.1
    ensures EncodeScene(Scene(ms.0, imgs.0)) + imgs.1 == b
  {
    assert b == U64Bytes(mc.0) + mc.1 && ms.1 == U64Bytes(ic.0) + ic.1;
    Reassemble4(LenBytes(|ms.0|), EncodeMeshes(ms.0), LenBytes(|imgs.0|), EncodeImages(imgs.0), b, mc.1, ms.1, ic.1, imgs.1);
  }

  /** `Material::deserialize`: the four slots in field order. */
  function DecodeMaterial(b: seq<byte>): (r: Result<(Material, seq<byte>)>)
    ensures r.Ok? ==> EncodeMaterial(r.value.0) + r.value.1 == b
  {
    var p0 :- DecodeParam(b);
    var p1 :- DecodeParam(p0.1);
    var p2 :- DecodeParam(p1.1);
    var p3 :- DecodeParam(p2.1);
    var m := Material(p0.0, p1.0, p2.0, p3.0);
    Reassemble4(EncodeParam(p0.0), EncodeParam(p1.0), EncodeParam(p2.0), EncodeParam(p3.0), b, p0.1, p1.1, p2.1, p3.1);
    Ok((m, p3.1))
  }

  /** `Mesh::deserialize`: positions, normals, tangents, uvs, indices,
      transform, material, in that order. */
  function DecodeMesh(b: seq<byte>): (r: Result<(Mesh, seq<byte>)>)
    ensures r.Ok? ==> EncodeMesh(r.value.0) + r.value.1 == b
  {
    var pos :- DecodeVec3s(b);
    var nrm :- DecodeVec3s(pos.1);
    var tan :- DecodeVec3s(nrm.1);
    var uvs :- DecodeVec2s(tan.1);
    var idx :- DecodeIndices(uvs.1);
    var tr :- ReadFixed(idx.1, MAT4_SIZE);
    var mat :- DecodeMaterial(tr.1);
    var m := Mesh(pos.0, nrm.0, tan.0, uvs.0, idx.0, tr.0, mat.0);
    MeshReassembled(b, pos, nrm, tan, uvs, idx, tr, mat);
    Ok((m, mat.1))
  }

  /** `Image::deserialize`: width, height, format (unwrapped), data. */
  function DecodeImage(b: seq<byte>): (r: Result<(Image, seq<byte>)>)
    ensures r.Ok? ==> EncodeImage(r.value.0) + r.value.1 == b
  {
    var w :- ReadU32(b);
    var h :- ReadU32(w.1);
    var f :- ReadU32(h.1);
    var format :- FormatFromU32(f.0);
    var d :- DecodeVecBytes(f.1);
    var img := Image(w.0, h.0, format, d.0);
    assert b == U32Bytes(w.0) + w.1 && w.1 == U32Bytes(h.0) + h.1 && h.1 == U32Bytes(FormatToU32(format)) + f.1;
    Reassemble4(U32Bytes(w.0), U32Bytes(h.0), U32Bytes(FormatToU32(format)), EncodeVec(d.0), b, w.1, h.1, f.1, d.1);
    Ok((img, d.1))
  }

  lemma MeshesReencode(n: nat, b: seq<byte>)
    ensures DecodeMany(n, b, DecodeMesh).Ok? ==>
      EncodeMany(DecodeMany(n, b, DecodeMesh).value.0, EncodeMesh) + DecodeMany(n, b, DecodeMesh).value.1 == b
  {
    forall c | DecodeMesh(c).Ok?
      ensures EncodeMesh(DecodeMesh(c).value.0) + DecodeMesh(c).value.1 == c
    {
    }
    DecodeManyReencodes(n, b, DecodeMesh, EncodeMesh);
  }

  lemma ImagesReencode(n: nat, b: seq<byte>)
    ensures DecodeMany(n, b, DecodeImage).Ok? ==>
      EncodeMany(DecodeMany(n, b, DecodeImage).value.0, EncodeImage) + DecodeMany(n, b, DecodeImage).value.1 == b
  {
    forall c | DecodeImage(c).Ok?
      ensures EncodeImage(DecodeImage(c).value.0) + DecodeImage(c).value.1 == c
    {
    }
    DecodeManyReencodes(n, b, DecodeImage, EncodeImage);
  }

  /** `n` meshes read one after another (the `for _ in 0..meshes_count` loop). */
  function DecodeMeshes(n: nat, b: seq<byte>): (r: Result<(seq<Mesh>, seq<byte>)>)
    ensures r.Ok? ==> |r.value.0| == n && EncodeMeshes(r.value.0) + r.value.1 == b
  {
    MeshesReencode(n, b);
    DecodeMany(n, b, DecodeMesh)
  }

  function DecodeImages(n: nat, b: seq<byte>): (r: Result<(seq<Image>, seq<byte>)>)
    ensures r.Ok? ==> |r.value.0| == n && EncodeImages(r.value.0) + r.value.1 == b
  {
    ImagesReencode(n, b);
    DecodeMany(n, b, DecodeImage)
  }

  /** `Scene::deserialize`: the scene and the cursor left after it. */
  function DecodeScene(b: seq<byte>): (r: Result<(Scene, seq<byte>)>)
    ensures r.Ok? ==> EncodeScene(r.value.0) + r.value.1 == b
  {
    var mc :- ReadU64(b);
    var ms :- DecodeMeshes(mc.0, mc.1);
    var ic :- ReadU64(ms.1);
    var imgs :- DecodeImages(ic.0, ic.1);
    var sc := Scene(ms.0, imgs.0);
    SceneReassembled(b, mc, ms, ic, imgs);
    Ok((sc, imgs.1))
  }

  // ---------------------------------------------------------- round trips

  lemma VecRoundTrip(bytes: seq<byte>, rest: seq<byte>)
    requires |bytes| < U64_LIMIT
    ensures DecodeVecBytes(EncodeVec(bytes) + rest) == Ok((bytes, rest))
  {
    var b := EncodeVec(bytes) + rest;
    assert LenBytes(|bytes|) == U64Bytes(|bytes|);
    assert b == U64Bytes(|bytes|) + (bytes + rest);
    ReadU64OfBytes(|bytes|, bytes + rest);
    assert (bytes + rest)[..|bytes|] == bytes && (bytes + rest)[|bytes|..] == rest;
  }

  lemma RecordsRoundTrip(xs: seq<seq<byte>>, w: nat, rest: seq<byte>)
    requires w > 0 && AllWidth(xs, w) && |xs| * w < U64_LIMIT
    ensures |Flatten(xs)| == |xs| * w
    ensures DecodeRecords(EncodeVec(Flatten(xs)) + rest, w) == Ok((xs, rest))
  {
    ChunksFlatten(xs, w);
    VecRoundTrip(Flatten(xs), rest);
    MulDivExact(|xs|, w);
  }

  lemma Vec3sRoundTrip(xs: seq<Vec3>, rest: seq<byte>)
    requires |xs| * VEC3_SIZE < U64_LIMIT
    ensures |Flatten(xs)| < U64_LIMIT
    ensures DecodeVec3s(EncodeVec(Flatten(xs)) + rest) == Ok((xs, rest))
  {
    RecordsRoundTrip(xs, VEC3_SIZE, rest);
  }

  lemma Vec2sRoundTrip(xs: seq<Vec2>, rest: seq<byte>)
    requires |xs| * VEC2_SIZE < U64_LIMIT
    ensures |Flatten(xs)| < U64_LIMIT
    ensures DecodeVec2s(EncodeVec(Flatten(xs)) + rest) == Ok((xs, rest))
  {
    RecordsRoundTrip(xs, VEC2_SIZE, rest);
  }

  lemma IndicesRoundTrip(xs: seq<u32>, rest: seq<byte>)
    requires |xs| * INDEX_SIZE < U64_LIMIT
    ensures |Flatten(IndexRecords(xs))| < U64_LIMIT
    ensures DecodeIndices(EncodeVec(Flatten(IndexRecords(xs))) + rest) == Ok((xs, rest))
  {
    var idx := IndexRecords(xs);
    RecordsRoundTrip(idx, INDEX_SIZE, rest);
    var ix := DecodeIndices(EncodeVec(Flatten(idx)) + rest);
    assert IndexRecords(ix.value.0) == idx;
    assert ix.value.0 == xs by {
      forall i | 0 <= i < |xs| ensures ix.value.0[i] == xs[i] {
        assert FromLE(idx[i]) == xs[i];
      }
    }
  }

  lemma ParamRoundTrip(p: MaterialParameter, rest: seq<byte>)
    ensures DecodeParam(EncodeParam(p) + rest) == Ok((p, rest))
  {
    var payload := EncodeParam(p)[4..];
    assert EncodeParam(p) + rest == U32Bytes(ParamTag(p)) + (payload + rest);
    ReadU32OfBytes(ParamTag(p), payload + rest);
    match p
    case None =>
    case Texture(v) => ReadU32OfBytes(v, rest);
    case Vec2(v) => assert (v + rest)[..8] == v && (v + rest)[8..] == rest;
    case Vec3(v) => assert (v + rest)[..12] == v && (v + rest)[12..] == rest;
    case Vec4(v) => assert (v + rest)[..16] == v && (v + rest)[16..] == rest;
  }

  lemma MaterialRoundTrip(m: Material, rest: seq<byte>)
    ensures DecodeMaterial(EncodeMaterial(m) + rest) == Ok((m, rest))
  {
    var e2 := EncodeParam(m.specular) + EncodeParam(m.emissive);
    var e1 := EncodeParam(m.normal) + e2;
    Assoc(EncodeParam(m.baseColor), e1, rest);
    Assoc(EncodeParam(m.normal), e2, rest);
    Assoc(EncodeParam(m.specular), EncodeParam(m.emissive), rest);
    var r3 := EncodeParam(m.emissive) + rest;
    var r2 := EncodeParam(m.specular) + r3;
    var r1 := EncodeParam(m.normal) + r2;
    ParamRoundTrip(m.baseColor, r1);
    ParamRoundTrip(m.normal, r2);
    ParamRoundTrip(m.specular, r3);
    ParamRoundTrip(m.emissive, rest);
  }

  lemma MeshRoundTrip(m: Mesh, rest: seq<byte>)
    requires ValidMesh(m)
    ensures DecodeMesh(EncodeMesh(m) + rest) == Ok((m, rest))
  {
    var idx := IndexRecords(m.indices);
    FlattenLength(m.positions, VEC3_SIZE);
    FlattenLength(m.normals, VEC3_SIZE);
    FlattenLength(m.tangents, VEC3_SIZE);
    FlattenLength(m.uvs, VEC2_SIZE);
    FlattenLength(idx, INDEX_SIZE);
    var e5 := m.transform + EncodeMaterial(m.material);
    var e4 := EncodeVec(Flatten(idx)) + e5;
    var e3 := EncodeVec(Flatten(m.uvs)) + e4;
    var e2 := EncodeVec(Flatten(m.tangents)) + e3;
    var e1 := EncodeVec(Flatten(m.normals)) + e2;
    assert EncodeMesh(m) == EncodeVec(Flatten(m.positions)) + e1;
    Assoc(EncodeVec(Flatten(m.positions)), e1, rest);
    Assoc(EncodeVec(Flatten(m.normals)), e2, rest);
    Assoc(EncodeVec(Flatten(m.tangents)), e3, rest);
    Assoc(EncodeVec(Flatten(m.uvs)), e4, rest);
    Assoc(EncodeVec(Flatten(idx)), e5, rest);
    Assoc(m.transform, EncodeMaterial(m.material), rest);
    var r6 := EncodeMaterial(m.material) + rest;
    var r5 := m.transform + r6;
    var r4 := EncodeVec(Flatten(idx)) + r5;
    var r3 := EncodeVec(Flatten(m.uvs)) + r4;
    var r2 := EncodeVec(Flatten(m.tangents)) + r3;
    var r1 := EncodeVec(Flatten(m.normals)) + r2;
    Vec3sRoundTrip(m.positions, r1);
    Vec3sRoundTrip(m.normals, r2);
    Vec3sRoundTrip(m.tangents, r3);
    Vec2sRoundTrip(m.uvs, r4);
    IndicesRoundTrip(m.indices, r5);
    assert r5[..64] == m.transform && r5[64..] == r6;
    MaterialRoundTrip(m.material, rest);
  }

  lemma ImageRoundTrip(img: Image, rest: seq<byte>)
    requires ValidImage(img)
    ensures DecodeImage(EncodeImage(img) + rest) == Ok((img, rest))
  {
    var e2 := U32Bytes(FormatToU32(img.format)) + EncodeVec(img.data);
    var e1 := U32Bytes(img.height) + e2;
    Assoc(U32Bytes(img.width), e1, rest);
    Assoc(U32Bytes(img.height), e2, rest);
    Assoc(U32Bytes(FormatToU32(img.format)), EncodeVec(img.data), rest);
    var r3 := EncodeVec(img.data) + rest;
    var r2 := U32Bytes(FormatToU32(img.format)) + r3;
    var r1 := U32Bytes(img.height) + r2;
    ReadU32OfBytes(img.width, r1);
    ReadU32OfBytes(img.height, r2);
    ReadU32OfBytes(FormatToU32(img.format), r3);
    FormatRoundTrip(img.format);
    VecRoundTrip(img.data, rest);
  }

  lemma MeshesRoundTrip(ms: seq<Mesh>, rest: seq<byte>)
    requires ValidMeshes(ms)
    ensures DecodeMeshes(|ms|, EncodeMeshes(ms) + rest) == Ok((ms, rest))
  {
    forall m, r | m in ms
      ensures DecodeMesh(EncodeMesh(m) + r) == Ok((m, r))
    {
      MeshRoundTrip(m, r);
    }
    ManyRoundTrip(ms, EncodeMesh, DecodeMesh, rest);
  }

  lemma ImagesRoundTrip(imgs: seq<Image>, rest: seq<byte>)
    requires ValidImages(imgs)
    ensures DecodeImages(|imgs|, EncodeImages(imgs) + rest) == Ok((imgs, rest))
  {
    forall img, r | img in imgs
      ensures DecodeImage(EncodeImage(img) + r) == Ok((img, r))
    {
      ImageRoundTrip(img, r);
    }
    ManyRoundTrip(imgs, EncodeImage, DecodeImage, rest);
  }

  /** Decoding an encoded scene gives the scene back and leaves the cursor
      exactly after it; with nothing after it, the whole buffer is consumed. */
  lemma SceneRoundTrip(s: Scene, rest: seq<byte>)
    requires ValidScene(s)
    ensures DecodeScene(EncodeScene(s) + rest) == Ok((s, rest))
  {
    var e2 := LenBytes(|s.images|) + EncodeImages(s.images);
    var e1 := EncodeMeshes(s.meshes) + e2;
    Assoc(LenBytes(|s.meshes|), e1, rest);
    Assoc(EncodeMeshes(s.meshes), e2, rest);
    Assoc(LenBytes(|s.images|), EncodeImages(s.images), rest);
    var r3 := EncodeImages(s.images) + rest;
    var r2 := LenBytes(|s.images|) + r3;
    var r1 := EncodeMeshes(s.meshes) + r2;
    assert LenBytes(|s.meshes|) == U64Bytes(|s.meshes|);
    assert LenBytes(|s.images|) == U64Bytes(|s.images|);
    ReadU64OfBytes(|s.meshes|, r1);
    MeshesRoundTrip(s.meshes, r2);
    ReadU64OfBytes(|s.images|, r3);
    ImagesRoundTrip(s.images, rest);
  }

  lemma SceneRoundTripWhole(s: Scene)
    requires ValidScene(s)
    ensures DecodeScene(EncodeScene(s)) == Ok((s, []))
  {
    SceneRoundTrip(s, []);
    assert EncodeScene(s) + [] == EncodeScene(s);
  }
}
