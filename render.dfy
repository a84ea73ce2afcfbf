/** Renderer bookkeeping. Both pipelines pack every mesh of the scene into
    shared vertex and index buffers; the raster pipeline draws mesh `i` with an
    indirect draw command that starts at the mesh's slice of those buffers, the
    ray pipeline records the same offsets in a per-instance constant and
    builds one bottom-level acceleration structure (BLAS) per mesh inside two
    big buffers carved into 256-byte-aligned pieces. A material becomes the
    instance's texture indices and constant colours, and the path tracer
    counts the samples it has accumulated. Only the integer state is kept; the
    GPU calls are left out. */
module Render {
  import opened Wire
  import opened SceneCodec
  import LegacyAsset
  import Importer

  /** Samples the path tracer accumulates before it stops dispatching. */
  const MAX_SAMPLES: u32 := 1024
  const U32_MAX: u32 := 0xFFFF_FFFF
  const I32_LIMIT: nat := 0x8000_0000
  /** Size in bytes of one position (`Vec3`) and one index (`u32`) on the GPU. */
  const POSITION_STRIDE: nat := 12
  const INDEX_STRIDE: nat := 4

  // ---------------------------------------------------------------------
  // Concatenated meshes
  // ---------------------------------------------------------------------

  /** The concatenation of `f(m)` over the meshes, in mesh order: what a loop
      of `extend_from_slice` leaves in the buffer. */
  function Gather<T>(ms: seq<Mesh>, f: Mesh -> seq<T>): seq<T>
  {
    if |ms| == 0 then [] else Gather(ms[..|ms| - 1], f) + f(ms[|ms| - 1])
  }

  /** The sum of `f(m)` over the meshes. */
  function Total(ms: seq<Mesh>, f: Mesh -> nat): nat
  {
    if |ms| == 0 then 0 else Total(ms[..|ms| - 1], f) + f(ms[|ms| - 1])
  }

  function PositionsOf(m: Mesh): seq<Vec3> { m.positions }
  function NormalsOf(m: Mesh): seq<Vec3> { m.normals }
  function TangentsOf(m: Mesh): seq<Vec3> { m.tangents }
  function UvsOf(m: Mesh): seq<Vec2> { m.uvs }
  function IndicesOf(m: Mesh): seq<u32> { m.indices }

  /** `m.positions.len() as u32` and `m.indices.len() as u32`. */
  function PositionCount(m: Mesh): nat { |m.positions| % U32_LIMIT }
  function IndexCount(m: Mesh): nat { |m.indices| % U32_LIMIT }

  /** Neither running `checked_add` total leaves u32. */
  predicate CountsFit(ms: seq<Mesh>)
  {
    Total(ms, PositionCount) < U32_LIMIT && Total(ms, IndexCount) < U32_LIMIT
  }

  /** No mesh is so large that the casts to u32 lose bits. */
  predicate ShortMeshes(ms: seq<Mesh>)
  {
    forall i :: 0 <= i < |ms| ==> |ms[i].positions| < U32_LIMIT && |ms[i].indices| < U32_LIMIT
  }

  lemma GatherSnoc<T>(ms: seq<Mesh>, i: nat, f: Mesh -> seq<T>)
    requires i < |ms|
    ensures Gather(ms[..i + 1], f) == Gather(ms[..i], f) + f(ms[i])
  {
    assert ms[..i + 1][..i] == ms[..i];
  }

  lemma TotalSnoc(ms: seq<Mesh>, i: nat, f: Mesh -> nat)
    requires i < |ms|
    ensures Total(ms[..i + 1], f) == Total(ms[..i], f) + f(ms[i])
  {
    assert ms[..i + 1][..i] == ms[..i];
  }

  /** Gathering a concatenation of mesh lists concatenates the gathers. */
  lemma {:induction false} GatherAppend<T>(a: seq<Mesh>, b: seq<Mesh>, f: Mesh -> seq<T>)
    ensures Gather(a + b, f) == Gather(a, f) + Gather(b, f)
  {
    if |b| != 0 {
      var b' := b[..|b| - 1];
      assert (a + b)[..|a + b| - 1] == a + b';
      assert (a + b)[|a + b| - 1] == b[|b| - 1];
      GatherAppend(a, b', f);
    } else {
      assert a + b == a;
    }
  }

  lemma {:induction false} TotalAppend(a: seq<Mesh>, b: seq<Mesh>, f: Mesh -> nat)
    ensures Total(a + b, f) == Total(a, f) + Total(b, f)
  {
    if |b| != 0 {
      var b' := b[..|b| - 1];
      assert (a + b)[..|a + b| - 1] == a + b';
      assert (a + b)[|a + b| - 1] == b[|b| - 1];
      TotalAppend(a, b', f);
    } else {
      assert a + b == a;
    }
  }

  /** The meshes before `i`, mesh `i` and the meshes after it, gathered. */
  lemma GatherAround<T>(ms: seq<Mesh>, i: nat, f: Mesh -> seq<T>)
    requires i < |ms|
    ensures Gather(ms, f) == Gather(ms[..i], f) + f(ms[i]) + Gather(ms[i + 1..], f)
  {
    assert ms == ms[..i + 1] + ms[i + 1..];
    GatherAppend(ms[..i + 1], ms[i + 1..], f);
    GatherSnoc(ms, i, f);
  }

  /** A running total over a prefix is at most the whole total. */
  lemma TotalPrefix(ms: seq<Mesh>, i: nat, f: Mesh -> nat)
    requires i <= |ms|
    ensures Total(ms[..i], f) <= Total(ms, f)
  {
    assert ms == ms[..i] + ms[i..];
    TotalAppend(ms[..i], ms[i..], f);
  }

  lemma GatherPrefix<T>(ms: seq<Mesh>, i: nat, f: Mesh -> seq<T>)
    requires i <= |ms|
    ensures |Gather(ms[..i], f)| <= |Gather(ms, f)|
  {
    assert ms == ms[..i] + ms[i..];
    GatherAppend(ms[..i], ms[i..], f);
  }

  lemma CountsFitPrefix(ms: seq<Mesh>, i: nat)
    requires i <= |ms| && CountsFit(ms)
    ensures CountsFit(ms[..i])
  {
    TotalPrefix(ms, i, PositionCount);
    TotalPrefix(ms, i, IndexCount);
  }

  lemma ModShift(u: int, k: int)
    ensures (u + U32_LIMIT * k) % U32_LIMIT == u % U32_LIMIT
  {
  }

  /** The total of lengths truncated to u32 agrees with the true total length
      modulo 2^32. */
  lemma {:induction false} TruncatedTotal(ms: seq<Mesh>)
    ensures Total(ms, PositionCount) % U32_LIMIT == |Gather(ms, PositionsOf)| % U32_LIMIT
    ensures Total(ms, IndexCount) % U32_LIMIT == |Gather(ms, IndicesOf)| % U32_LIMIT
  {
    if |ms| != 0 {
      var init, m := ms[..|ms| - 1], ms[|ms| - 1];
      TruncatedTotal(init);
      var a, b := Total(init, PositionCount), |Gather(init, PositionsOf)|;
      ModShift(b + |m.positions|, a / U32_LIMIT - b / U32_LIMIT - |m.positions| / U32_LIMIT);
      assert a + PositionCount(m) == b + |m.positions| + U32_LIMIT * (a / U32_LIMIT - b / U32_LIMIT - |m.positions| / U32_LIMIT);
      var c, d := Total(init, IndexCount), |Gather(init, IndicesOf)|;
      ModShift(d + |m.indices|, c / U32_LIMIT - d / U32_LIMIT - |m.indices| / U32_LIMIT);
      assert c + IndexCount(m) == d + |m.indices| + U32_LIMIT * (c / U32_LIMIT - d / U32_LIMIT - |m.indices| / U32_LIMIT);
    }
  }

  /** Without truncation the running totals are the buffer lengths. */
  lemma {:induction false} ExactTotal(ms: seq<Mesh>)
    requires ShortMeshes(ms)
    ensures Total(ms, PositionCount) == |Gather(ms, PositionsOf)|
    ensures Total(ms, IndexCount) == |Gather(ms, IndicesOf)|
  {
    if |ms| != 0 {
      ExactTotal(ms[..|ms| - 1]);
    }
  }

  // ---------------------------------------------------------------------
  // The material! mapping
  // ---------------------------------------------------------------------

  /** `Vec4::new(x, y, z, w)` for the per-slot defaults, as little-endian f32s. */
  const VEC4_ZERO: Vec4 := LegacyAsset.F32_ZERO + LegacyAsset.F32_ZERO + LegacyAsset.F32_ZERO + LegacyAsset.F32_ZERO
  const ALBEDO_DEFAULT: Vec4 := LegacyAsset.F32_ONE + LegacyAsset.F32_ZERO + LegacyAsset.F32_ONE + LegacyAsset.F32_ONE
  const SPECULAR_DEFAULT: Vec4 := LegacyAsset.F32_ZERO + LegacyAsset.F32_ONE + LegacyAsset.F32_ZERO + LegacyAsset.F32_ZERO
  const EMISSIVE_DEFAULT: Vec4 := VEC4_ZERO

  /** An `*_index` / `*_value` pair of a mesh instance. */
  datatype Binding = Binding(index: u32, value: Vec4)

  /** One expansion of `material!`: a texture keeps its index (the value stays
      at its zero default), a constant colour gets index `u32::MAX` and the
      colour, anything else index `u32::MAX` and the slot's default. */
  function Bind(p: MaterialParameter, default: Vec4): (b: Binding)
    ensures p.Texture? ==> b == Binding(p.index, VEC4_ZERO)
    ensures p.Vec4? ==> b == Binding(U32_MAX, p.v4)
    ensures !p.Texture? && !p.Vec4? ==> b == Binding(U32_MAX, default)
  {
    match p
    case Texture(v) => Binding(v, VEC4_ZERO)
    case Vec4(v) => Binding(U32_MAX, v)
    case _ => Binding(U32_MAX, default)
  }

  /** How a shader reads a binding: `u32::MAX` means "no texture, use the
      constant colour". */
  datatype Colour = Sampled(texture: nat) | Constant(colour: Vec4)

  function Shade(b: Binding): Colour
  {
    if b.index == U32_MAX then Constant(b.value) else Sampled(b.index)
  }

  /** What a material parameter asks for in a slot whose default is `d`. */
  function Meaning(p: MaterialParameter, d: Vec4): Colour
  {
    match p
    case Texture(v) => Sampled(v)
    case Vec4(v) => Constant(v)
    case _ => Constant(d)
  }

  /** The binding conveys the parameter, for every texture index below
      `u32::MAX`. */
  lemma BindConveys(p: MaterialParameter, d: Vec4)
    requires p.Texture? ==> p.index < U32_MAX
    ensures Shade(Bind(p, d)) == Meaning(p, d)
  {
  }

  /** `Texture(u32::MAX)` is the one parameter the mapping garbles: it reads
      as the constant colour zero. */
  lemma BindSentinelClash(d: Vec4)
    ensures Shade(Bind(Texture(U32_MAX), d)) == Constant(VEC4_ZERO)
    ensures Shade(Bind(Texture(U32_MAX), d)) != Meaning(Texture(U32_MAX), d)
  {
  }

  /** The importer never hands out that index: every texture it caches is
      below the image count, itself a u32. */
  lemma ImportedTexturesConvey(st: Importer.ImporterState, path: seq<byte>, d: Vec4)
    requires Importer.ValidState(st) && path in st.cache
    ensures Shade(Bind(st.cache[path], d)) == Meaning(st.cache[path], d)
  {
    BindConveys(st.cache[path], d);
  }

  /** The ray pipeline's normal slot: a texture index or `u32::MAX`. */
  function NormalIndex(p: MaterialParameter): (r: u32)
    ensures r != U32_MAX ==> p == Texture(r)
    ensures p.Texture? && p.index < U32_MAX ==> r == p.index
    ensures !p.Texture? ==> r == U32_MAX
  {
    if p.Texture? then p.index else U32_MAX
  }


  // ---------------------------------------------------------------------
  // Raster::init
  // ---------------------------------------------------------------------

  /** `D3D12_DRAW_INDEXED_ARGUMENTS` behind the mesh index of `DrawArgs`. */
  datatype DrawArgs = DrawArgs(
    index: u32,
    indexCountPerInstance: u32,
    instanceCount: u32,
    startIndexLocation: u32,
    baseVertexLocation: int,
    startInstanceLocation: u32)

  /** `RasterMeshInstance`; the raster pipeline leaves `normal_index` at 0. */
  datatype RasterInstance = RasterInstance(
    transform: Mat4, albedo: Binding, normalIndex: u32, specular: Binding, emissive: Binding)

  datatype RasterBuffers = RasterBuffers(
    positions: seq<Vec3>, normals: seq<Vec3>, uvs: seq<Vec2>, indices: seq<u32>,
    instances: seq<RasterInstance>, commands: seq<DrawArgs>)

  /** `x as i32` of the u32 `x`, kept modulo 2^32. */
  function AsI32(x: nat): (r: int)
    ensures -(I32_LIMIT as int) <= r < I32_LIMIT
    ensures r % U32_LIMIT == x % U32_LIMIT
    ensures x < I32_LIMIT ==> r == x
  {
    var y := x % U32_LIMIT;
    if y < I32_LIMIT then y else y - U32_LIMIT
  }

  /** The `RasterMeshInstance` of mesh `m`: its transform, normal index 0,
      and a bound texture index only where the slot is that texture. */
  function RasterInstanceOf(m: Mesh): (r: RasterInstance)
    ensures r.transform == m.transform && r.normalIndex == 0
    ensures r.albedo.index != U32_MAX ==> m.material.baseColor == Texture(r.albedo.index)
    ensures r.specular.index != U32_MAX ==> m.material.specular == Texture(r.specular.index)
    ensures r.emissive.index != U32_MAX ==> m.material.emissive == Texture(r.emissive.index)
  {
    RasterInstance(m.transform,
      Bind(m.material.baseColor, ALBEDO_DEFAULT), 0,
      Bind(m.material.specular, SPECULAR_DEFAULT),
      Bind(m.material.emissive, EMISSIVE_DEFAULT))
  }

  /** The draw command of mesh `m`, which follows the meshes `before`. */
  function CommandAfter(before: seq<Mesh>, m: Mesh): (r: DrawArgs)
    ensures r.indexCountPerInstance == IndexCount(m) && r.instanceCount == 1 && r.startInstanceLocation == 0
    ensures |before| < U32_LIMIT ==> r.index == |before|
    ensures Total(before, IndexCount) < U32_LIMIT ==> r.startIndexLocation == Total(before, IndexCount)
    ensures Total(before, PositionCount) < I32_LIMIT ==> r.baseVertexLocation == Total(before, PositionCount)
  {
    DrawArgs(|before| % U32_LIMIT, IndexCount(m), 1,
      Total(before, IndexCount) % U32_LIMIT, AsI32(Total(before, PositionCount)), 0)
  }

  /** What the loop of `Raster::init` builds, mesh by mesh: the arrays of the
      meshes concatenated in mesh order, one instance and one draw command
      per mesh. */
  function RasterOf(ms: seq<Mesh>): (b: RasterBuffers)
    ensures |b.instances| == |ms| && |b.commands| == |ms|
  {
    if |ms| == 0 then RasterBuffers([], [], [], [], [], [])
    else
      var init, m := ms[..|ms| - 1], ms[|ms| - 1];
      var b := RasterOf(init);
      RasterBuffers(b.positions + m.positions, b.normals + m.normals, b.uvs + m.uvs, b.indices + m.indices,
        b.instances + [RasterInstanceOf(m)], b.commands + [CommandAfter(init, m)])
  }

  lemma {:induction false} RasterGathers(ms: seq<Mesh>)
    ensures var b := RasterOf(ms);
      && b.positions == Gather(ms, PositionsOf) && b.normals == Gather(ms, NormalsOf)
      && b.uvs == Gather(ms, UvsOf) && b.indices == Gather(ms, IndicesOf)
  {
    if |ms| != 0 {
      RasterGathers(ms[..|ms| - 1]);
    }
  }

  /** The running totals of a loop that did not overflow are the buffer
      lengths as u32: the checks after the loop pass. */
  lemma CountsMatchBuffers(ms: seq<Mesh>)
    requires CountsFit(ms)
    ensures Total(ms, PositionCount) == |RasterOf(ms).positions| % U32_LIMIT
    ensures Total(ms, IndexCount) == |RasterOf(ms).indices| % U32_LIMIT
  {
    TruncatedTotal(ms);
    RasterGathers(ms);
    SmallMod(Total(ms, PositionCount));
    SmallMod(Total(ms, IndexCount));
  }

  lemma SmallMod(x: nat)
    requires x < U32_LIMIT
    ensures x % U32_LIMIT == x
  {
  }

  lemma RasterOfSnoc(ms: seq<Mesh>, i: nat)
    requires i < |ms|
    ensures var b, m := RasterOf(ms[..i]), ms[i];
      RasterOf(ms[..i + 1]) == RasterBuffers(b.positions + m.positions, b.normals + m.normals, b.uvs + m.uvs, b.indices + m.indices,
        b.instances + [RasterInstanceOf(m)], b.commands + [CommandAfter(ms[..i], m)])
  {
    assert ms[..i + 1][..i] == ms[..i];
  }

  /** Instance `i` and draw command `i` belong to mesh `i` and the meshes
      before it. */
  lemma {:induction false} RasterEntries(ms: seq<Mesh>, i: nat)
    requires i < |ms|
    ensures RasterOf(ms).instances[i] == RasterInstanceOf(ms[i])
    ensures RasterOf(ms).commands[i] == CommandAfter(ms[..i], ms[i])
  {
    if i < |ms| - 1 {
      var init := ms[..|ms| - 1];
      RasterEntries(init, i);
      assert init[..i] == ms[..i];
    }
  }

  /** What the loop of `Raster::init` keeps true before mesh `i`: the totals
      so far fit, the counters hold them, and the buffers are those of the
      first `i` meshes. */
  ghost predicate RasterInv(meshes: seq<Mesh>, i: nat, acc: RasterBuffers, currentVertex: u32, currentIndex: u32)
  {
    && i <= |meshes| && CountsFit(meshes[..i])
    && currentVertex == Total(meshes[..i], PositionCount) && currentIndex == Total(meshes[..i], IndexCount)
    && acc == RasterOf(meshes[..i])
  }

  /** The buffers after the loop appends mesh `m` with draw command `command`. */
  function RasterPush(acc: RasterBuffers, m: Mesh, command: DrawArgs): RasterBuffers
  {
    RasterBuffers(
      acc.positions + m.positions, acc.normals + m.normals, acc.uvs + m.uvs, acc.indices + m.indices,
      acc.instances + [RasterInstanceOf(m)], acc.commands + [command])
  }

  /** One turn of the loop: when neither checked add overflows the invariant
      moves on to mesh `i + 1`; when one does, the meshes do not fit. */
  lemma RasterAdvance(meshes: seq<Mesh>, i: nat, acc: RasterBuffers, currentVertex: u32, currentIndex: u32)
    requires i < |meshes| && RasterInv(meshes, i, acc, currentVertex, currentIndex)
    ensures var m := meshes[i];
      var command := DrawArgs(i % U32_LIMIT, |m.indices| % U32_LIMIT, 1, currentIndex, AsI32(currentVertex), 0);
      var v, x := currentVertex + |m.positions| % U32_LIMIT, currentIndex + |m.indices| % U32_LIMIT;
      && (v < U32_LIMIT && x < U32_LIMIT ==> RasterInv(meshes, i + 1, RasterPush(acc, m, command), v, x))
      && (v >= U32_LIMIT || x >= U32_LIMIT ==> !CountsFit(meshes))
  {
    var m := meshes[i];
    RasterOfSnoc(meshes, i);
    SmallMod(currentIndex);
    assert |meshes[..i]| == i;
    TotalSnoc(meshes, i, PositionCount);
    TotalSnoc(meshes, i, IndexCount);
    if CountsFit(meshes) {
      CountsFitPrefix(meshes, i + 1);
    }
  }

  /** The loop of `Raster::init`: fails with "Overflow" exactly when a running
      total leaves u32, and otherwise builds `RasterOf(meshes)`. The two
      `assert!`s after the loop always hold. */
  method RasterInit(meshes: seq<Mesh>) returns (r: Result<RasterBuffers>)
    ensures r.Ok? <==> CountsFit(meshes)
    ensures r.Err? ==> r.error == Overflow
    ensures r.Ok? ==> r.value == RasterOf(meshes)
  {
    var acc := RasterBuffers([], [], [], [], [], []);
    var currentVertex: u32, currentIndex: u32 := 0, 0;
    for i := 0 to |meshes|
      invariant RasterInv(meshes, i, acc, currentVertex, currentIndex)
    {
      var m := meshes[i];
      var command := DrawArgs(i % U32_LIMIT, |m.indices| % U32_LIMIT, 1, currentIndex, AsI32(currentVertex), 0);
      RasterAdvance(meshes, i, acc, currentVertex, currentIndex);
      acc := RasterPush(acc, m, command);
      if currentVertex + |m.positions| % U32_LIMIT >= U32_LIMIT || currentIndex + |m.indices| % U32_LIMIT >= U32_LIMIT {
        return Err(Overflow);
      }
      currentVertex := currentVertex + |m.positions| % U32_LIMIT;
      currentIndex := currentIndex + |m.indices| % U32_LIMIT;
    }
    assert meshes[..|meshes|] == meshes;
    CountsMatchBuffers(meshes);
    assert currentVertex == |acc.positions| % U32_LIMIT;
    assert currentIndex == |acc.indices| % U32_LIMIT;
    r := Ok(acc);
  }

  /** A successful loop's draw command `i` draws mesh `i` once, its index
      count that of mesh `i`, its start index and base vertex the number of
      indices and positions before mesh `i` (modulo 2^32). */
  lemma DrawOffsets(ms: seq<Mesh>, i: nat)
    requires CountsFit(ms) && i < |ms|
    ensures var d := RasterOf(ms).commands[i];
      && d.index == i % U32_LIMIT && d.instanceCount == 1 && d.startInstanceLocation == 0
      && d.indexCountPerInstance == |ms[i].indices| % U32_LIMIT
      && d.startIndexLocation == |Gather(ms[..i], IndicesOf)| % U32_LIMIT
      && d.baseVertexLocation % U32_LIMIT == |Gather(ms[..i], PositionsOf)| % U32_LIMIT
  {
    RasterEntries(ms, i);
    CountsFitPrefix(ms, i);
    TruncatedTotal(ms[..i]);
  }

  /** Element `i`'s slice of a gathered buffer sits at the gathered length
      of the elements before it. */
  lemma GatherSlice<T>(ms: seq<Mesh>, i: nat, f: Mesh -> seq<T>)
    requires i < |ms|
    ensures var start := |Gather(ms[..i], f)|;
      && start + |f(ms[i])| <= |Gather(ms, f)|
      && Gather(ms, f)[start..start + |f(ms[i])|] == f(ms[i])
  {
    GatherAround(ms, i, f);
  }

  /** Without truncation draw command `i` holds the exact index and position
      counts before mesh `i`. */
  lemma DrawExact(ms: seq<Mesh>, i: nat)
    requires CountsFit(ms) && ShortMeshes(ms) && i < |ms|
    ensures var d := RasterOf(ms).commands[i];
      && d.startIndexLocation == |Gather(ms[..i], IndicesOf)|
      && d.indexCountPerInstance == |ms[i].indices|
      && d.baseVertexLocation % U32_LIMIT == |Gather(ms[..i], PositionsOf)|
  {
    var pre := ms[..i];
    RasterEntries(ms, i);
    assert ShortMeshes(pre);
    ExactTotal(pre);
    CountsFitPrefix(ms, i);
    SmallMod(Total(pre, IndexCount));
    SmallMod(Total(pre, PositionCount));
    SmallMod(|ms[i].indices|);
  }

  /** When no mesh overflows the u32 casts, draw command `i` selects exactly
      mesh `i`'s indices from the index buffer and offsets them to mesh `i`'s
      first position in the position buffer. */
  lemma DrawSelectsMesh(ms: seq<Mesh>, i: nat)
    requires CountsFit(ms) && ShortMeshes(ms) && i < |ms|
    ensures var d := RasterOf(ms).commands[i];
      && d.startIndexLocation + d.indexCountPerInstance <= |RasterOf(ms).indices|
      && RasterOf(ms).indices[d.startIndexLocation..d.startIndexLocation + d.indexCountPerInstance] == ms[i].indices
    ensures var base := RasterOf(ms).commands[i].baseVertexLocation % U32_LIMIT;
      && base + |ms[i].positions| <= |RasterOf(ms).positions|
      && RasterOf(ms).positions[base..base + |ms[i].positions|] == ms[i].positions
  {
    DrawExact(ms, i);
    RasterGathers(ms);
    GatherSlice(ms, i, IndicesOf);
    GatherSlice(ms, i, PositionsOf);
  }

  // ---------------------------------------------------------------------
  // 256-byte rounding of acceleration-structure sizes
  // ---------------------------------------------------------------------

  /** `(x + 0xFF) & !0xFF`: clearing the low eight bits of `x + 255` rounds
      `x` up to a multiple of 256. */
  function RoundUp256(x: nat): (r: nat)
    ensures r % 256 == 0 && x <= r < x + 256
  {
    (x + 0xFF) - (x + 0xFF) % 256
  }

  /** No multiple of 256 that holds `x` is below the rounded size. */
  lemma RoundUp256Least(x: nat, y: nat)
    requires y % 256 == 0 && x <= y
    ensures RoundUp256(x) <= y
  {
  }

  /** The sum of the rounded sizes. */
  function RoundedTotal(xs: seq<u64>): nat
  {
    if |xs| == 0 then 0 else RoundedTotal(xs[..|xs| - 1]) + RoundUp256(xs[|xs| - 1])
  }

  /** Every `+ 0xFF` of the rounding stays within u64. */
  predicate RoundsFit(xs: seq<u64>)
  {
    forall j :: 0 <= j < |xs| ==> xs[j] + 0xFF < U64_LIMIT
  }

  lemma RoundedSnoc(xs: seq<u64>, i: nat)
    requires i < |xs|
    ensures RoundedTotal(xs[..i + 1]) == RoundedTotal(xs[..i]) + RoundUp256(xs[i])
  {
    assert xs[..i + 1][..i] == xs[..i];
  }

  lemma RoundedAppend(xs: seq<u64>, x: u64)
    ensures RoundedTotal(xs + [x]) == RoundedTotal(xs) + RoundUp256(x)
  {
    assert (xs + [x])[..|xs|] == xs;
  }

  /** Each piece's end stays within the piece after it and within the whole:
      the running sums are monotone. */
  lemma {:induction false} RoundedMonotone(xs: seq<u64>, i: nat, j: nat)
    requires i <= j <= |xs|
    ensures RoundedTotal(xs[..i]) <= RoundedTotal(xs[..j])
    decreases j
  {
    if i < j {
      RoundedSnoc(xs, j - 1);
      RoundedMonotone(xs, i, j - 1);
    }
    assert xs[..|xs|] == xs;
  }

  /** Piece `i` starts at the running sum before it and ends within the total. */
  lemma PieceStep(xs: seq<u64>, i: nat)
    requires i < |xs|
    ensures RoundedTotal(xs[..i + 1]) == RoundedTotal(xs[..i]) + RoundUp256(xs[i])
    ensures RoundedTotal(xs[..i + 1]) <= RoundedTotal(xs)
  {
    RoundedSnoc(xs, i);
    RoundedMonotone(xs, i + 1, |xs|);
    assert xs[..|xs|] == xs;
  }

  /** Every running sum of rounded sizes is a multiple of 256, so every piece
      starts 256-aligned relative to the buffer. */
  lemma {:induction false} RoundedAligned(xs: seq<u64>)
    ensures RoundedTotal(xs) % 256 == 0
  {
    if |xs| != 0 {
      RoundedAligned(xs[..|xs| - 1]);
    }
  }

  /** Piece `i` (from its running sum for `RoundUp256(xs[i])` bytes) ends at
      or before piece `j > i` begins and within the total: the pieces are
      disjoint and inside the buffer. */
  lemma PiecesDisjoint(xs: seq<u64>, i: nat, j: nat)
    requires i < j <= |xs|
    ensures RoundedTotal(xs[..i]) + RoundUp256(xs[i]) <= RoundedTotal(xs[..j])
    ensures RoundedTotal(xs[..j]) <= RoundedTotal(xs)
  {
    RoundedSnoc(xs, i);
    RoundedMonotone(xs, i + 1, j);
    RoundedMonotone(xs, j, |xs|);
    assert xs[..|xs|] == xs;
  }

  // ---------------------------------------------------------------------
  // Ray::init
  // ---------------------------------------------------------------------

  /** `RayMeshInstance`. */
  datatype RayInstance = RayInstance(
    vertexOffset: u32, indexOffset: u32,
    albedo: Binding, normalIndex: u32, specular: Binding, emissive: Binding)

  /** The driver's `GetRaytracingAccelerationStructurePrebuildInfo` for a
      triangle geometry of `VertexCount` vertices and `IndexCount` indices:
      `(ScratchDataSizeInBytes, ResultDataMaxSizeInBytes)`. */
  type Prebuild = (nat, nat) -> (u64, u64)

  /** The buffers `Ray::init`'s first loop fills; `info_sizes` is kept as its
      two columns. */
  datatype RayBuffers = RayBuffers(
    positions: seq<Vec3>, normals: seq<Vec3>, tangents: seq<Vec3>, uvs: seq<Vec2>, indices: seq<u32>,
    instances: seq<RayInstance>, scratchSizes: seq<u64>, resultSizes: seq<u64>)

  /** The buffers and the two totals the first loop leaves behind. */
  datatype RayLayout = RayLayout(buffers: RayBuffers, scratchSize: u64, blasSize: u64)

  function ScratchOf(prebuild: Prebuild, m: Mesh): u64 { prebuild(PositionCount(m), IndexCount(m)).0 }
  function ResultOf(prebuild: Prebuild, m: Mesh): u64 { prebuild(PositionCount(m), IndexCount(m)).1 }

  /** The ray instance of mesh `m`, which follows the meshes `before`. */
  function RayInstanceAfter(before: seq<Mesh>, m: Mesh): (r: RayInstance)
    ensures r.albedo == RasterInstanceOf(m).albedo && r.specular == RasterInstanceOf(m).specular
    ensures r.emissive == RasterInstanceOf(m).emissive
    ensures r.normalIndex != U32_MAX ==> m.material.normal == Texture(r.normalIndex)
    ensures Total(before, PositionCount) < U32_LIMIT ==> r.vertexOffset == Total(before, PositionCount)
    ensures Total(before, IndexCount) < U32_LIMIT ==> r.indexOffset == Total(before, IndexCount)
  {
    RayInstance(Total(before, PositionCount) % U32_LIMIT, Total(before, IndexCount) % U32_LIMIT,
      Bind(m.material.baseColor, ALBEDO_DEFAULT), NormalIndex(m.material.normal),
      Bind(m.material.specular, SPECULAR_DEFAULT), Bind(m.material.emissive, EMISSIVE_DEFAULT))
  }

  /** What the first loop of `Ray::init` builds, mesh by mesh. */
  function RayOf(prebuild: Prebuild, ms: seq<Mesh>): (b: RayBuffers)
    ensures |b.instances| == |ms| && |b.scratchSizes| == |ms| && |b.resultSizes| == |ms|
  {
    if |ms| == 0 then RayBuffers([], [], [], [], [], [], [], [])
    else
      var init, m := ms[..|ms| - 1], ms[|ms| - 1];
      var b := RayOf(prebuild, init);
      RayBuffers(b.positions + m.positions, b.normals + m.normals, b.tangents + m.tangents,
        b.uvs + m.uvs, b.indices + m.indices,
        b.instances + [RayInstanceAfter(init, m)],
        b.scratchSizes + [ScratchOf(prebuild, m)], b.resultSizes + [ResultOf(prebuild, m)])
  }

  lemma RayOfSnoc(prebuild: Prebuild, ms: seq<Mesh>, i: nat)
    requires i < |ms|
    ensures var b, m := RayOf(prebuild, ms[..i]), ms[i];
      RayOf(prebuild, ms[..i + 1]) == RayBuffers(b.positions + m.positions, b.normals + m.normals,
        b.tangents + m.tangents, b.uvs + m.uvs, b.indices + m.indices,
        b.instances + [RayInstanceAfter(ms[..i], m)],
        b.scratchSizes + [ScratchOf(prebuild, m)], b.resultSizes + [ResultOf(prebuild, m)])
  {
    assert ms[..i + 1][..i] == ms[..i];
  }

  /** One step of the first loop extends `RayOf` of the meshes before `i` by
      mesh `i`, whose instance takes the running totals as offsets. */
  lemma RayStep(prebuild: Prebuild, ms: seq<Mesh>, i: nat, acc: RayBuffers, vertex: nat, index: nat)
    requires i < |ms| && acc == RayOf(prebuild, ms[..i])
    requires vertex == Total(ms[..i], PositionCount) < U32_LIMIT && index == Total(ms[..i], IndexCount) < U32_LIMIT
    ensures var m := ms[i];
      var info := prebuild(|m.positions| % U32_LIMIT, |m.indices| % U32_LIMIT);
      var instance := RayInstance(vertex, index,
        Bind(m.material.baseColor, ALBEDO_DEFAULT), NormalIndex(m.material.normal),
        Bind(m.material.specular, SPECULAR_DEFAULT), Bind(m.material.emissive, EMISSIVE_DEFAULT));
      RayOf(prebuild, ms[..i + 1]) == RayBuffers(
        acc.positions + m.positions, acc.normals + m.normals, acc.tangents + m.tangents,
        acc.uvs + m.uvs, acc.indices + m.indices, acc.instances + [instance],
        acc.scratchSizes + [info.0], acc.resultSizes + [info.1])
  {
    RayOfSnoc(prebuild, ms, i);
    SmallMod(vertex);
    SmallMod(index);
  }

  /** The ray buffers are the meshes' arrays concatenated in mesh order. */
  lemma {:induction false} RayGathers(prebuild: Prebuild, ms: seq<Mesh>)
    ensures var b := RayOf(prebuild, ms);
      && b.positions == Gather(ms, PositionsOf) && b.normals == Gather(ms, NormalsOf)
      && b.tangents == Gather(ms, TangentsOf) && b.uvs == Gather(ms, UvsOf) && b.indices == Gather(ms, IndicesOf)
  {
    if |ms| != 0 {
      RayGathers(prebuild, ms[..|ms| - 1]);
    }
  }

  /** The recorded sizes are the driver's sizes of each mesh, in mesh order. */
  lemma {:induction false} RaySizes(prebuild: Prebuild, ms: seq<Mesh>)
    ensures forall j :: 0 <= j < |ms| ==> RayOf(prebuild, ms).scratchSizes[j] == ScratchOf(prebuild, ms[j])
    ensures forall j :: 0 <= j < |ms| ==> RayOf(prebuild, ms).resultSizes[j] == ResultOf(prebuild, ms[j])
  {
    if |ms| != 0 {
      var init := ms[..|ms| - 1];
      RaySizes(prebuild, init);
      assert forall j :: 0 <= j < |init| ==> init[j] == ms[j];
    }
  }

  /** The sizes recorded for a prefix of the meshes are a prefix of the sizes. */
  lemma {:induction false} RaySizesPrefix(prebuild: Prebuild, ms: seq<Mesh>, i: nat)
    requires i <= |ms|
    ensures RayOf(prebuild, ms[..i]).scratchSizes == RayOf(prebuild, ms).scratchSizes[..i]
    ensures RayOf(prebuild, ms[..i]).resultSizes == RayOf(prebuild, ms).resultSizes[..i]
    decreases |ms|
  {
    if i < |ms| {
      var init := ms[..|ms| - 1];
      assert init[..i] == ms[..i];
      RaySizesPrefix(prebuild, init, i);
      var b := RayOf(prebuild, init);
      assert RayOf(prebuild, ms).scratchSizes[..i] == b.scratchSizes[..i];
      assert RayOf(prebuild, ms).resultSizes[..i] == b.resultSizes[..i];
    } else {
      assert ms[..i] == ms;
    }
  }

  /** The sizes fit: every `+ 0xFF` and the `+=` total stay within u64. */
  predicate SizesFit(xs: seq<u64>)
  {
    RoundsFit(xs) && RoundedTotal(xs) < U64_LIMIT
  }

  /** One more size fits exactly when its rounding and the new total do. */
  lemma SizesFitSnoc(xs: seq<u64>, x: u64)
    ensures SizesFit(xs + [x]) <==> SizesFit(xs) && x + 0xFF < U64_LIMIT && RoundedTotal(xs) + RoundUp256(x) < U64_LIMIT
  {
    var ys := xs + [x];
    RoundedAppend(xs, x);
    assert forall j :: 0 <= j < |xs| ==> ys[j] == xs[j];
  }

  /** `Ray::init` gets through its first loop: the counts fit u32 and both
      rounded size totals fit u64. */
  predicate RayFits(prebuild: Prebuild, ms: seq<Mesh>)
  {
    && CountsFit(ms)
    && SizesFit(RayOf(prebuild, ms).scratchSizes)
    && SizesFit(RayOf(prebuild, ms).resultSizes)
  }

  lemma SizesFitPrefix(xs: seq<u64>, i: nat)
    requires i <= |xs| && SizesFit(xs)
    ensures SizesFit(xs[..i])
  {
    RoundedMonotone(xs, i, |xs|);
    assert xs[..|xs|] == xs;
  }

  lemma RayFitsPrefix(prebuild: Prebuild, ms: seq<Mesh>, i: nat)
    requires i <= |ms| && RayFits(prebuild, ms)
    ensures RayFits(prebuild, ms[..i])
  {
    CountsFitPrefix(ms, i);
    RaySizesPrefix(prebuild, ms, i);
    SizesFitPrefix(RayOf(prebuild, ms).scratchSizes, i);
    SizesFitPrefix(RayOf(prebuild, ms).resultSizes, i);
  }

  /** If all the meshes fit, mesh `i`'s two `checked_add`s, roundings and
      `+=`s fit on top of the meshes before it. */
  lemma RayFitsStep(prebuild: Prebuild, ms: seq<Mesh>, i: nat)
    requires i < |ms| && RayFits(prebuild, ms)
    ensures var b, m := RayOf(prebuild, ms[..i]), ms[i];
      && Total(ms[..i], PositionCount) + PositionCount(m) < U32_LIMIT
      && Total(ms[..i], IndexCount) + IndexCount(m) < U32_LIMIT
      && ScratchOf(prebuild, m) + 0xFF < U64_LIMIT
      && RoundedTotal(b.scratchSizes) + RoundUp256(ScratchOf(prebuild, m)) < U64_LIMIT
      && ResultOf(prebuild, m) + 0xFF < U64_LIMIT
      && RoundedTotal(b.resultSizes) + RoundUp256(ResultOf(prebuild, m)) < U64_LIMIT
  {
    var b, m := RayOf(prebuild, ms[..i]), ms[i];
    RayFitsPrefix(prebuild, ms, i + 1);
    RayOfSnoc(prebuild, ms, i);
    TotalSnoc(ms, i, PositionCount);
    TotalSnoc(ms, i, IndexCount);
    SizesFitSnoc(b.scratchSizes, ScratchOf(prebuild, m));
    SizesFitSnoc(b.resultSizes, ResultOf(prebuild, m));
  }

  /** What the first loop of `Ray::init` knows after `i` meshes: the counts
      and sizes so far fit, the running totals are the sums so far and the
      buffers are `RayOf` the meshes so far. */
  ghost predicate RayLoop(prebuild: Prebuild, ms: seq<Mesh>, i: nat, acc: RayBuffers,
                          vertex: nat, index: nat, scratch: nat, blas: nat)
  {
    && i <= |ms| && CountsFit(ms[..i]) && SizesFit(acc.scratchSizes) && SizesFit(acc.resultSizes)
    && vertex == Total(ms[..i], PositionCount) && index == Total(ms[..i], IndexCount)
    && acc == RayOf(prebuild, ms[..i])
    && scratch == RoundedTotal(acc.scratchSizes) && blas == RoundedTotal(acc.resultSizes)
  }

  /** The two `checked_add`s, the two roundings and the two `+=`s of one
      step of the first loop all stay in range. */
  predicate RayStepFits(m: Mesh, info: (u64, u64), vertex: nat, index: nat, scratch: nat, blas: nat)
  {
    && vertex + |m.positions| % U32_LIMIT < U32_LIMIT
    && index + |m.indices| % U32_LIMIT < U32_LIMIT
    && info.0 + 0xFF < U64_LIMIT && scratch + RoundUp256(info.0) < U64_LIMIT
    && info.1 + 0xFF < U64_LIMIT && blas + RoundUp256(info.1) < U64_LIMIT
  }

  /** A step of the first loop that overflows means the meshes do not fit. */
  lemma RayOverflow(prebuild: Prebuild, ms: seq<Mesh>, i: nat, acc: RayBuffers,
                    vertex: nat, index: nat, scratch: nat, blas: nat)
    requires i < |ms| && RayLoop(prebuild, ms, i, acc, vertex, index, scratch, blas)
    requires !RayStepFits(ms[i], prebuild(|ms[i].positions| % U32_LIMIT, |ms[i].indices| % U32_LIMIT),
                          vertex, index, scratch, blas)
    ensures !RayFits(prebuild, ms)
  {
    if RayFits(prebuild, ms) {
      RayFitsStep(prebuild, ms, i);
    }
  }

  /** A step of the first loop that does not overflow keeps `RayLoop`. */
  lemma RayAdvance(prebuild: Prebuild, ms: seq<Mesh>, i: nat, acc: RayBuffers,
                   vertex: nat, index: nat, scratch: nat, blas: nat, next: RayBuffers)
    requires i < |ms| && RayLoop(prebuild, ms, i, acc, vertex, index, scratch, blas)
    requires var m := ms[i];
      var info := prebuild(|m.positions| % U32_LIMIT, |m.indices| % U32_LIMIT);
      && RayStepFits(m, info, vertex, index, scratch, blas)
      && next == RayBuffers(
        acc.positions + m.positions, acc.normals + m.normals, acc.tangents + m.tangents,
        acc.uvs + m.uvs, acc.indices + m.indices,
        acc.instances + [RayInstance(vertex, index,
          Bind(m.material.baseColor, ALBEDO_DEFAULT), NormalIndex(m.material.normal),
          Bind(m.material.specular, SPECULAR_DEFAULT), Bind(m.material.emissive, EMISSIVE_DEFAULT))],
        acc.scratchSizes + [info.0], acc.resultSizes + [info.1])
    ensures var m := ms[i];
      var info := prebuild(|m.positions| % U32_LIMIT, |m.indices| % U32_LIMIT);
      RayLoop(prebuild, ms, i + 1, next, vertex + |m.positions| % U32_LIMIT, index + |m.indices| % U32_LIMIT,
              scratch + RoundUp256(info.0), blas + RoundUp256(info.1))
  {
    var m := ms[i];
    var info := prebuild(|m.positions| % U32_LIMIT, |m.indices| % U32_LIMIT);
    RayStep(prebuild, ms, i, acc, vertex, index);
    TotalSnoc(ms, i, PositionCount);
    TotalSnoc(ms, i, IndexCount);
    RoundedAppend(acc.scratchSizes, info.0);
    RoundedAppend(acc.resultSizes, info.1);
    SizesFitSnoc(acc.scratchSizes, info.0);
    SizesFitSnoc(acc.resultSizes, info.1);
  }

  /** The running totals of a loop that did not overflow are the buffer
      lengths as u32: the checks after the loop pass. */
  lemma RayCountsMatchBuffers(prebuild: Prebuild, ms: seq<Mesh>)
    requires CountsFit(ms)
    ensures Total(ms, PositionCount) == |RayOf(prebuild, ms).positions| % U32_LIMIT
    ensures Total(ms, IndexCount) == |RayOf(prebuild, ms).indices| % U32_LIMIT
  {
    TruncatedTotal(ms);
    RayGathers(prebuild, ms);
    SmallMod(Total(ms, PositionCount));
    SmallMod(Total(ms, IndexCount));
  }

  /** A first loop that got through every mesh built `RayOf` all of them,
      which fit, and its running totals match the buffers. */
  lemma RayDone(prebuild: Prebuild, ms: seq<Mesh>, acc: RayBuffers, vertex: nat, index: nat, scratch: nat, blas: nat)
    requires RayLoop(prebuild, ms, |ms|, acc, vertex, index, scratch, blas)
    ensures acc == RayOf(prebuild, ms) && RayFits(prebuild, ms)
    ensures vertex == |acc.positions| % U32_LIMIT && index == |acc.indices| % U32_LIMIT
    ensures scratch == RoundedTotal(acc.scratchSizes) && blas == RoundedTotal(acc.resultSizes)
  {
    assert ms[..|ms|] == ms;
    RayCountsMatchBuffers(prebuild, ms);
  }

  /** The first loop of `Ray::init`: the same concatenation and offsets as the
      raster pipeline, with tangents too, one `RayMeshInstance` per mesh and
      the driver's sizes recorded; the scratch and BLAS totals are the sums
      of those sizes rounded up to 256 bytes. Any overflow fails the loop;
      the `assert!`s after it always hold. */
  method RayInit(meshes: seq<Mesh>, prebuild: Prebuild) returns (r: Result<RayLayout>)
    ensures r.Ok? <==> RayFits(prebuild, meshes)
    ensures r.Err? ==> r.error == Overflow
    ensures r.Ok? ==> r.value.buffers == RayOf(prebuild, meshes)
    ensures r.Ok? ==> r.value.scratchSize == RoundedTotal(r.value.buffers.scratchSizes)
    ensures r.Ok? ==> r.value.blasSize == RoundedTotal(r.value.buffers.resultSizes)
  {
    var acc := RayBuffers([], [], [], [], [], [], [], []);
    var currentVertex: u32, currentIndex: u32 := 0, 0;
    var scratchSize: u64, blasSize: u64 := 0, 0;
    for i := 0 to |meshes|
      invariant RayLoop(prebuild, meshes, i, acc, currentVertex, currentIndex, scratchSize, blasSize)
    {
      var m := meshes[i];
      var instance := RayInstance(currentVertex, currentIndex,
        Bind(m.material.baseColor, ALBEDO_DEFAULT), NormalIndex(m.material.normal),
        Bind(m.material.specular, SPECULAR_DEFAULT), Bind(m.material.emissive, EMISSIVE_DEFAULT));
      var info := prebuild(|m.positions| % U32_LIMIT, |m.indices| % U32_LIMIT);
      var next := RayBuffers(
        acc.positions + m.positions, acc.normals + m.normals, acc.tangents + m.tangents,
        acc.uvs + m.uvs, acc.indices + m.indices, acc.instances + [instance],
        acc.scratchSizes + [info.0], acc.resultSizes + [info.1]);
      if !RayStepFits(m, info, currentVertex, currentIndex, scratchSize, blasSize) {
        RayOverflow(prebuild, meshes, i, acc, currentVertex, currentIndex, scratchSize, blasSize);
        return Err(Overflow);
      }
      RayAdvance(prebuild, meshes, i, acc, currentVertex, currentIndex, scratchSize, blasSize, next);
      acc := next;
      currentVertex := currentVertex + |m.positions| % U32_LIMIT;
      currentIndex := currentIndex + |m.indices| % U32_LIMIT;
      scratchSize := scratchSize + RoundUp256(info.0);
      blasSize := blasSize + RoundUp256(info.1);
    }
    RayDone(prebuild, meshes, acc, currentVertex, currentIndex, scratchSize, blasSize);
    assert currentVertex == |acc.positions| % U32_LIMIT;
    assert currentIndex == |acc.indices| % U32_LIMIT;
    r := Ok(RayLayout(acc, scratchSize, blasSize));
  }

  lemma {:induction false} RayEntries(prebuild: Prebuild, ms: seq<Mesh>, i: nat)
    requires i < |ms|
    ensures RayOf(prebuild, ms).instances[i] == RayInstanceAfter(ms[..i], ms[i])
  {
    if i < |ms| - 1 {
      var init := ms[..|ms| - 1];
      RayEntries(prebuild, init, i);
      assert init[..i] == ms[..i];
    }
  }

  /** Ray instance `i` of a successful loop carries the same offsets and the
      same material bindings as raster draw command and instance `i`, and
      its normal slot is the normal texture or `u32::MAX`. */
  lemma RayMatchesRaster(prebuild: Prebuild, ms: seq<Mesh>, i: nat)
    requires CountsFit(ms) && i < |ms|
    ensures var ray, d, ri := RayOf(prebuild, ms).instances[i], RasterOf(ms).commands[i], RasterOf(ms).instances[i];
      && ray.indexOffset == d.startIndexLocation
      && ray.vertexOffset == d.baseVertexLocation % U32_LIMIT
      && ray.vertexOffset == |Gather(ms[..i], PositionsOf)| % U32_LIMIT
      && ray.albedo == ri.albedo && ray.specular == ri.specular && ray.emissive == ri.emissive
      && ray.normalIndex == NormalIndex(ms[i].material.normal)
  {
    var pre := ms[..i];
    RayEntries(prebuild, ms, i);
    RasterEntries(ms, i);
    CountsFitPrefix(ms, i);
    TruncatedTotal(pre);
    SmallMod(Total(pre, PositionCount));
  }

  // ---------------------------------------------------------------------
  // BLAS sub-allocation and instance descriptors
  // ---------------------------------------------------------------------

  /** The addresses one `BuildRaytracingAccelerationStructure` call gets:
      the mesh's vertex and index buffers and its BLAS and scratch pieces. */
  datatype BlasBuild = BlasBuild(vertexBuffer: u64, indexBuffer: u64, dest: u64, scratch: u64)

  /** The walk's pointers stay within u64: both buffer ends, and the vertex
      and index pointers after the last mesh. */
  predicate WalkFits(meshes: seq<Mesh>, scratchBase: u64, scratchSize: u64, blasBase: u64, blasSize: u64,
                     vertexBase: u64, indexBase: u64)
  {
    && scratchBase + scratchSize < U64_LIMIT && blasBase + blasSize < U64_LIMIT
    && vertexBase + POSITION_STRIDE * |Gather(meshes, PositionsOf)| < U64_LIMIT
    && indexBase + INDEX_STRIDE * |Gather(meshes, IndicesOf)| < U64_LIMIT
  }

  /** Build `b` is the one mesh `j` gets: its geometry where the
      concatenated buffers hold it and its pieces of the BLAS and scratch
      buffers at the rounded sizes of the meshes before it. */
  ghost predicate Placed(b: BlasBuild, meshes: seq<Mesh>, scratchSizes: seq<u64>, resultSizes: seq<u64>,
                         scratchBase: nat, blasBase: nat, vertexBase: nat, indexBase: nat, j: nat)
  {
    && j <= |meshes| && j <= |scratchSizes| && j <= |resultSizes|
    && b.dest == blasBase + RoundedTotal(resultSizes[..j])
    && b.scratch == scratchBase + RoundedTotal(scratchSizes[..j])
    && b.vertexBuffer == vertexBase + POSITION_STRIDE * |Gather(meshes[..j], PositionsOf)|
    && b.indexBuffer == indexBase + INDEX_STRIDE * |Gather(meshes[..j], IndicesOf)|
  }

  /** One step of the walk: each pointer advances by mesh `i`'s share, and
      the BLAS and scratch pointers stay within the totals. */
  lemma WalkStep(meshes: seq<Mesh>, scratchSizes: seq<u64>, resultSizes: seq<u64>, i: nat)
    requires i < |meshes| && |scratchSizes| == |meshes| && |resultSizes| == |meshes|
    ensures RoundedTotal(scratchSizes[..i + 1]) == RoundedTotal(scratchSizes[..i]) + RoundUp256(scratchSizes[i])
    ensures RoundedTotal(resultSizes[..i + 1]) == RoundedTotal(resultSizes[..i]) + RoundUp256(resultSizes[i])
    ensures RoundedTotal(scratchSizes[..i + 1]) <= RoundedTotal(scratchSizes)
    ensures RoundedTotal(resultSizes[..i + 1]) <= RoundedTotal(resultSizes)
    ensures |Gather(meshes[..i + 1], PositionsOf)| == |Gather(meshes[..i], PositionsOf)| + |meshes[i].positions|
    ensures |Gather(meshes[..i + 1], IndicesOf)| == |Gather(meshes[..i], IndicesOf)| + |meshes[i].indices|
  {
    PieceStep(scratchSizes, i);
    PieceStep(resultSizes, i);
    GatherSnoc(meshes, i, PositionsOf);
    GatherSnoc(meshes, i, IndicesOf);
  }

  /** A vertex or index pointer that overflows after mesh `i` would
      overflow after the last mesh too. */
  lemma WalkOverflow(meshes: seq<Mesh>, i: nat, vertexBase: nat, indexBase: nat)
    requires i < |meshes|
    requires || vertexBase + POSITION_STRIDE * (|Gather(meshes[..i], PositionsOf)| + |meshes[i].positions|) >= U64_LIMIT
             || indexBase + INDEX_STRIDE * (|Gather(meshes[..i], IndicesOf)| + |meshes[i].indices|) >= U64_LIMIT
    ensures || vertexBase + POSITION_STRIDE * |Gather(meshes, PositionsOf)| >= U64_LIMIT
            || indexBase + INDEX_STRIDE * |Gather(meshes, IndicesOf)| >= U64_LIMIT
  {
    GatherSnoc(meshes, i, PositionsOf);
    GatherSnoc(meshes, i, IndicesOf);
    GatherPrefix(meshes, i + 1, PositionsOf);
    GatherPrefix(meshes, i + 1, IndicesOf);
  }

  /** The second loop of `Ray::init`. Mesh `i` builds into the BLAS and
      scratch buffers at the rounded sizes of meshes `0..i` and reads its
      geometry where the concatenated buffers hold it. Given the totals of
      the first loop, the pointers never pass the buffers' ends (the
      `assert!`s inside the loop) and finish exactly at them (the two after
      it); the walk fails only on a u64 overflow. */
  method BuildBlas(meshes: seq<Mesh>, scratchSizes: seq<u64>, resultSizes: seq<u64>,
                   scratchBase: u64, scratchSize: u64, blasBase: u64, blasSize: u64,
                   vertexBase: u64, indexBase: u64) returns (r: Result<seq<BlasBuild>>)
    requires |scratchSizes| == |meshes| && |resultSizes| == |meshes|
    requires RoundsFit(scratchSizes) && RoundsFit(resultSizes)
    requires scratchSize == RoundedTotal(scratchSizes) && blasSize == RoundedTotal(resultSizes)
    ensures r.Ok? <==> WalkFits(meshes, scratchBase, scratchSize, blasBase, blasSize, vertexBase, indexBase)
    ensures r.Err? ==> r.error == Overflow
    ensures r.Ok? ==> |r.value| == |meshes|
    ensures r.Ok? ==> forall i :: 0 <= i < |meshes| ==>
      && r.value[i].dest == blasBase + RoundedTotal(resultSizes[..i])
      && r.value[i].scratch == scratchBase + RoundedTotal(scratchSizes[..i])
      && r.value[i].vertexBuffer == vertexBase + POSITION_STRIDE * |Gather(meshes[..i], PositionsOf)|
      && r.value[i].indexBuffer == indexBase + INDEX_STRIDE * |Gather(meshes[..i], IndicesOf)|
  {
    if scratchBase + scratchSize >= U64_LIMIT || blasBase + blasSize >= U64_LIMIT {
      return Err(Overflow);
    }
    var scratchEnd: u64, blasEnd: u64 := scratchBase + scratchSize, blasBase + blasSize;
    var scratchPointer: u64, blasPointer: u64 := scratchBase, blasBase;
    var vertexPointer: u64, indexPointer: u64 := vertexBase, indexBase;
    var builds: seq<BlasBuild> := [];
    for i := 0 to |meshes|
      invariant scratchPointer == scratchBase + RoundedTotal(scratchSizes[..i])
      invariant blasPointer == blasBase + RoundedTotal(resultSizes[..i])
      invariant vertexPointer == vertexBase + POSITION_STRIDE * |Gather(meshes[..i], PositionsOf)|
      invariant indexPointer == indexBase + INDEX_STRIDE * |Gather(meshes[..i], IndicesOf)|
      invariant |builds| == i
      invariant forall j :: 0 <= j < i ==>
        Placed(builds[j], meshes, scratchSizes, resultSizes, scratchBase, blasBase, vertexBase, indexBase, j)
    {
      var m := meshes[i];
      WalkStep(meshes, scratchSizes, resultSizes, i);
      builds := builds + [BlasBuild(vertexPointer, indexPointer, blasPointer, scratchPointer)];
      var vertexBytes, indexBytes := |m.positions| * POSITION_STRIDE, |m.indices| * INDEX_STRIDE;
      if vertexBytes >= U64_LIMIT || vertexPointer + vertexBytes >= U64_LIMIT
         || indexBytes >= U64_LIMIT || indexPointer + indexBytes >= U64_LIMIT
      {
        WalkOverflow(meshes, i, vertexBase, indexBase);
        return Err(Overflow);
      }
      vertexPointer, indexPointer := vertexPointer + vertexBytes, indexPointer + indexBytes;
      scratchPointer := scratchPointer + RoundUp256(scratchSizes[i]);
      blasPointer := blasPointer + RoundUp256(resultSizes[i]);
      assert scratchPointer <= scratchEnd;
      assert blasPointer <= blasEnd;
    }
    assert scratchSizes[..|meshes|] == scratchSizes && resultSizes[..|meshes|] == resultSizes;
    assert meshes[..|meshes|] == meshes;
    assert scratchPointer == scratchEnd;
    assert blasPointer == blasEnd;
    r := Ok(builds);
  }

  /** `D3D12_RAYTRACING_INSTANCE_DESC`: the 3x4 transform, `_bitfield1`
      (InstanceID in the low 24 bits, InstanceMask in the top 8) and the
      address of the instance's BLAS. */
  datatype InstanceDesc = InstanceDesc(transform: seq<byte>, bits: u32, accelerationStructure: u64)

  /** Element `e[r][c]` of a matrix: its four bytes. */
  function Element(t: Mat4, r: nat, c: nat): (e: seq<byte>)
    requires r < 4 && c < 4
    ensures |e| == 4
  {
    t[16 * r + 4 * c..16 * r + 4 * c + 4]
  }

  /** The instance transform: the first three columns of the matrix, each
      read top to bottom. */
  function InstanceTransform(t: Mat4): (x: seq<byte>)
    ensures |x| == 48
  {
    Element(t, 0, 0) + Element(t, 1, 0) + Element(t, 2, 0) + Element(t, 3, 0) +
    Element(t, 0, 1) + Element(t, 1, 1) + Element(t, 2, 1) + Element(t, 3, 1) +
    Element(t, 0, 2) + Element(t, 1, 2) + Element(t, 2, 2) + Element(t, 3, 2)
  }

  /** `i as u32 | (0xFF << 24)`: the InstanceID is `i` modulo 2^24 (the top
      byte that the OR sets is the mask) and the InstanceMask is 0xFF. */
  function InstanceBits(i: nat): (r: u32)
    ensures r % 0x100_0000 == i % 0x100_0000 && r / 0x100_0000 == 0xFF
  {
    0xFF00_0000 + i % 0x100_0000
  }

  /** Descriptor `d` is the one instance `j` gets. */
  ghost predicate Described(d: InstanceDesc, meshes: seq<Mesh>, resultSizes: seq<u64>, blasBase: nat, j: nat)
  {
    && j < |meshes| && j <= |resultSizes|
    && d.transform == InstanceTransform(meshes[j].transform)
    && d.bits == InstanceBits(j)
    && d.accelerationStructure == blasBase + RoundedTotal(resultSizes[..j])
  }

  /** The instance loop of `Ray::init` fills the mapped descriptor array in
      place: instance `i` points at BLAS piece `i`, which starts at the
      rounded result sizes of meshes `0..i`; the pointer stays within
      `blas_end` and finishes at it. Only computing `blas_end` can fail. */
  method WriteInstanceDescs(meshes: seq<Mesh>, resultSizes: seq<u64>, blasBase: u64, blasSize: u64,
                            descs: array<InstanceDesc>) returns (r: Result<()>)
    requires descs.Length == |meshes| && |resultSizes| == |meshes|
    requires RoundsFit(resultSizes) && blasSize == RoundedTotal(resultSizes)
    modifies descs
    ensures r.Ok? <==> blasBase + blasSize < U64_LIMIT
    ensures r.Err? ==> r.error == Overflow && unchanged(descs)
    ensures r.Ok? ==> forall i :: 0 <= i < descs.Length ==>
      && descs[i].transform == InstanceTransform(meshes[i].transform)
      && descs[i].bits == InstanceBits(i)
      && descs[i].accelerationStructure == blasBase + RoundedTotal(resultSizes[..i])
  {
    if blasBase + blasSize >= U64_LIMIT {
      return Err(Overflow);
    }
    var blasEnd: u64 := blasBase + blasSize;
    var blasPointer: u64 := blasBase;
    for i := 0 to |meshes|
      invariant blasPointer == blasBase + RoundedTotal(resultSizes[..i])
      invariant forall j :: 0 <= j < i ==> Described(descs[j], meshes, resultSizes, blasBase, j)
    {
      PieceStep(resultSizes, i);
      descs[i] := InstanceDesc(InstanceTransform(meshes[i].transform), InstanceBits(i), blasPointer);
      blasPointer := blasPointer + RoundUp256(resultSizes[i]);
      assert blasPointer <= blasEnd;
    }
    assert resultSizes[..|meshes|] == resultSizes;
    assert blasPointer == blasEnd;
    r := Ok(());
  }

  // ---------------------------------------------------------------------
  // The sample counter of Ray::render
  // ---------------------------------------------------------------------

  /** One frame: a reset restarts the count at 0; the frame dispatches, and
      counts one more sample, only while the count is below `MAX_SAMPLES`. */
  function SampleStep(samples: u32, reset: bool): (r: (u32, bool))
    ensures r.1 <==> reset || samples < MAX_SAMPLES
    ensures r.1 ==> r.0 == (if reset then 0 else samples) + 1
    ensures !r.1 ==> r.0 == samples
    ensures samples <= MAX_SAMPLES ==> r.0 <= MAX_SAMPLES
  {
    var s := if reset then 0 else samples;
    if s < MAX_SAMPLES then (s + 1, true) else (s, false)
  }

  /** The count after a run of frames and how many of them dispatched. */
  function Frames(samples: u32, resets: seq<bool>): (u32, nat)
    decreases |resets|
  {
    if |resets| == 0 then (samples, 0)
    else
      var (s, d) := SampleStep(samples, resets[0]);
      var (s', d') := Frames(s, resets[1..]);
      (s', d' + if d then 1 else 0)
  }

  /** Starting within the bound, the count never exceeds `MAX_SAMPLES`, and a
      run without resets dispatches at most `MAX_SAMPLES - samples` frames. */
  lemma {:induction false} FramesBounded(samples: u32, resets: seq<bool>)
    requires samples <= MAX_SAMPLES
    ensures Frames(samples, resets).0 <= MAX_SAMPLES
    ensures (forall j :: 0 <= j < |resets| ==> !resets[j]) ==>
      Frames(samples, resets).1 == Frames(samples, resets).0 - samples
    decreases |resets|
  {
    if |resets| != 0 {
      var (s, d) := SampleStep(samples, resets[0]);
      FramesBounded(s, resets[1..]);
    }
  }

  /** `n` frames without a reset accumulate `min(samples + n, MAX_SAMPLES)`
      samples: the count converges to `MAX_SAMPLES` and stays there. */
  lemma {:induction false} FramesConverge(samples: u32, n: nat)
    requires samples <= MAX_SAMPLES
    ensures Frames(samples, seq(n, j => false)).0 == if samples + n < MAX_SAMPLES then samples + n else MAX_SAMPLES
    decreases n
  {
    if n != 0 {
      assert seq(n, j => false)[1..] == seq(n - 1, j => false);
      FramesConverge(SampleStep(samples, false).0, n - 1);
    }
  }

  /** The path tracer's sample count. */
  class SampleCounter {
    var samples: u32
    const maxSamples: u32

    ghost predicate Valid()
      reads this
    {
      maxSamples == MAX_SAMPLES && samples <= maxSamples
    }

    /** `Ray::init` starts at 0 samples with the limit `MAX_SAMPLES`. */
    constructor ()
      ensures Valid() && samples == 0
    {
      samples := 0;
      maxSamples := MAX_SAMPLES;
    }

    /** The counter part of `Ray::render`: returns whether the frame
        dispatches its rays, the count then being what the shader receives. */
    method Render(reset: bool) returns (dispatch: bool)
      requires Valid()
      modifies this
      ensures Valid()
      ensures (samples, dispatch) == SampleStep(old(samples), reset)
    {
      dispatch := false;
      if reset {
        samples := 0;
      }
      if samples < maxSamples {
        samples := samples + 1;
        dispatch := true;
      }
    }
  }
}
