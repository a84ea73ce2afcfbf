# DXRust scene container and renderer bookkeeping, in Dafny

This project models the integer and byte logic of DXRust, a Direct3D 12 path
tracer written in Rust, and proves properties of that model. It covers:

- **The scene codec** (`crates/scene`).
  - A `Scene` is serialized as a u64 mesh count, the meshes, a u64 image count, then the images.
  - Every `Vec<T>` is an 8-byte little-endian byte length followed by the packed elements.
  - A `MaterialParameter` is a u32 tag 0..4 followed by a 0-, 4-, 8-, 12- or 16-byte payload.
  - A `Format` is a u32 0 or 1.
  - `Vec2`, `Vec3`, `Vec4` and `Mat4` are opaque 8-, 12-, 16- and 64-byte values.
  - The codec appears twice: as functions (`SceneCodec`) and as the step-by-step `serialize_buf`/`deserialize` loops (`SceneStream`).
  - Round trips are proved for every level, from `Vec<T>` up to a whole `Scene`.
- **The chunk framing of the scene file** (`Framing`).
  - The asset tool cuts the serialized scene into 1 GiB chunks.
  - It lz4-compresses each chunk with the uncompressed size prepended.
  - It writes each chunk's record as a u32 length followed by the compressed bytes.
  - The loader reads the records back into a 4 GiB buffer.
  - lz4 is a pair of function parameters. Every property that needs it assumes a round-trip hypothesis about them.
  - The written file is proved to read back as the scene.
- **The bump allocator `FixedBaseAllocator`** (`Allocator`). It is a class whose `allocate` aligns, checks and bumps its `used` counter. The ranges it hands out are proved disjoint and inside the region.
- **The legacy asset file** (`LegacyAsset`).
  - The 16-byte header and the 128-byte table entries.
  - The magic check.
  - The first-match table lookup on NUL-terminated names.
  - The checked offset arithmetic and bounds check of `load_mesh`.
- **The asset tool's importer and tally.**
  - `BistroImporter::texture` is a class whose texture cache, image list and texture counter keep an invariant.
  - The material base-name derivation.
  - The per-slot material-variant tally (`Tally`).
- **Renderer bookkeeping** (`Render`).
  - Mesh concatenation and the draw arguments of `Raster::init`.
  - The ray-tracing mesh instances of `Ray::init`. Their offsets are proved to agree with the raster draw arguments.
  - The `material!` mapping.
  - The 256-byte-rounded sizes and the walk that lays out the bottom-level acceleration structures (BLAS).
  - The instance descriptor addresses.
  - The sample counter.
- **Direct3D 12 wrapper bookkeeping** (`D3D12`).
  - The descriptor-heap bump allocator.
  - The per-frame constant buffer: its size rounding, bounds-checked `write` and addresses.
  - The staging of buffer and texture uploads, where each texture row lands at the aligned pitch.

Rust panics (`unwrap`, `expect`, slice indexing, `assert!`, debug-mode
arithmetic overflow, `unreachable!`) become the `Err` case of a `Result`, with
an error naming the cause. `as u32` casts are reduced modulo 2^32 where they
can truncate.

**Record layout.** Each record of a scene file is:
- the u32 compressed length, then lz4's output;
- lz4's output itself begins with the 4-byte uncompressed size;
- the reader takes `u_size` from bytes 4..8, the first four bytes of the payload, and advances by `4 + c_size`.

## Model

| member | source | states |
|---|---|---|
| Wire.ReadU32 | crates/scene/src/lib.rs:252-255 | reading a u32 succeeds exactly when 4 bytes remain; it returns the value whose LE bytes are the first 4 and advances past them |
| Wire.ReadU64 | crates/scene/src/lib.rs:231-235 | reading a u64 succeeds exactly when 8 bytes remain; it returns the value whose LE bytes are the first 8 and advances past them |
| Wire.ReadU32OfBytes | crates/scene/src/lib.rs:204-208 | reading a u32 back from its own LE bytes gives the value and leaves exactly the following bytes |
| Wire.ReadU64OfBytes | crates/scene/src/lib.rs:196-202 | reading a u64 back from its own LE bytes gives the value and leaves exactly the following bytes |
| Wire.U32Bytes | crates/scene/src/lib.rs:204-208 | a u32 is written as 4 bytes that decode back to it |
| Wire.U64Bytes | crates/scene/src/lib.rs:180-194 | a u64 is written as 8 bytes that decode back to it |
| Wire.FromLEOfLE | crates/scene/src/lib.rs:204-208 | decoding the n little-endian bytes of x gives x |
| Wire.LEOfFromLE | crates/scene/src/lib.rs:248-255 | encoding the value of any n bytes gives those bytes back |
| Wire.FlattenLength | crates/scene/src/lib.rs:211-215 | packing k records of width w gives k·w bytes |
| Wire.FlattenAppend | crates/scene/src/lib.rs:211-215 | packing two record lists one after the other packs their concatenation |
| Wire.Chunks | crates/scene/src/lib.rs:231-235 | splitting k·w bytes gives k records of width w |
| Wire.FlattenChunks | crates/scene/src/lib.rs:231-235 | packing the records split from a byte run gives the run back |
| Wire.ChunksFlatten | crates/scene/src/lib.rs:211-215 | splitting the packed bytes of records of width w gives the records back |
| Wire.EncodeManyAppend | crates/scene/src/lib.rs:186-193 | serializing two element lists in turn serializes their concatenation |
| Wire.EncodeManySnoc | crates/scene/src/lib.rs:186-193 | serializing i+1 elements is serializing i of them, then element i |
| Wire.DecodeMany | crates/scene/src/lib.rs:364-376 | a successful read of n elements yields exactly n |
| Wire.PrependAll | crates/scene/src/lib.rs:364-376 | elements already read stay in front of the rest; errors pass through unchanged |
| Wire.DecodeManyStep | crates/scene/src/lib.rs:364-376 | reading n elements is one element read, then n−1 more from where it stopped; a failing first read is the result |
| Wire.ManyRoundTrip | crates/scene/src/lib.rs:361-378 | when each element decodes back from its encoding, so do all of them, whatever bytes follow |
| Wire.DecodeManyReencodes | crates/scene/src/lib.rs:361-376 | when every successful element read re-encodes to the bytes it consumed, so does every successful read of n elements |
| SceneCodec.FormatToU32 | crates/scene/src/lib.rs:58-65 | a format maps to 0 or 1 |
| SceneCodec.FormatFromU32 | crates/scene/src/lib.rs:67-77 | `try_from` succeeds exactly on 0 and 1, inverting `into`; every other value is the unknown-format error |
| SceneCodec.FormatRoundTrip | crates/scene/src/lib.rs:58-77 | `try_from(into(f))` is `f` |
| SceneCodec.ParamTag | crates/scene/src/lib.rs:97-107 | a material-parameter tag is in 0..4 |
| SceneCodec.ParamTagInjective | crates/scene/src/lib.rs:97-107 | equal tags mean the same variant and the same payload size |
| SceneCodec.LenBytes | crates/scene/src/lib.rs:196-202 | the length prefix of a `Vec` is 8 bytes that decode to the byte size |
| SceneCodec.EncodeVec | crates/scene/src/lib.rs:196-202 | a `Vec` is its 8-byte length, which reads back as the byte count when it fits a u64, then exactly its bytes |
| SceneCodec.EncodeParam | crates/scene/src/lib.rs:144-157 | a parameter is its 4-byte tag, which reads back as `into()`, then its payload of the tag's size |
| SceneCodec.EncodeMaterial | crates/scene/src/lib.rs:159-166 | a material takes 16 to 80 bytes and opens with the base colour's tag |
| SceneCodec.EncodeMesh | crates/scene/src/lib.rs:168-178 | a mesh takes at least the five vector lengths, the transform and a material, and opens with the positions' byte length |
| SceneCodec.EncodeImage | crates/scene/src/lib.rs:128-135 | an image is width, height and the format tag as u32s, then its pixels as a `Vec` (20 bytes more than the pixels) |
| SceneCodec.EncodeScene | crates/scene/src/lib.rs:180-194 | a scene opens with its mesh count |
| SceneCodec.IndexRecords | crates/scene/src/lib.rs:196-202 | each u32 index becomes a 4-byte record that decodes back to it |
| SceneCodec.ReadFixed | crates/scene/src/lib.rs:248-255 | a fixed record read succeeds exactly when enough bytes remain, returns exactly those bytes and advances past them; a short input is out of bounds |
| SceneCodec.DecodeVecBytes | crates/scene/src/lib.rs:226-236 | a `Vec` read succeeds exactly when the 8-byte length and that many bytes are present; it returns those bytes and advances by 8 plus the length |
| SceneCodec.DecodeRecords | crates/scene/src/lib.rs:226-236 | a `Vec<T>` read yields records of width `size_of::<T>()` that pack to the bytes read; a byte length that is not a multiple of the width fails |
| SceneCodec.DecodeVec3s | crates/scene/src/lib.rs:226-236 | a `Vec<Vec3>` read is a record read of width 12 |
| SceneCodec.DecodeVec2s | crates/scene/src/lib.rs:226-236 | a `Vec<Vec2>` read is a record read of width 8 |
| SceneCodec.DecodeIndices | crates/scene/src/lib.rs:226-236 | a `Vec<u32>` read is a record read of width 4, with each record decoded to its index |
| SceneCodec.DecodeParam | crates/scene/src/lib.rs:263-282 | a tag above 4 hits the panic; a successful read's tag and payload size match the result, and the bytes consumed are exactly its encoding |
| SceneCodec.DecodePayload | crates/scene/src/lib.rs:267-276 | the payload read for tags 1..4 gives a parameter of that tag whose encoding is the tag followed by the bytes consumed |
| SceneCodec.DecodeMaterial | crates/scene/src/lib.rs:288-295 | a successful read of the four slots consumes exactly the encoding of the material it returns |
| SceneCodec.DecodeMesh | crates/scene/src/lib.rs:306-317 | a successful read of the seven fields consumes exactly the encoding of the mesh it returns |
| SceneCodec.DecodeImage | crates/scene/src/lib.rs:338-345 | a successful read, including the `try_into().unwrap()` of the format, consumes exactly the encoding of the image it returns |
| SceneCodec.DecodeMeshes | crates/scene/src/lib.rs:363-366 | the mesh loop reads exactly `meshes_count` meshes and consumes their encodings |
| SceneCodec.DecodeImages | crates/scene/src/lib.rs:369-372 | the image loop reads exactly `images_count` images and consumes their encodings |
| SceneCodec.DecodeScene | crates/scene/src/lib.rs:361-379 | a successful scene read consumes exactly the encoding of the scene it returns; SceneRoundTrip is the other direction |
| SceneCodec.VecRoundTrip | crates/scene/src/lib.rs:196-202 | a byte run written with its length prefix reads back, whatever follows |
| SceneCodec.RecordsRoundTrip | crates/scene/src/lib.rs:196-202 | records packed into a `Vec` read back as the same records, whatever follows |
| SceneCodec.Vec3sRoundTrip | crates/scene/src/lib.rs:196-202 | a `Vec<Vec3>` reads back as itself |
| SceneCodec.Vec2sRoundTrip | crates/scene/src/lib.rs:196-202 | a `Vec<Vec2>` reads back as itself |
| SceneCodec.IndicesRoundTrip | crates/scene/src/lib.rs:196-202 | a `Vec<u32>` reads back as itself |
| SceneCodec.ParamRoundTrip | crates/scene/src/lib.rs:144-157 | every material parameter reads back as itself, whatever follows |
| SceneCodec.MaterialRoundTrip | crates/scene/src/lib.rs:159-166 | a material reads back as itself, with the slots in the same order |
| SceneCodec.MeshRoundTrip | crates/scene/src/lib.rs:168-178 | a mesh reads back as itself, with the fields in the same order |
| SceneCodec.ImageRoundTrip | crates/scene/src/lib.rs:128-135 | an image reads back as itself, with the fields in the same order |
| SceneCodec.MeshesRoundTrip | crates/scene/src/lib.rs:180-194 | the meshes read back in order |
| SceneCodec.ImagesRoundTrip | crates/scene/src/lib.rs:180-194 | the images read back in order |
| SceneCodec.SceneRoundTrip | crates/scene/src/lib.rs:357-399 | a scene reads back as itself, leaving the bytes that follow |
| SceneCodec.SceneRoundTripWhole | crates/scene/src/lib.rs:119-126 | deserializing a serialized scene gives it back and consumes the whole buffer |
| SceneStream.AppendAll | crates/scene/src/lib.rs:186-193 | an append loop leaves the old buffer followed by every element's encoding |
| SceneStream.SerializeScene | crates/scene/src/lib.rs:180-194 | `serialize_buf` appends exactly the scene's encoding to whatever the buffer held |
| SceneStream.Serialize | crates/scene/src/lib.rs:119-126 | `serialize` gives the scene's encoding, and deserializing it gives the scene back with nothing left over |
| SceneStream.ReadAll | crates/scene/src/lib.rs:364-376 | the push loop reads as many elements as the sequential decoder, stopping at the first failing read |
| SceneStream.DeserializeScene | crates/scene/src/lib.rs:357-399 | `deserialize` (and `deserialize_in`) consume bytes exactly as the scene decoder does |
| Framing.Lz4Compress | crates/asset/src/main.rs:89 | a compressed chunk is its length (`as u32`) in 4 LE bytes, then the block; compression failure is the `expect` panic |
| Framing.Lz4Decompress | crates/asset/src/lib.rs:22 | decompression needs a 4-byte size prefix no larger than the room left; it writes at most that many bytes; a failure is the `unwrap` panic |
| Framing.ChunksOfCover | crates/asset/src/main.rs:88 | the 1 GiB chunks are non-empty, at most 1 GiB, and concatenate to the buffer; an empty buffer has no chunks |
| Framing.ChunksOf | crates/asset/src/main.rs:88 | every chunk is non-empty and at most n bytes; ChunksOfCover adds that they concatenate to the buffer |
| Framing.Record | crates/asset/src/main.rs:90-91 | a record is the 4-byte length, then exactly the compressed bytes |
| Framing.WriteRecords | crates/asset/src/main.rs:88-92 | writing the chunk records succeeds exactly when lz4 compresses every chunk, and otherwise fails with the compression error |
| Framing.WriteFrame | crates/asset/src/main.rs:88-92 | the file for a buffer is written exactly when every 1 GiB chunk compresses; an empty buffer gives an empty file |
| Framing.WriteRecordsStep | crates/asset/src/main.rs:88-92 | the file is the first chunk's record followed by the others'; a compression failure ends it |
| Framing.WriteChunks | crates/asset/src/main.rs:88-92 | the writer loop produces exactly the chunk records of the buffer, in order |
| Framing.WriteSceneFile | crates/asset/src/main.rs:85-92 | the tool writes the serialized scene's chunk records |
| Framing.NextRecord | crates/asset/src/lib.rs:19-24 | one record puts at most the room left into the buffer and strictly shortens the view |
| Framing.ReadRecords | crates/asset/src/lib.rs:15-28 | the reader never produces more bytes than the buffer holds |
| Framing.ReadRecordsOk | crates/asset/src/lib.rs:15-26 | a record read successfully puts its bytes in front of what the following records give |
| Framing.ReadRecordsErr | crates/asset/src/lib.rs:19-22 | a record that cannot be read ends the reader with its panic |
| Framing.NextRecordOk | crates/asset/src/lib.rs:19-25 | `c_size` and `u_size` are the LE u32s at 0..4 and 4..8; the view advances by 4 + `c_size`; the buffer gains `u_size` bytes (those decompressed, then the zeros already there) |
| Framing.CopyInto | crates/asset/src/lib.rs:22 | lz4 writes its output at `total_size` and nothing else in the buffer changes |
| Framing.PaddedCopy | crates/asset/src/lib.rs:22-25 | after a write over a zero tail, the first `total + u_size` bytes are the old prefix followed by the output and zeros |
| Framing.ReaderAdvance | crates/asset/src/lib.rs:15-26 | the reader loop's invariant (buffer prefix plus what the rest of the view reads as equals the whole file's reading) carries over one record |
| Framing.ReaderFails | crates/asset/src/lib.rs:19-22 | the loop stops at the first bad record with that record's panic |
| Framing.ReaderDone | crates/asset/src/lib.rs:16-18 | when the view is empty, the buffer prefix is the whole file's reading |
| Framing.ReadOneRecord | crates/asset/src/lib.rs:19-25 | one pass decodes the front record into the buffer at `total_size`, keeps the zero tail, and advances `total_size` by what the record puts there |
| Framing.ReadStep | crates/asset/src/lib.rs:15-26 | one loop pass keeps the loop invariant or ends with the reader's panic |
| Framing.LoadDataFromDisk | crates/asset/src/lib.rs:7-30 | `load_data_from_disk` returns the truncated buffer, which is exactly the records' reading |
| Framing.SceneFromData | crates/asset/src/lib.rs:36-37 | a scene loads only if decoding consumes the whole buffer; leftover bytes fail the assertion |
| Framing.LoadSceneFromFile | crates/asset/src/lib.rs:32-51 | both loaders read the records, then decode the scene with the full-consumption check |
| Framing.LoadScene | crates/asset/src/lib.rs:32-51 | a loaded scene is what decoding the records' bytes gives, with nothing left over; a failed record read is the loader's failure |
| Framing.ChunkRecordsRoundTrip | crates/asset/src/main.rs:88-92 | the records written for chunks that lz4 round-trips read back as the chunks' concatenation |
| Framing.ConsRoundTrip | crates/asset/src/main.rs:88-92 | one chunk's record in front of records that read back gives that chunk in front |
| Framing.WriteRecordsCons | crates/asset/src/main.rs:88-92 | the written file is the first record in front of the others |
| Framing.OneRecordRoundTrip | crates/asset/src/main.rs:89-91 | a chunk's record reads back as the chunk in front of whatever follows |
| Framing.RecordLayout | crates/asset/src/lib.rs:19-24 | in a written record, bytes 0..4 are the compressed length and 4..8 are lz4's size prefix; the payload and the following records sit where the reader looks |
| Framing.FrameRoundTrip | crates/asset/src/main.rs:88-92 | given lz4's round trip, reading the file written for a buffer of at most 4 GiB gives the buffer back |
| Framing.SceneFileRoundTrip | crates/asset/src/lib.rs:32-40 | writing a scene to a file and loading it gives the scene back |
| Framing.EmptyFrame | crates/asset/src/lib.rs:15-18 | an empty buffer writes no records, and an empty file reads as an empty buffer |
| Allocator.AlignDelta | src/allocator.rs:35 | the alignment offset is smaller than the alignment |
| Allocator.AlignDeltaAligns | src/allocator.rs:35-36 | skipping the alignment offset lands on a multiple of the alignment |
| Allocator.AllocStepOutcome | src/allocator.rs:32-42 | `allocate` succeeds exactly when the base is non-null, no add overflows and the new `used` fits `size`; a null base and running out of room are the two panics |
| Allocator.AllocStep | src/allocator.rs:29-47 | a successful `allocate` places the block at or after the bump point, ends it at the new `used`, and keeps `used` within `size`; a failure is a null base, an overflow or out of memory |
| Allocator.AllocStepPlacement | src/allocator.rs:34-43 | a block is aligned at `base + used + align_delta`, within one alignment of the old bump point; it ends at the new bump point and `used` stays within `size` |
| Allocator.FixedBaseAllocator.constructor | src/allocator.rs:14-20 | `new` has a null base, nothing used and no room |
| Allocator.FixedBaseAllocator.Init | src/allocator.rs:21-25 | `init` takes over the region and resets `used` to 0 |
| Allocator.FixedBaseAllocator.Allocate | src/allocator.rs:29-47 | a panic leaves every field unchanged; success moves `used` as `AllocStep` says and records the block; blocks stay disjoint and inside `[base, base + used)` |
| Allocator.FixedBaseAllocator.Deallocate | src/allocator.rs:49-51 | `deallocate` changes nothing |
| Allocator.SuccessiveAllocationsDisjoint | src/allocator.rs:34-45 | two successive blocks are disjoint, in address order, and inside the region |
| LegacyAsset.EncodeHeader | src/asset.rs:14-21 | the header is a packed 16-byte record |
| LegacyAsset.DecodeHeader | src/asset.rs:99-102 | any 16 bytes read as a header re-encode to themselves |
| LegacyAsset.EncodeEntry | src/asset.rs:34-43 | a table entry is a packed 128-byte record |
| LegacyAsset.DecodeEntry | src/asset.rs:34-43 | any 128 bytes read as an entry with 80-byte name and 28-byte tag fields, and re-encode to themselves |
| LegacyAsset.DecodeEncodeHeader | src/asset.rs:14-21 | a header reads back as itself |
| LegacyAsset.DecodeEncodeEntry | src/asset.rs:34-43 | an entry reads back as itself |
| LegacyAsset.DecodeTable | src/asset.rs:108-110 | k·128 bytes read as k well-formed entries |
| LegacyAsset.FromFile | src/asset.rs:96-118 | `from_file` succeeds exactly when the file has a header with the magic 0xAF00AF00 and a table of `table_entry_count` entries that `Layout::array` accepts; the result holds that header and entries that re-encode to exactly the table's bytes |
| LegacyAsset.EncodeTable | src/asset.rs:108-110 | entries pack into 128 bytes each |
| LegacyAsset.DecodeEncodeTable | src/asset.rs:108-110 | a packed table reads back as its entries |
| LegacyAsset.EncodeDecodeTable | src/asset.rs:108-110 | the entries read from a table re-encode to exactly its bytes |
| LegacyAsset.FromFileRoundTrip | src/asset.rs:96-118 | a file made of a valid header and its table opens as that header and table |
| LegacyAsset.FirstNul | src/asset.rs:124-125 | the C-string length is the position of the first NUL, or the whole field |
| LegacyAsset.EntryName | src/asset.rs:124-127 | the name read fails exactly when the bytes scanned hold no NUL or the bytes before it are not valid UTF-8; a name that decodes is valid UTF-8, has no NUL, and is the name field up to its terminator |
| LegacyAsset.EntryNameDecodes | src/asset.rs:124-127 | a name field holding valid UTF-8 without NUL, then a NUL, reads as exactly those bytes |
| LegacyAsset.FindAssetAt | src/asset.rs:120-136 | the lookup is decided by the first entry that either fails the UTF-8 `unwrap` or matches both name and type |
| LegacyAsset.FindAssetNone | src/asset.rs:120-136 | when no entry matches, the lookup is `None` |
| LegacyAsset.FindAssetDecided | src/asset.rs:120-136 | a lookup that is not `None` was decided by a first deciding entry |
| LegacyAsset.FindAssetIn | src/asset.rs:120-136 | the lookup loop with its early return computes the lookup |
| LegacyAsset.FindAsset | src/asset.rs:120-136 | the reference lookup: an empty table gives `None`, and an unreadable name is the `unwrap` panic; FindAssetAt, FindAssetNone and FindAssetDecided state what it finds |
| LegacyAsset.AddU64 | src/asset.rs:151-168 | a u64 add succeeds exactly without overflow |
| LegacyAsset.SubOffsets | src/asset.rs:151-165 | positions start at `offset + vertex_data_offset`; normals, tangents and uvs follow at 12·vc steps and indices 8·vc after uvs, plus 32·vc for a skinned mesh; any overflow is a panic |
| LegacyAsset.SkipSkin | src/asset.rs:162-164 | skinning data is skipped in two 16·vc steps, checked for overflow |
| LegacyAsset.ReadVectorAt | src/asset.rs:90-94 | reading `count` records at an offset succeeds exactly when they are inside the file, and gives exactly those bytes |
| LegacyAsset.ReadInfo | src/asset.rs:145-149 | the 40-byte mesh header is read at the entry offset when it is inside the file |
| LegacyAsset.DecodeAssetMesh | src/asset.rs:149 | the `transmute` of the 40 bytes: each of the ten u32 fields is its 4 bytes at its offset in declaration order |
| LegacyAsset.CheckBounds | src/asset.rs:167-170 | an overflowing `offset + size` gives `None`; otherwise the index range must end within `offset + size` (an overflowing end is a panic) |
| LegacyAsset.U32sOf | src/asset.rs:182-185 | 4-byte records read as the indices they encode |
| LegacyAsset.ReadArrays | src/asset.rs:172-193 | the mesh has vc positions, vc normals and `indices_count` indices, read from the computed offsets, and the identity transform |
| LegacyAsset.LoadEntry | src/asset.rs:138-194 | an entry smaller than the 40-byte header gives `None`; a loaded mesh is the one at the entry's offsets |
| LegacyAsset.LoadMesh | src/asset.rs:138-140 | `load_mesh` looks the name up as a mesh and loads that entry; a failed lookup is `None` |
| LegacyAsset.LoadMeshFound | src/asset.rs:138-194 | a loaded mesh comes from the first entry with that name and the mesh type |
| Importer.TextureOutcomes | crates/asset/src/gltf.rs:278-323 | a missing path gives `None` and changes nothing; a cached path gives its cached parameter; a 1×1 image gives a `Vec4` and caches it; a larger image is appended and returned as `Texture(current_texture)`, which then goes up by one |
| Importer.TextureOn | crates/asset/src/gltf.rs:278-323 | `texture` only appends images; a successful lookup of an existing file leaves that path cached with the returned parameter and keeps every earlier cache entry |
| Importer.TextureKeepsValid | crates/asset/src/gltf.rs:278-323 | `texture` keeps `current_texture == images.len()`, every cached texture index naming an image and distinct paths having distinct indices; it only appends images and never changes a cached entry |
| Importer.TextureIdempotent | crates/asset/src/gltf.rs:286-288 | asking for the same path again gives the same parameter and changes nothing |
| Importer.FirstSegment | crates/asset/src/gltf.rs:257 | the segment is the longest prefix without a `-` |
| Importer.BaseName | crates/asset/src/gltf.rs:254-258 | the base name is the first segment with its last 9 bytes dropped; a missing name and a segment shorter than 9 bytes are panics |
| Importer.MaterialKeepsValid | crates/asset/src/gltf.rs:253-276 | `material` keeps the importer invariant; the four slots are None, Texture or Vec4 and every texture index names an image |
| Importer.MaterialOn | crates/asset/src/gltf.rs:253-276 | `material` only appends images; on success the base name was readable, earlier cache entries are kept, and each of the four texture paths that exists is cached with the slot the material holds |
| Importer.BistroImporter.constructor | crates/asset/src/gltf.rs:167-172 | the importer starts with no images, an empty cache and `current_texture` 0 |
| Importer.BistroImporter.Texture | crates/asset/src/gltf.rs:278-323 | the method returns what `TextureOn` says and moves the fields to its state |
| Importer.BistroImporter.Material | crates/asset/src/gltf.rs:253-276 | returns the material `MaterialOn` describes (the base name plus "BaseColor.png", "Normal.png", "Specular.png" and "Emissive.png", looked up in that order) and keeps the importer invariant |
| Tally.KindOf | crates/asset/src/main.rs:51-56 | None, Texture and Vec4 are the three countable kinds; anything else is unreachable |
| Tally.SlotParams | crates/asset/src/main.rs:50 | the parameters of one slot, one per mesh in mesh order |
| Tally.BumpSnoc | crates/asset/src/main.rs:51-56 | counting one more parameter gives the counts of the longer list, or unreachable |
| Tally.SlotStep | crates/asset/src/main.rs:50-77 | one loop step for one slot extends the counts to one more mesh |
| Tally.TallyMaterials | crates/asset/src/main.rs:33-83 | the tally fails exactly when some slot holds a `Vec2` or `Vec3`; otherwise every counter is the number of meshes of that kind in that slot |
| Tally.CountsCover | crates/asset/src/main.rs:50-78 | when every parameter is countable, a slot's three counters add up to the number of parameters |
| Tally.TallySums | crates/asset/src/main.rs:33-83 | after a successful tally, each slot's none, const and text counts sum to the number of meshes |
| Render.GatherSnoc | src/render.rs:97-101 | extending the buffers by mesh i appends that mesh's data |
| Render.TotalSnoc | src/render.rs:143-146 | the running total after mesh i adds that mesh's count |
| Render.GatherAppend | src/render.rs:97-101 | concatenating two mesh lists concatenates their buffers |
| Render.TotalAppend | src/render.rs:143-146 | totals over two mesh lists add |
| Render.GatherAround | src/render.rs:97-101 | a buffer is what the earlier meshes put there, then mesh i's data, then the later meshes' |
| Render.TotalPrefix | src/render.rs:143-146 | a running total never exceeds the final one |
| Render.GatherPrefix | src/render.rs:97-101 | a buffer's prefix length never exceeds its final length |
| Render.CountsFitPrefix | src/render.rs:143-146 | if the checked adds pass for all meshes, they pass for every prefix |
| Render.TruncatedTotal | src/render.rs:143-150 | the sum of the `len() as u32` counts equals the buffer length modulo 2^32 |
| Render.ExactTotal | src/render.rs:143-150 | when every mesh has fewer than 2^32 elements, that sum is the buffer length itself |
| Render.Bind | src/render.rs:108-124 | `Texture(v)` gives index v; `Vec4(v)` gives index `u32::MAX` and value v; anything else gives `u32::MAX` and the slot default |
| Render.BindConveys | src/render.rs:108-124 | a shader reading the binding (`u32::MAX` meaning "use the value") sees the parameter's meaning, for every texture index below `u32::MAX` |
| Render.BindSentinelClash | src/render.rs:111-113 | the one exception: `Texture(u32::MAX)` is read as a constant |
| Render.ImportedTexturesConvey | src/render.rs:108-124 | every parameter the importer caches binds to its meaning |
| Render.NormalIndex | src/render.rs:567-571 | the ray normal slot is v for `Texture(v)` and `u32::MAX` otherwise |
| Render.AsI32 | src/render.rs:138 | `as i32` keeps the value modulo 2^32 in the i32 range and is the identity below 2^31 |
| Render.RasterOf | src/render.rs:97-147 | one instance and one draw per mesh |
| Render.RasterGathers | src/render.rs:97-101 | the raster buffers are the concatenated positions, normals, uvs and indices in mesh order |
| Render.CountsMatchBuffers | src/render.rs:149-150 | when the checked adds pass, the counters equal the buffer lengths as u32, so the asserts hold |
| Render.RasterOfSnoc | src/render.rs:97-147 | one loop step appends mesh i's data, instance and draw |
| Render.RasterEntries | src/render.rs:130-141 | instance i and draw i are those of mesh i after the meshes before it |
| Render.RasterInstanceOf | src/render.rs:103-130 | the raster instance keeps the mesh's transform and normal index 0, and a slot index other than `u32::MAX` is exactly that texture |
| Render.CommandAfter | src/render.rs:132-141 | the draw command draws one instance of the mesh's index count, and its index, start index and base vertex are the counts before the mesh whenever they fit |
| Render.RasterAdvance | src/render.rs:97-147 | one loop turn either moves the loop invariant on to the next mesh or, on a checked-add overflow, shows the meshes do not fit |
| Render.RasterInit | src/render.rs:97-150 | the raster loop fails exactly when a checked add overflows; otherwise it builds the buffers of `RasterOf` |
| Render.DrawOffsets | src/render.rs:132-141 | draw i has index i, one instance, the mesh's index count, and start index and base vertex equal to the earlier meshes' totals (all as u32) |
| Render.GatherSlice | src/render.rs:97-101 | mesh i's data sits in the buffer at the earlier meshes' total |
| Render.DrawExact | src/render.rs:132-141 | with meshes shorter than 2^32, draw i's start index, index count and base vertex are the exact prefix sums |
| Render.DrawSelectsMesh | src/render.rs:132-141 | draw i's index range of the index buffer is exactly mesh i's indices, and its base vertex selects exactly mesh i's positions |
| Render.RoundUp256 | src/render.rs:615-616 | `(x + 0xFF) & !0xFF` is the least multiple of 256 not below x |
| Render.RoundUp256Least | src/render.rs:615-616 | no multiple of 256 that is at least x is smaller than the rounding |
| Render.RoundedSnoc | src/render.rs:615-616 | the rounded total after mesh i adds that mesh's rounded size |
| Render.RoundedAppend | src/render.rs:615-616 | appending a size adds its rounding to the total |
| Render.RoundedMonotone | src/render.rs:692-696 | a longer prefix never has a smaller rounded total |
| Render.PieceStep | src/render.rs:769-770 | each step of the instance walk adds one rounded size and stays within the total |
| Render.RoundedAligned | src/render.rs:615-616 | every rounded total is a multiple of 256 |
| Render.PiecesDisjoint | src/render.rs:692-696 | piece i ends no later than piece j begins, and every piece lies within the total |
| Render.RayOf | src/render.rs:533-620 | one instance and one size pair per mesh |
| Render.RayOfSnoc | src/render.rs:533-620 | one loop step appends mesh i's data, instance and sizes |
| Render.RayStep | src/render.rs:540-578 | with the counters at the earlier meshes' totals, the step's instance uses them as its offsets |
| Render.RayGathers | src/render.rs:533-538 | the ray buffers are the concatenated positions, normals, tangents, uvs and indices in mesh order |
| Render.RaySizes | src/render.rs:609-619 | `info_sizes[j]` is the driver's prebuild answer for mesh j's vertex and index counts |
| Render.RaySizesPrefix | src/render.rs:618-619 | the sizes of a prefix of the meshes are a prefix of the sizes |
| Render.SizesFitSnoc | src/render.rs:615-616 | the rounding adds pass for one more mesh exactly when they passed before and the new add does not overflow |
| Render.SizesFitPrefix | src/render.rs:615-616 | adds that pass for all meshes pass for every prefix |
| Render.RayFitsPrefix | src/render.rs:575-578 | a successful loop over all meshes passes every check for every prefix |
| Render.RayFitsStep | src/render.rs:575-616 | in a successful loop, step i overflows none of its six adds |
| Render.RayOverflow | src/render.rs:575-616 | an overflow in step i means the loop over all meshes does not fit |
| Render.RayAdvance | src/render.rs:533-620 | one step keeps the loop invariant (buffers, counters and totals for the first i meshes) |
| Render.RayCountsMatchBuffers | src/render.rs:622-623 | when the checked adds pass, the counters equal the buffer lengths as u32 |
| Render.RayDone | src/render.rs:620-623 | at the end of the loop the buffers are `RayOf`, the asserts hold, and the totals are the rounded sums |
| Render.RayInit | src/render.rs:533-623 | the ray loop fails exactly when an add overflows; otherwise it builds `RayOf` with scratch and BLAS totals equal to the rounded sums |
| Render.RayEntries | src/render.rs:540-573 | instance i is mesh i's instance after the meshes before it |
| Render.RayInstanceAfter | src/render.rs:540-573 | the ray instance binds the same colour slots as the raster instance, a normal index other than `u32::MAX` is exactly that texture, and its offsets are the counts before the mesh whenever they fit |
| Render.RayMatchesRaster | src/render.rs:540-544 | ray instance i's index and vertex offsets are raster draw i's start index and base vertex; its three colour bindings are raster instance i's |
| Render.WalkStep | src/render.rs:675-696 | each walk step advances the scratch and BLAS pointers by one rounded size, staying within the end, and the vertex and index pointers by the mesh's bytes |
| Render.WalkOverflow | src/render.rs:681-682 | a vertex or index pointer that overflows after mesh i also overflows after the last mesh |
| Render.BuildBlas | src/render.rs:660-703 | the walk fails exactly when a pointer overflows; build i's destination and scratch addresses are the bases plus the rounded sizes of meshes before i, and its vertex and index buffers are the bases plus the earlier meshes' bytes; the walk asserts hold |
| Render.Element | src/render.rs:757-763 | a matrix element is four bytes |
| Render.InstanceTransform | src/render.rs:759-763 | the instance transform is 12 elements, 48 bytes |
| Render.InstanceBits | src/render.rs:764 | the low 24 bits are the instance id `i as u32` and the top byte is the 0xFF mask |
| Render.WriteInstanceDescs | src/render.rs:753-773 | descriptor i gets mesh i's transform, id i with mask 0xFF, and the BLAS base plus the rounded result sizes of meshes before i; an overflowing end is the only failure |
| Render.SampleStep | src/render.rs:937-945 | a frame dispatches exactly when it resets or is below 1024 samples; a dispatch counts one sample from 0 or from the old count; the count never passes 1024 |
| Render.FramesBounded | src/render.rs:937-945 | over any run of frames the count stays at most 1024; without resets it grows by exactly the number of dispatches |
| Render.FramesConverge | src/render.rs:14 | without resets the count reaches `min(samples + n, 1024)` after n frames |
| Render.SampleCounter.constructor | src/render.rs:914-915 | the counter starts at 0 with the limit 1024 |
| Render.SampleCounter.Render | src/render.rs:935-945 | `render` moves the counter as `SampleStep` says and keeps it within the limit |
| D3D12.Splice | src/d3d12.rs:1066 | `copy_from_slice` into `map[at..at+len]` sets exactly those bytes and keeps every other one |
| D3D12.SpliceIsConcat | src/d3d12.rs:1066 | the spliced memory is the bytes before `at`, then the copied slice, then the bytes after it: the state an in-place copy leaves |
| D3D12.Handles | src/d3d12.rs:1407-1419 | the first k handles handed out |
| D3D12.HandleAt | src/d3d12.rs:1414-1417 | handle i is `start + i·increment` |
| D3D12.HandlesIncrease | src/d3d12.rs:1407-1419 | a positive increment makes handles strictly increasing |
| D3D12.HandlesInHeap | src/d3d12.rs:1046-1048 | every handle of a heap of `count` descriptors lies in `[start, end)` with room for one descriptor |
| D3D12.DescriptorHeap.constructor | src/d3d12.rs:1037-1055 | a new heap has `top` at the start and `end = start + count·increment` |
| D3D12.DescriptorHeap.AllocDescriptor | src/d3d12.rs:1407-1419 | `None` exactly when `top >= end`, changing nothing; otherwise returns `top` and advances it by `increment`; at most `count` allocations succeed |
| D3D12.DescriptorHeap.Offset | src/d3d12.rs:1421-1426 | `offset()` is the number of successful allocations; a zero increment is a division panic |
| D3D12.HandedDistinct | src/d3d12.rs:1407-1419 | handles handed out earlier are strictly smaller, and all lie in the heap |
| D3D12.CreateDescriptorHeap | src/d3d12.rs:1019-1056 | heap creation succeeds exactly when `start + count·increment` fits a usize; the heap is fresh and has handed out nothing |
| D3D12.WrappingNeg | src/d3d12.rs:960 | `wrapping_neg` adds to x to give 0 modulo 2^64 |
| D3D12.NegMaskRounds | src/d3d12.rs:960 | adding the low byte of `wanted.wrapping_neg()` to `wanted` yields a multiple of 256 at least `wanted` and less than 256 above it |
| D3D12.SlotSize | src/d3d12.rs:960-961 | the slot size is a multiple of 256 in `[wanted, wanted + 256)`; overflow of the add is a panic |
| D3D12.SlotSizeIsRoundUp | src/d3d12.rs:960-961 | the negate-and-mask rounding agrees with the renderer's `(x + 0xFF) & !0xFF` rounding and fails exactly when that overflows |
| D3D12.PerFrameConstantBuffer.constructor | src/d3d12.rs:974-978 | the buffer holds its slot size and its map of three slots |
| D3D12.PerFrameConstantBuffer.Write | src/d3d12.rs:1060-1069 | data longer than the slot gives `None` and changes nothing; otherwise it succeeds exactly when the range is inside the map and then changes only `map[size·index..size·index+len]`; an out-of-range write is a panic |
| D3D12.PerFrameConstantBuffer.GpuVirtualAddress | src/d3d12.rs:1071-1074 | the address is `base + size·index`; an overflowing add is a panic |
| D3D12.CreatePerFrameConstantBuffer | src/d3d12.rs:956-979 | creation succeeds exactly when the slot size and `size·3` fit; the buffer is fresh and its slot size is the rounded size |
| D3D12.SlotInMap | src/d3d12.rs:963 | a write of at most `size` bytes to slot 0..2 is inside the map |
| D3D12.WriteKeepsOtherSlots | src/d3d12.rs:1060-1069 | a write to one frame's slot leaves every other frame's slot unchanged |
| D3D12.AddressMatchesSlot | src/d3d12.rs:1071-1074 | the address is the base plus the slot's offset in the map, and it is 256-aligned when the base is |
| D3D12.UploadBuffer | src/d3d12.rs:694-704 | empty data gives `None`; otherwise the upload buffer holds exactly the data |
| D3D12.UploadPitch | src/d3d12.rs:623-624 | the pitch is `width·4` rounded up to a multiple of the 256-byte alignment; nothing wraps (u32 overflow is a panic) |
| D3D12.StagedRows | src/d3d12.rs:630-640 | staging keeps the memory's length |
| D3D12.StagedRowRead | src/d3d12.rs:632-639 | byte x of source row y lands at `y·pitch + x` |
| D3D12.StagedPaddingKept | src/d3d12.rs:630-640 | the padding between `width·4` and the pitch is left as it was |
| D3D12.TightRowsContiguous | src/d3d12.rs:630-640 | when the pitch equals the row size, the staged bytes are the data as it is |
| D3D12.StagedStep | src/d3d12.rs:632-639 | copying row y onto the first y rows gives the first y+1 rows |
| D3D12.CopyRowStep | src/d3d12.rs:632-639 | one turn of the row loop, seen as the bytes an in-place copy of row y leaves, turns the memory staged up to row y into the memory staged up to row y+1 and keeps both slice bounds in range |
| D3D12.CopyRows | src/d3d12.rs:630-640 | the row loop succeeds exactly when the data holds every row, and then leaves the memory as `StagedRows`; a short source is a slice panic |
| D3D12.FreshMemory | src/d3d12.rs:627-628 | the new upload memory holds the given initial bytes |
| D3D12.UploadTex2d | src/d3d12.rs:619-641 | the texture upload succeeds exactly when the pitch fits and the data holds `height` rows of `width·4` bytes; the upload memory is then `height·pitch` bytes with row y at `y·pitch` |

## Left out

- lz4's internals: `compress` and `decompress_to_buffer` are foreign code, so they are function parameters. Properties that need their behaviour take a round-trip hypothesis (`Lz4RoundTrips`).
- File and console I/O: a file is its bytes, and `println!` output is dropped.
  - The file system of the importer is a map from path to image.
  - `texture_directory.join` is a function parameter.
  - Opening, reading, seeking and writing are not modelled, and neither are their failures.
- Direct3D 12 and DXGI calls are not modelled. This covers resource creation, `Map` and its failure, command lists, barriers, fences, waits, the GPU copies, and the top-level acceleration structure build.
- Values the driver supplies are parameters: heap start and handle increment, GPU virtual addresses, and the sizes that `GetRaytracingAccelerationStructurePrebuildInfo` reports.
- The initial contents of fresh upload memory are a parameter (`FreshMemory`), and a new constant-buffer map is zero-filled.
- Whether `write_with` returns `None` is not modelled. `upload_tex2d_sync` ignores that result anyway.
- Floating point:
  - `Vec2`, `Vec3`, `Vec4` and `Mat4` are opaque byte blobs.
  - The material defaults are written as IEEE-754 bytes.
  - The 1×1 texture's `/ 255.0` fold is a function parameter.
  - Transform composition in `import_node` is not modelled.
- `import`, `import_node` and `import_file` in the importer are left out: they are wrappers over the gltf crate and float math.
- `deserialize_in` decodes the same values as `deserialize`. Where its allocator places them is not modelled.
- bytemuck alignment checks in `cast_slice` and `pod_read_unaligned`, and alignment panics, are not modelled. The model only copies bytes and decodes little-endian integers.
- `SceneCodec.LenBytes`: a `Vec` byte length is reduced modulo 2^64. The codec lemmas assume well-formed scenes, where the length fits.
- `Tally.TallyMaterials`: the twelve counters are unbounded. A real `i32` counter would overflow beyond 2^31 meshes.
- `CStr::from_ptr` on a name field with no NUL reads past the field. The model scans on through the tag and type bytes of the packed entry, as the pointer does. It reports `InvalidName` only when those 112 bytes hold no NUL. For the asset types in use, the type field always holds a zero byte. Reads beyond the type field are not modelled.
- Three error paths end in a different error or none:
  - The `8 + size` overflow panic in `Vec::deserialize` is reported as `OutOfBounds`, like a short buffer.
  - The capacity-overflow panic of `Vec::with_capacity(count)` in `Scene::deserialize` is not modelled. The read then fails later with `OutOfBounds`.
  - `read_vector` with a count of 0 hands a zero-size layout to `alloc`, which is undefined behaviour. The model returns an empty vector.
- `Importer.TextureOn`: the `format` parameter of `texture` is dropped. Every caller passes `RGBA8`, and `RGBA8` is the only arm of its `match`.
- Allocation failure of `alloc(layout)` in `read_vector` is not modelled. A null result is undefined behaviour in the source.
- `Render.BuildBlas`, `Render.WriteInstanceDescs`, `D3D12.UploadPitch`: the `(x + 0xFF) & !0xFF` mask is replaced by the arithmetic identity `(x + 255) - (x + 255) % 256` (`Render.RoundUp256`). No bit-level lemma relates the mask to it.
- `D3D12.SlotSize`: `wanted.wrapping_neg() & 0xFF` is likewise written as `% 256`, with no bit-level proof.
- `Render.SampleCounter.Render`: `constants.samples`, the dispatch itself and `reset`'s caller are outside the model. Only the counter and the dispatch flag are kept.
- `D3D12.CreateDescriptorHeap`: `count as u32` in `NumDescriptors` truncates, so the driver heap may be smaller than `count`. That truncation is not modelled.
- Concurrency: `FixedBaseAllocator`'s `Cell` and the descriptor heap's `Cell` are modelled single-threaded.
