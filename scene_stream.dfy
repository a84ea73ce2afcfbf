/** The step-by-step form of the scene codec: `Scene::serialize_buf` appends
    the count and then each mesh and image in a `for` loop to the caller's
    buffer, and `Scene::deserialize` reads the count and then pushes one
    decoded element per iteration while the cursor moves forward. Both are
    proved against the pure encoder and decoder of SceneCodec. */
module SceneStream {
  import opened Wire
  import opened SceneCodec

  /** A `for x in xs.iter() { x.serialize_buf(buf) }` loop. */
  method AppendAll<T>(buf: seq<byte>, xs: seq<T>, enc: T -> seq<byte>) returns (out: seq<byte>)
    ensures out == buf + EncodeMany(xs, enc)
  {
    out := buf;
    for i := 0 to |xs|
      invariant out == buf + EncodeMany(xs[..i], enc)
    {
      EncodeManySnoc(xs, i, enc);
      Assoc(buf, EncodeMany(xs[..i], enc), enc(xs[i]));
      out := out + enc(xs[i]);
    }
    assert xs[..|xs|] == xs;
  }

  /** `Scene::serialize_buf`: whatever `buf` held stays in front, and what is
      appended is exactly the scene's encoding. */
  method SerializeScene(s: Scene, buf: seq<byte>) returns (out: seq<byte>)
    ensures out == buf + EncodeScene(s)
  {
    var head := buf + LenBytes(|s.meshes|);
    out := AppendAll(head, s.meshes, EncodeMesh);
    var mid := out + LenBytes(|s.images|);
    out := AppendAll(mid, s.images, EncodeImage);
    var tail := LenBytes(|s.images|) + EncodeImages(s.images);
    Assoc(head, EncodeMeshes(s.meshes), LenBytes(|s.images|));
    Assoc(head + EncodeMeshes(s.meshes), LenBytes(|s.images|), EncodeImages(s.images));
    Assoc(head, EncodeMeshes(s.meshes), tail);
    Assoc(buf, LenBytes(|s.meshes|), EncodeMeshes(s.meshes) + tail);
  }

  /** `Serialize::serialize`: the same, starting from an empty `Vec`; a
      well-formed scene decodes back from it with nothing left over. */
  method Serialize(s: Scene) returns (out: seq<byte>)
    requires ValidScene(s)
    ensures out == EncodeScene(s)
    ensures DecodeScene(out) == Ok((s, []))
  {
    out := SerializeScene(s, []);
    assert [] + EncodeScene(s) == EncodeScene(s);
    SceneRoundTripWhole(s);
  }

  /** A `for _ in 0..count { v.push(T::deserialize(buf)) }` loop: stops at the
      first element whose read panics. */
  method ReadAll<T>(count: nat, b: seq<byte>, dec: seq<byte> -> Result<(T, seq<byte>)>)
    returns (r: Result<(seq<T>, seq<byte>)>)
    ensures r == DecodeMany(count, b, dec)
  {
    var done: seq<T> := [];
    var view := b;
    PrependNothing(DecodeMany(count, b, dec));
    for i := 0 to count
      invariant DecodeMany(count, b, dec) == PrependAll(done, DecodeMany(count - i, view, dec))
    {
      DecodeManyStep(count - i, view, dec);
      var x := dec(view);
      if x.Err? {
        return Err(x.error);
      }
      PrependTwice(done, x.value.0, DecodeMany(count - i - 1, x.value.1, dec));
      done := done + [x.value.0];
      view := x.value.1;
    }
    assert done + [] == done;
    r := Ok((done, view));
  }

  /** `Scene::deserialize` (and `deserialize_in`, whose byte logic is the same):
      the scene read at the start of `b` and the cursor after it. */
  method DeserializeScene(b: seq<byte>) returns (r: Result<(Scene, seq<byte>)>)
    ensures r == DecodeScene(b)
  {
    var mc := ReadU64(b);
    if mc.Err? {
      return Err(mc.error);
    }
    var ms := ReadAll(mc.value.0, mc.value.1, DecodeMesh);
    if ms.Err? {
      return Err(ms.error);
    }
    var ic := ReadU64(ms.value.1);
    if ic.Err? {
      return Err(ic.error);
    }
    var imgs := ReadAll(ic.value.0, ic.value.1, DecodeImage);
    if imgs.Err? {
      return Err(imgs.error);
    }
    r := Ok((Scene(ms.value.0, imgs.value.0), imgs.value.1));
  }
}
