/** The texture side of the Bistro importer: every material names its base
    colour texture, from which the four texture paths of the material are
    derived; each path is looked up once, decoded images are appended to the
    scene's image list and referred to by index, 1×1 images become constant
    colours, and a cache keyed by the full path makes repeated lookups return
    the first answer. The file system, `Path::join` and the float folding of
    a 1×1 pixel are parameters. */
module Importer {
  import opened Wire
  import opened SceneCodec
  import Optional
  import Tally

  /** What opening and decoding a path that exists gives: an error, or the
      image converted to RGBA8. */
  datatype ImageFile = Corrupt | Decoded(width: u32, height: u32, rgba: seq<byte>)

  /** The texture files by full path; `path.exists()` is membership. */
  type Files = map<seq<byte>, ImageFile>

  /** `texture_directory.join(name)`. */
  type Join = seq<byte> -> seq<byte>

  /** The `Vec4` of a 1×1 image's only pixel, each channel divided by 255. */
  type Fold = ImageFile -> Vec4

  /** The fields `texture` reads and writes: `scene.images`, `textures_map`
      and `current_texture`. */
  datatype ImporterState = ImporterState(images: seq<Image>, cache: map<seq<byte>, MaterialParameter>, current: u32)

  /** What `texture` keeps true: `current_texture` counts the images, every
      cached parameter is one the tally can count, every cached texture index
      names an image, and no two paths share a texture index. */
  ghost predicate ValidState(st: ImporterState)
  {
    && st.current == |st.images|
    && (forall p :: p in st.cache ==> Tally.Countable(st.cache[p]))
    && (forall p :: p in st.cache && st.cache[p].Texture? ==> st.cache[p].index < |st.images|)
    && (forall p, q :: p in st.cache && q in st.cache && st.cache[p].Texture? && st.cache[p] == st.cache[q] ==> p == q)
  }

  const DASH: byte := 0x2D

  /** The file-name suffixes of the four textures of a material. */
  const BASE_COLOR_SUFFIX: seq<byte> := [0x42, 0x61, 0x73, 0x65, 0x43, 0x6F, 0x6C, 0x6F, 0x72, 0x2E, 0x70, 0x6E, 0x67] // "BaseColor.png"
  const NORMAL_SUFFIX: seq<byte> := [0x4E, 0x6F, 0x72, 0x6D, 0x61, 0x6C, 0x2E, 0x70, 0x6E, 0x67]                     // "Normal.png"
  const SPECULAR_SUFFIX: seq<byte> := [0x53, 0x70, 0x65, 0x63, 0x75, 0x6C, 0x61, 0x72, 0x2E, 0x70, 0x6E, 0x67]         // "Specular.png"
  const EMISSIVE_SUFFIX: seq<byte> := [0x45, 0x6D, 0x69, 0x73, 0x73, 0x69, 0x76, 0x65, 0x2E, 0x70, 0x6E, 0x67]         // "Emissive.png"

  /** How many bytes `material` drops from the end of the first segment. */
  const TRIM: nat := 9

  // ------------------------------------------------------------ texture

  /** One `texture` call on the full path `full`: the parameter it returns
      (or the panic it raises) and the fields after it. */
  function TextureOn(st: ImporterState, full: seq<byte>, files: Files, fold: Fold): (out: (Result<MaterialParameter>, ImporterState))
    ensures st.images <= out.1.images
    ensures out.0.Ok? && full in files ==> full in out.1.cache && out.1.cache[full] == out.0.value
    ensures out.0.Ok? ==> forall p :: p in st.cache ==> p in out.1.cache && out.1.cache[p] == st.cache[p]
  {
    if full !in files then (Ok(None), st)
    else if full in st.cache then (Ok(st.cache[full]), st)
    else
      match files[full]
      case Corrupt => (Err(ImageDecodeFailed), st)
      case Decoded(w, h, data) =>
        if w == 1 && h == 1 then
          var p := Vec4(fold(files[full]));
          (Ok(p), st.(cache := st.cache[full := p]))
        else
          var images := st.images + [Image(w, h, RGBA8, data)];
          if st.current + 1 >= U32_LIMIT then (Err(Overflow), st.(images := images))
          else
            var p := Texture(st.current);
            (Ok(p), ImporterState(images, st.cache[full := p], st.current + 1))
  }

  /** The outcomes of `texture` as lines 278-323 describe them: a missing
      file gives `None` and changes nothing; a cached path gives the cached
      parameter and changes nothing; a new 1×1 image gives its colour and
      only caches it; any other new image is appended, returned as the next
      texture index, and cached. */
  lemma TextureOutcomes(st: ImporterState, full: seq<byte>, files: Files, fold: Fold)
    ensures full !in files ==> TextureOn(st, full, files, fold) == (Ok(None), st)
    ensures full in files && full in st.cache ==> TextureOn(st, full, files, fold) == (Ok(st.cache[full]), st)
    ensures full in files && full !in st.cache && files[full].Corrupt? ==>
      TextureOn(st, full, files, fold).0 == Err(ImageDecodeFailed)
    ensures full in files && full !in st.cache && files[full].Decoded? && files[full].width == 1 && files[full].height == 1 ==>
      var (r, st') := TextureOn(st, full, files, fold);
      r.Ok? && r.value.Vec4? && st'.images == st.images && st'.current == st.current && st'.cache == st.cache[full := r.value]
    ensures full in files && full !in st.cache && files[full].Decoded? && !(files[full].width == 1 && files[full].height == 1)
            && st.current + 1 < U32_LIMIT ==>
      var img := files[full];
      var (r, st') := TextureOn(st, full, files, fold);
      && r == Ok(Texture(st.current))
      && st'.images == st.images + [Image(img.width, img.height, RGBA8, img.rgba)]
      && st'.current == st.current + 1 && st'.cache == st.cache[full := r.value]
  {
  }

  /** `texture` keeps the importer's invariant, and what it returns is a
      countable parameter whose texture index names an image. */
  lemma TextureKeepsValid(st: ImporterState, full: seq<byte>, files: Files, fold: Fold)
    requires ValidState(st)
    ensures var (r, st') := TextureOn(st, full, files, fold);
      r.Ok? ==> ValidState(st') && Tally.Countable(r.value) && (r.value.Texture? ==> r.value.index < |st'.images|)
    ensures var (r, st') := TextureOn(st, full, files, fold);
      r.Ok? ==> st.images <= st'.images && (forall p :: p in st.cache ==> p in st'.cache && st'.cache[p] == st.cache[p])
  {
    var (r, st') := TextureOn(st, full, files, fold);
    if r.Ok? && full in files && full !in st.cache && r.value.Texture? {
      assert st'.cache == st.cache[full := r.value] && r.value.index == |st.images|;
    }
  }

  /** Looking the same path up twice gives the same answer the second time
      and changes nothing more. */
  lemma TextureIdempotent(st: ImporterState, full: seq<byte>, files: Files, fold: Fold)
    requires TextureOn(st, full, files, fold).0.Ok?
    ensures var (r, st') := TextureOn(st, full, files, fold);
      TextureOn(st', full, files, fold) == (r, st')
  {
    var (r, st') := TextureOn(st, full, files, fold);
    if full in files && full !in st.cache {
      assert full in st'.cache && st'.cache[full] == r.value;
    }
  }

  // ----------------------------------------------------------- material

  /** The bytes of `s` before its first `-` (all of `s` when it has none). */
  function FirstSegment(s: seq<byte>): (r: seq<byte>)
    ensures r <= s && (forall i :: 0 <= i < |r| ==> r[i] != DASH) && (|r| == |s| || s[|r|] == DASH)
  {
    if |s| == 0 || s[0] == DASH then [] else [s[0]] + FirstSegment(s[1..])
  }

  /** Lines 254-258: the texture source name, cut at its first `-` and with
      the last nine bytes of that segment dropped. `unwrap` of a missing name
      panics, so does a segment shorter than nine bytes (the subtraction
      underflows) and a cut inside a multi-byte UTF-8 character. */
  function BaseName(texName: Optional.Option<seq<byte>>): (r: Result<seq<byte>>)
    ensures texName.None? ==> r == Err(MissingValue)
    ensures r.Ok? ==> texName.Some? && |r.value| + TRIM <= |texName.value|
    ensures r.Ok? ==> var s := texName.value; var k := |r.value| + TRIM;
      && r.value == s[..|r.value|]
      && (forall i :: 0 <= i < k ==> s[i] != DASH)
      && (k == |s| || s[k] == DASH)
      && !IsCont(s[|r.value|])
    ensures texName.Some? && |FirstSegment(texName.value)| < TRIM ==> r == Err(Overflow)
  {
    if texName.None? then Err(MissingValue)
    else
      var first := FirstSegment(texName.value);
      if |first| < TRIM then Err(Overflow)
      else
        var k := |first| - TRIM;
        if IsCont(first[k]) then Err(InvalidName) else Ok(first[..k])
  }

  /** One `material` call: the base name, then the four textures in the order
      base colour, normal, specular, emissive, each seeing the fields the
      previous one left. */
  function MaterialOn(st: ImporterState, join: Join, texName: Optional.Option<seq<byte>>, files: Files, fold: Fold)
    : (out: (Result<Material>, ImporterState))
    ensures st.images <= out.1.images
    ensures out.0.Ok? ==> BaseName(texName).Ok? && forall p :: p in st.cache ==> p in out.1.cache && out.1.cache[p] == st.cache[p]
    ensures out.0.Ok? ==> var n := BaseName(texName).value;
      && (join(n + BASE_COLOR_SUFFIX) in files ==>
            join(n + BASE_COLOR_SUFFIX) in out.1.cache && out.1.cache[join(n + BASE_COLOR_SUFFIX)] == out.0.value.baseColor)
      && (join(n + NORMAL_SUFFIX) in files ==>
            join(n + NORMAL_SUFFIX) in out.1.cache && out.1.cache[join(n + NORMAL_SUFFIX)] == out.0.value.normal)
      && (join(n + SPECULAR_SUFFIX) in files ==>
            join(n + SPECULAR_SUFFIX) in out.1.cache && out.1.cache[join(n + SPECULAR_SUFFIX)] == out.0.value.specular)
      && (join(n + EMISSIVE_SUFFIX) in files ==>
            join(n + EMISSIVE_SUFFIX) in out.1.cache && out.1.cache[join(n + EMISSIVE_SUFFIX)] == out.0.value.emissive)
  {
    var base := BaseName(texName);
    if base.Err? then (Err(base.error), st)
    else
      var n := base.value;
      var (b, s1) := TextureOn(st, join(n + BASE_COLOR_SUFFIX), files, fold);
      if b.Err? then (Err(b.error), s1)
      else
        var (nm, s2) := TextureOn(s1, join(n + NORMAL_SUFFIX), files, fold);
        if nm.Err? then (Err(nm.error), s2)
        else
          var (sp, s3) := TextureOn(s2, join(n + SPECULAR_SUFFIX), files, fold);
          if sp.Err? then (Err(sp.error), s3)
          else
            var (em, s4) := TextureOn(s3, join(n + EMISSIVE_SUFFIX), files, fold);
            if em.Err? then (Err(em.error), s4)
            else (Ok(Material(b.value, nm.value, sp.value, em.value)), s4)
  }

  /** Every texture index a material refers to names an image. */
  ghost predicate IndicesIn(m: Material, images: seq<Image>)
  {
    && (m.baseColor.Texture? ==> m.baseColor.index < |images|)
    && (m.normal.Texture? ==> m.normal.index < |images|)
    && (m.specular.Texture? ==> m.specular.index < |images|)
    && (m.emissive.Texture? ==> m.emissive.index < |images|)
  }

  /** A material built by the importer only holds `None`, `Texture` or `Vec4`
      (so the tally never reaches `unreachable!()`), its texture indices name
      images pushed so far, and the invariant still holds. */
  lemma MaterialKeepsValid(st: ImporterState, join: Join, texName: Optional.Option<seq<byte>>, files: Files, fold: Fold)
    requires ValidState(st)
    ensures var (r, st') := MaterialOn(st, join, texName, files, fold);
      r.Ok? ==> ValidState(st') && Tally.CountableMaterial(r.value) && IndicesIn(r.value, st'.images)
  {
    var base := BaseName(texName);
    if base.Ok? {
      var n := base.value;
      var (b, s1) := TextureOn(st, join(n + BASE_COLOR_SUFFIX), files, fold);
      TextureKeepsValid(st, join(n + BASE_COLOR_SUFFIX), files, fold);
      if b.Ok? {
        var (nm, s2) := TextureOn(s1, join(n + NORMAL_SUFFIX), files, fold);
        TextureKeepsValid(s1, join(n + NORMAL_SUFFIX), files, fold);
        if nm.Ok? {
          var (sp, s3) := TextureOn(s2, join(n + SPECULAR_SUFFIX), files, fold);
          TextureKeepsValid(s2, join(n + SPECULAR_SUFFIX), files, fold);
          if sp.Ok? {
            TextureKeepsValid(s3, join(n + EMISSIVE_SUFFIX), files, fold);
          }
        }
      }
    }
  }

  // --------------------------------------------------------- importer

  class BistroImporter {
    var images: seq<Image>
    var texturesMap: map<seq<byte>, MaterialParameter>
    var currentTexture: u32
    /** `texture_directory.join`, fixed at construction. */
    const join: Join

    function State(): ImporterState
      reads this
    {
      ImporterState(images, texturesMap, currentTexture)
    }

    ghost predicate Valid()
      reads this
    {
      ValidState(State())
    }

    /** The importer as `import` creates it: no images, an empty cache and
        texture index 0. */
    constructor (join: Join)
      ensures Valid() && images == [] && texturesMap == map[] && currentTexture == 0 && this.join == join
    {
      images, texturesMap, currentTexture := [], map[], 0;
      this.join := join;
    }

    /** `BistroImporter::texture`. */
    method Texture(path: seq<byte>, files: Files, fold: Fold) returns (r: Result<MaterialParameter>)
      requires Valid()
      modifies this
      ensures r == TextureOn(old(State()), join(path), files, fold).0
      ensures r.Ok? ==> State() == TextureOn(old(State()), join(path), files, fold).1 && Valid()
    {
      ghost var st := State();
      TextureKeepsValid(st, join(path), files, fold);
      var full := join(path);
      if full !in files {
        return Ok(MaterialParameter.None);
      }
      if full in texturesMap {
        return Ok(texturesMap[full]);
      }
      var img := files[full];
      if img.Corrupt? {
        return Err(ImageDecodeFailed);
      }
      var param;
      if img.width == 1 && img.height == 1 {
        param := MaterialParameter.Vec4(fold(img));
      } else {
        images := images + [Image(img.width, img.height, RGBA8, img.rgba)];
        param := MaterialParameter.Texture(currentTexture);
        if currentTexture + 1 >= U32_LIMIT {
          return Err(Overflow);
        }
        currentTexture := currentTexture + 1;
      }
      texturesMap := texturesMap[full := param];
      r := Ok(param);
    }

    /** `BistroImporter::material`. */
    method Material(texName: Optional.Option<seq<byte>>, files: Files, fold: Fold) returns (r: Result<Material>)
      requires Valid()
      modifies this
      ensures r == MaterialOn(old(State()), join, texName, files, fold).0
      ensures r.Ok? ==> State() == MaterialOn(old(State()), join, texName, files, fold).1 && Valid()
    {
      ghost var st := State();
      MaterialKeepsValid(st, join, texName, files, fold);
      var base := BaseName(texName);
      if base.Err? {
        return Err(base.error);
      }
      var n := base.value;
      var b := Texture(n + BASE_COLOR_SUFFIX, files, fold);
      if b.Err? {
        return Err(b.error);
      }
      var nm := Texture(n + NORMAL_SUFFIX, files, fold);
      if nm.Err? {
        return Err(nm.error);
      }
      var sp := Texture(n + SPECULAR_SUFFIX, files, fold);
      if sp.Err? {
        return Err(sp.error);
      }
      var em := Texture(n + EMISSIVE_SUFFIX, files, fold);
      if em.Err? {
        return Err(em.error);
      }
      r := Ok(SceneCodec.Material(b.value, nm.value, sp.value, em.value));
    }
  }
}
