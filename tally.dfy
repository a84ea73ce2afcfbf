/** The material-variant tally of the asset tool: after importing a scene it
    walks every mesh and, for each of the four material slots, counts how many
    meshes leave the slot empty, give it a constant colour or point it at a
    texture. The importer only produces those three variants; a `Vec2` or
    `Vec3` in a slot hits `unreachable!()`. */
module Tally {
  import opened Wire
  import opened SceneCodec

  /** The four material slots, in the order the loop visits them. */
  datatype Slot = BaseColor | Specular | Normal | Emissive

  /** The three variants the tally knows how to count. */
  datatype Kind = NoneKind | ConstKind | TextKind

  /** One slot's counters: `*_none`, `*_const`, `*_text`. */
  datatype Counts = Counts(none: nat, konst: nat, text: nat)

  /** All twelve counters. */
  datatype Totals = Totals(base: Counts, spec: Counts, norm: Counts, emis: Counts)

  function SlotOf(m: Material, s: Slot): MaterialParameter
  {
    match s
    case BaseColor => m.baseColor
    case Specular => m.specular
    case Normal => m.normal
    case Emissive => m.emissive
  }

  /** Which counter a parameter bumps, or the `unreachable!()` it hits. */
  function KindOf(p: MaterialParameter): (r: Result<Kind>)
    ensures r.Ok? <==> (p.None? || p.Texture? || p.Vec4?)
    ensures r.Err? ==> r.error == Unreachable
    ensures r == Ok(NoneKind) <==> p.None?
    ensures r == Ok(TextKind) <==> p.Texture?
    ensures r == Ok(ConstKind) <==> p.Vec4?
  {
    match p
    case None => Ok(NoneKind)
    case Texture(_) => Ok(TextKind)
    case Vec4(_) => Ok(ConstKind)
    case _ => Err(Unreachable)
  }

  predicate Countable(p: MaterialParameter)
  {
    KindOf(p).Ok?
  }

  /** Every slot of the material is one the tally can count. */
  predicate CountableMaterial(m: Material)
  {
    Countable(m.baseColor) && Countable(m.specular) && Countable(m.normal) && Countable(m.emissive)
  }

  /** The parameters the meshes put in slot `s`, in mesh order. */
  function SlotParams(ms: seq<Mesh>, s: Slot): (ps: seq<MaterialParameter>)
    ensures |ps| == |ms|
    ensures forall i :: 0 <= i < |ms| ==> ps[i] == SlotOf(ms[i].material, s)
  {
    seq(|ms|, i requires 0 <= i < |ms| => SlotOf(ms[i].material, s))
  }

  /** How many of `ps` are of kind `k`. */
  function Occurrences(ps: seq<MaterialParameter>, k: Kind): nat
  {
    if |ps| == 0 then 0
    else Occurrences(ps[..|ps| - 1], k) + (if KindOf(ps[|ps| - 1]) == Ok(k) then 1 else 0)
  }

  /** What the counters of one slot should read after the loop. */
  function SlotCounts(ps: seq<MaterialParameter>): Counts
  {
    Counts(Occurrences(ps, NoneKind), Occurrences(ps, ConstKind), Occurrences(ps, TextKind))
  }

  /** What all twelve counters should read after the loop. */
  function ExpectedTotals(ms: seq<Mesh>): Totals
  {
    Totals(SlotCounts(SlotParams(ms, BaseColor)), SlotCounts(SlotParams(ms, Specular)),
           SlotCounts(SlotParams(ms, Normal)), SlotCounts(SlotParams(ms, Emissive)))
  }

  /** One `match` of the loop body: the counter of `p`'s kind goes up by one. */
  function Bump(c: Counts, p: MaterialParameter): Result<Counts>
  {
    match p
    case None => Ok(c.(none := c.none + 1))
    case Texture(_) => Ok(c.(text := c.text + 1))
    case Vec4(_) => Ok(c.(konst := c.konst + 1))
    case _ => Err(Unreachable)
  }

  /** Bumping the counts of a prefix by the next parameter gives the counts
      of the longer prefix; a parameter the tally cannot count fails. */
  lemma BumpSnoc(ps: seq<MaterialParameter>, p: MaterialParameter)
    ensures Bump(SlotCounts(ps), p) == if Countable(p) then Ok(SlotCounts(ps + [p])) else Err(Unreachable)
  {
    assert (ps + [p])[..|ps|] == ps;
  }

  /** One slot's step of the loop: bumping the counts of the first `i`
      meshes by mesh `i` gives the counts of the first `i + 1`. */
  lemma SlotStep(ms: seq<Mesh>, i: nat, s: Slot, c: Counts)
    requires i < |ms| && c == SlotCounts(SlotParams(ms[..i], s))
    ensures Bump(c, SlotOf(ms[i].material, s)) ==
      if Countable(SlotOf(ms[i].material, s)) then Ok(SlotCounts(SlotParams(ms[..i + 1], s))) else Err(Unreachable)
  {
    assert SlotParams(ms[..i + 1], s) == SlotParams(ms[..i], s) + [SlotOf(ms[i].material, s)];
    BumpSnoc(SlotParams(ms[..i], s), SlotOf(ms[i].material, s));
  }

  /** The loop of lines 50-83: fails with `unreachable!()` exactly when some
      mesh has a `Vec2` or `Vec3` in a slot, and otherwise leaves every
      counter at the number of meshes whose slot has that kind. */
  method TallyMaterials(meshes: seq<Mesh>) returns (r: Result<Totals>)
    ensures r.Ok? <==> forall i :: 0 <= i < |meshes| ==> CountableMaterial(meshes[i].material)
    ensures r.Err? ==> r.error == Unreachable
    ensures r.Ok? ==> r.value == ExpectedTotals(meshes)
  {
    var base, spec, norm, emis := Counts(0, 0, 0), Counts(0, 0, 0), Counts(0, 0, 0), Counts(0, 0, 0);
    for i := 0 to |meshes|
      invariant forall j :: 0 <= j < i ==> CountableMaterial(meshes[j].material)
      invariant base == SlotCounts(SlotParams(meshes[..i], BaseColor))
      invariant spec == SlotCounts(SlotParams(meshes[..i], Specular))
      invariant norm == SlotCounts(SlotParams(meshes[..i], Normal))
      invariant emis == SlotCounts(SlotParams(meshes[..i], Emissive))
    {
      var m := meshes[i].material;
      SlotStep(meshes, i, BaseColor, base);
      SlotStep(meshes, i, Specular, spec);
      SlotStep(meshes, i, Normal, norm);
      SlotStep(meshes, i, Emissive, emis);
      var b := Bump(base, m.baseColor);
      if b.Err? {
        return Err(b.error);
      }
      var sp := Bump(spec, m.specular);
      if sp.Err? {
        return Err(sp.error);
      }
      var n := Bump(norm, m.normal);
      if n.Err? {
        return Err(n.error);
      }
      var e := Bump(emis, m.emissive);
      if e.Err? {
        return Err(e.error);
      }
      base, spec, norm, emis := b.value, sp.value, n.value, e.value;
    }
    assert meshes[..|meshes|] == meshes;
    r := Ok(Totals(base, spec, norm, emis));
  }

  /** When every parameter is countable, the three counters of a slot add up
      to the number of parameters. */
  lemma {:induction false} CountsCover(ps: seq<MaterialParameter>)
    requires forall i :: 0 <= i < |ps| ==> Countable(ps[i])
    ensures var c := SlotCounts(ps); c.none + c.konst + c.text == |ps|
  {
    if |ps| != 0 {
      var init := ps[..|ps| - 1];
      assert forall i :: 0 <= i < |init| ==> init[i] == ps[i];
      CountsCover(init);
    }
  }

  /** After a successful tally, each slot's none, const and text counts sum
      to the number of meshes. */
  lemma TallySums(meshes: seq<Mesh>)
    requires forall i :: 0 <= i < |meshes| ==> CountableMaterial(meshes[i].material)
    ensures var t := ExpectedTotals(meshes);
      && t.base.none + t.base.konst + t.base.text == |meshes|
      && t.spec.none + t.spec.konst + t.spec.text == |meshes|
      && t.norm.none + t.norm.konst + t.norm.text == |meshes|
      && t.emis.none + t.emis.konst + t.emis.text == |meshes|
  {
    CountsCover(SlotParams(meshes, BaseColor));
    CountsCover(SlotParams(meshes, Specular));
    CountsCover(SlotParams(meshes, Normal));
    CountsCover(SlotParams(meshes, Emissive));
  }
}
