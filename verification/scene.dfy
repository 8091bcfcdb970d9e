/**
 * Publishing a render pass on the entity: each colour group becomes a mesh
 * under the colour's name and the outline becomes line segments under
 * `lines`. Meshes are kept opaque (the extrusions they are built from).
 */
module Scene {
  import opened Scales
  import opened Render

  /** What the entity shows under one name. */
  datatype Object3D = Mesh(extrusions: seq<Extrusion>) | Lines(vertices: seq<Vertex>)

  /** The entity's named objects. */
  type Slots = map<string, Object3D>

  const LinesSlot: string := "lines"

  /** The names colour meshes can take. */
  predicate IsPaletteName(k: string)
  {
    k in Palette
  }

  predicate PaletteGroups(acc: Accumulator)
  {
    forall c :: c in acc.groups ==> c in Palette
  }

  /** One mesh per colour group. */
  function Meshes(groups: map<Color, seq<Extrusion>>): (m: Slots)
    ensures m.Keys == groups.Keys
    ensures forall c :: c in groups ==> m[c] == Mesh(groups[c])
  {
    map c | c in groups :: Mesh(groups[c])
  }

  /**
   * The publishing loop as the component performs it: every group of this
   * pass is set under its colour and the outline under `lines`; names set by
   * an earlier pass and not set now keep their old object.
   */
  function PublishAsWritten(slots: Slots, acc: Accumulator): (r: Slots)
    requires PaletteGroups(acc)
    ensures forall c :: c in acc.groups ==> c in r && r[c] == Mesh(acc.groups[c])
    ensures LinesSlot in r && r[LinesSlot] == Lines(acc.outline)
    ensures forall k :: k in slots && k !in acc.groups && k != LinesSlot ==> k in r && r[k] == slots[k]
    ensures forall k :: k in r ==> k in slots || k in acc.groups || k == LinesSlot
  {
    assert !IsPaletteName(LinesSlot);
    (slots + Meshes(acc.groups))[LinesSlot := Lines(acc.outline)]
  }

  /**
   * A colour that had a group in the previous pass and has none in this one
   * keeps showing the previous pass's mesh, with the previous year's heights.
   */
  lemma StaleGroupSurvives(a: Extrusion, b: Extrusion, b': Extrusion)
    ensures var first := Accumulator(map[Palette[0] := [a], Palette[4] := [b]], []);
      var second := Accumulator(map[Palette[4] := [b']], []);
      && PaletteGroups(first) && PaletteGroups(second)
      && Palette[0] !in second.groups
      && Palette[0] in PublishAsWritten(PublishAsWritten(map[], first), second)
      && PublishAsWritten(PublishAsWritten(map[], first), second)[Palette[0]] == Mesh([a])
  {
    var first := Accumulator(map[Palette[0] := [a], Palette[4] := [b]], []);
    var second := Accumulator(map[Palette[4] := [b']], []);
    var s1 := PublishAsWritten(map[], first);
    assert Palette[0] in s1 && s1[Palette[0]] == Mesh([a]);
    assert Palette[0] != Palette[4] && Palette[0] != LinesSlot;
  }

  /**
   * Publishing with stale colours cleared: names outside the palette other
   * than `lines` are left alone, a palette colour is shown exactly when this
   * pass has a group for it, and `lines` holds this pass's outline.
   */
  function Publish(slots: Slots, acc: Accumulator): (r: Slots)
    requires PaletteGroups(acc)
    ensures forall c :: IsPaletteName(c) ==> (c in r <==> c in acc.groups)
    ensures forall c :: c in acc.groups ==> c in r && r[c] == Mesh(acc.groups[c])
    ensures LinesSlot in r && r[LinesSlot] == Lines(acc.outline)
    ensures forall k :: !IsPaletteName(k) && k != LinesSlot ==> (k in r <==> k in slots)
    ensures forall k :: !IsPaletteName(k) && k != LinesSlot && k in slots ==> r[k] == slots[k]
  {
    assert !IsPaletteName(LinesSlot);
    var kept := map k | k in slots && !IsPaletteName(k) :: slots[k];
    (kept + Meshes(acc.groups))[LinesSlot := Lines(acc.outline)]
  }

  /** What a pass shows does not depend on what earlier passes showed. */
  lemma LatestRenderWins(slots: Slots, earlier: Accumulator, latest: Accumulator)
    requires PaletteGroups(earlier) && PaletteGroups(latest)
    ensures Publish(Publish(slots, earlier), latest) == Publish(slots, latest)
  {
    var l := Publish(Publish(slots, earlier), latest);
    var r := Publish(slots, latest);
    assert l.Keys == r.Keys;
  }

  /** Starting from an entity with no colour meshes, both ways of publishing agree. */
  lemma PublishFromCleanAgrees(slots: Slots, acc: Accumulator)
    requires PaletteGroups(acc)
    requires forall k :: k in slots ==> !IsPaletteName(k)
    ensures PublishAsWritten(slots, acc) == Publish(slots, acc)
  {
    var l := PublishAsWritten(slots, acc);
    var r := Publish(slots, acc);
    assert l.Keys == r.Keys;
  }
}
