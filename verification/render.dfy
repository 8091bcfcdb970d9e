/**
 * The per-feature loop of `render`: every geographic feature is joined to
 * its population record, coloured by the year's change, given an extrusion
 * height from the year's estimate, checked for degenerate shapes, and then
 * contributes its outline vertices and its extruded geometry, merged into the
 * group of its colour. The geometry of a feature is a token naming it, its
 * shapes and its depth, and merging is concatenation.
 */
module Render {
  import opened Wrappers
  import opened Records
  import opened Extents
  import opened Scales

  datatype Point = Point(x: real, y: real)
  datatype Vertex = Vertex(x: real, y: real, z: real)

  /** The points of one 2D shape, as `getPoints()` returns them. */
  type Shape = seq<Point>

  /**
   * A geographic feature as the projection component presents it: its id,
   * the shapes `toShapes` converts it to, and the outline `toVertices` lifts.
   */
  datatype Feature = Feature(id: string, shapes: seq<Shape>, outline: seq<Point>)

  /**
   * The extruded geometry of one feature, kept abstract: whose it is, the
   * shapes it is built from, and how deep it is.
   */
  datatype Extrusion = Extrusion(featureId: string, shapes: seq<Shape>, depth: real)

  /** `extrudeGeometries` (colour -> merged geometry) and `outlineVertices`. */
  datatype Accumulator = Accumulator(groups: map<Color, seq<Extrusion>>, outline: seq<Vertex>)

  /** Indexing the population data with an unknown feature id throws. */
  datatype RenderError = MissingRecord(id: string)

  /** What one render pass reads: the index, the population extent, the year and the height limit. */
  datatype Context = Context(
    index: map<string, PopRecord>,
    popExtent: Option<Interval>,
    year: Year,
    maxExtrudeHeight: real)

  /**
   * The state the loader leaves behind: indexed records are well-formed, and
   * there is a population extent as soon as there is any record.
   */
  predicate ValidContext(ctx: Context)
  {
    forall id :: id in ctx.index ==> WellFormed(ctx.index[id]) && ctx.popExtent.Some?
  }

  /** The colour of a joined feature: the classifier applied to the year's change. */
  function FeatureColor(ctx: Context, f: Feature): (c: Color)
    requires ValidContext(ctx) && f.id in ctx.index
    ensures c in Palette
  {
    ColorOf(ctx.index[f.id].popChange[ctx.year])
  }

  /** The extrusion height of a joined feature: the linear scale applied to the year's estimate. */
  function FeatureHeight(ctx: Context, f: Feature): (h: real)
    requires ValidContext(ctx) && f.id in ctx.index
    ensures (ctx.popExtent.value.lo <= ctx.index[f.id].popEstimate[ctx.year] as real <= ctx.popExtent.value.hi
      && 0.0 <= ctx.maxExtrudeHeight) ==> 0.0 <= h <= ctx.maxExtrudeHeight
  {
    ExtrudeHeight(ctx.popExtent.value, ctx.maxExtrudeHeight, ctx.index[f.id].popEstimate[ctx.year] as real)
  }

  /** The number of distinct points of a shape. */
  function DistinctPoints(s: Shape): nat
  {
    |set i | 0 <= i < |s| :: s[i]|
  }

  /** The `find` guard: some shape has at most three points. */
  predicate HasSmallShape(shapes: seq<Shape>)
  {
    exists i :: 0 <= i < |shapes| && |shapes[i]| <= 3
  }

  /** The `map` step: each shape replaced by its distinct-point count. */
  function DistinctCounts(shapes: seq<Shape>): (counts: seq<nat>)
    ensures |counts| == |shapes|
    ensures forall i :: 0 <= i < |shapes| ==> counts[i] == DistinctPoints(shapes[i])
  {
    seq(|shapes|, i requires 0 <= i < |shapes| => DistinctPoints(shapes[i]))
  }

  /** The `filter` step: the counts of at least three, in order. */
  function KeepAtLeastThree(counts: seq<nat>): (kept: seq<nat>)
    ensures forall k :: 0 <= k < |kept| ==> kept[k] >= 3
    ensures forall v :: v >= 3 ==> multiset(kept)[v] == multiset(counts)[v]
    ensures |kept| == 0 <==> forall i :: 0 <= i < |counts| ==> counts[i] < 3
    decreases |counts|
  {
    if |counts| == 0 then []
    else
      var rest := KeepAtLeastThree(counts[1..]);
      SplitFirst(counts);
      if counts[0] >= 3 then [counts[0]] + rest else rest
  }

  /** A non-empty list is its first element followed by the rest. */
  lemma SplitFirst<T>(xs: seq<T>)
    requires |xs| > 0
    ensures forall i :: 1 <= i < |xs| ==> xs[1..][i - 1] == xs[i]
    ensures multiset(xs) == multiset{xs[0]} + multiset(xs[1..])
  {
    assert xs == [xs[0]] + xs[1..];
  }

  /**
   * The early return: when some shape is small, the shapes are replaced by
   * their distinct-point counts of at least three, and an empty list skips
   * the feature.
   */
  predicate Skipped(shapes: seq<Shape>)
  {
    HasSmallShape(shapes) && |KeepAtLeastThree(DistinctCounts(shapes))| == 0
  }

  /**
   * A feature is skipped exactly when some shape has at most three points
   * and no shape has three distinct points.
   */
  lemma SkipRule(shapes: seq<Shape>)
    ensures Skipped(shapes) <==>
      HasSmallShape(shapes) && forall i :: 0 <= i < |shapes| ==> DistinctPoints(shapes[i]) < 3
  {
    var counts := DistinctCounts(shapes);
    assert (forall i :: 0 <= i < |counts| ==> counts[i] < 3)
       <==> (forall i :: 0 <= i < |shapes| ==> DistinctPoints(shapes[i]) < 3);
  }

  /** The shapes with at least three distinct points, in order. */
  function KeepTriangulable(shapes: seq<Shape>): (kept: seq<Shape>)
    ensures forall k :: 0 <= k < |kept| ==> kept[k] in shapes && DistinctPoints(kept[k]) >= 3
    ensures forall i :: 0 <= i < |shapes| && DistinctPoints(shapes[i]) >= 3 ==> shapes[i] in kept
    ensures |kept| == 0 <==> forall i :: 0 <= i < |shapes| ==> DistinctPoints(shapes[i]) < 3
    decreases |shapes|
  {
    if |shapes| == 0 then []
    else
      var rest := KeepTriangulable(shapes[1..]);
      SplitFirst(shapes);
      if DistinctPoints(shapes[0]) >= 3 then [shapes[0]] + rest else rest
  }

  /** The filter keeps each triangulable shape as often as it occurs: nothing is dropped or doubled. */
  lemma {:induction false} KeepTriangulableMultiplicity(shapes: seq<Shape>)
    ensures forall s :: DistinctPoints(s) >= 3 ==> multiset(KeepTriangulable(shapes))[s] == multiset(shapes)[s]
    decreases |shapes|
  {
    if |shapes| > 0 {
      KeepTriangulableMultiplicity(shapes[1..]);
      SplitFirst(shapes);
      KeepTriangulableCounts(shapes[0], shapes[1..], KeepTriangulable(shapes[1..]));
    }
  }

  /** One filter step keeps every triangulable shape's multiplicity. */
  lemma KeepTriangulableCounts(x: Shape, tail: seq<Shape>, rest: seq<Shape>)
    requires forall s :: DistinctPoints(s) >= 3 ==> multiset(rest)[s] == multiset(tail)[s]
    ensures forall s :: DistinctPoints(s) >= 3 ==>
      multiset(if DistinctPoints(x) >= 3 then [x] + rest else rest)[s] == (multiset{x} + multiset(tail))[s]
  {
    forall s | DistinctPoints(s) >= 3
      ensures multiset(if DistinctPoints(x) >= 3 then [x] + rest else rest)[s] == (multiset{x} + multiset(tail))[s]
    {
      if DistinctPoints(x) >= 3 {
        assert multiset([x] + rest) == multiset{x} + multiset(rest);
      } else {
        assert x != s;
      }
    }
  }

  /**
   * The shapes handed to the extrusion (as intended): when some shape is
   * small, only the shapes with at least three distinct points; otherwise
   * all of them. A kept feature always has a shape to extrude.
   */
  function ExtrudedShapes(shapes: seq<Shape>): (r: seq<Shape>)
    ensures forall k :: 0 <= k < |r| ==> r[k] in shapes
    ensures forall i :: 0 <= i < |shapes| && DistinctPoints(shapes[i]) >= 3 ==> shapes[i] in r
    ensures HasSmallShape(shapes) ==> forall k :: 0 <= k < |r| ==> DistinctPoints(r[k]) >= 3
    ensures HasSmallShape(shapes) ==> forall s :: DistinctPoints(s) >= 3 ==> multiset(r)[s] == multiset(shapes)[s]
    ensures !HasSmallShape(shapes) ==> r == shapes
    ensures |r| == 0 <==> Skipped(shapes) || |shapes| == 0
  {
    SkipRule(shapes);
    KeepTriangulableMultiplicity(shapes);
    if HasSmallShape(shapes) then KeepTriangulable(shapes) else shapes
  }

  /** What the source hands to the extrusion: a list of shapes, or a list of numbers. */
  datatype ExtrudeArgument = ShapeList(shapes: seq<Shape>) | CountList(counts: seq<nat>)

  /**
   * The extrusion argument as written: once some shape is small, the
   * variable holding the shapes holds their distinct-point counts instead,
   * and those counts are what reaches the extrusion.
   */
  function ExtrudeArgumentAsWritten(shapes: seq<Shape>): (a: ExtrudeArgument)
    ensures a.CountList? <==> HasSmallShape(shapes)
    ensures a.CountList? ==> forall k :: 0 <= k < |a.counts| ==> a.counts[k] >= 3
    ensures a.CountList? ==> a.counts == DistinctCounts(ExtrudedShapes(shapes))
    ensures a.ShapeList? ==> a.shapes == shapes
  {
    CountsOfKept(shapes);
    if HasSmallShape(shapes) then CountList(KeepAtLeastThree(DistinctCounts(shapes))) else ShapeList(shapes)
  }

  /**
   * Counting then filtering the counts gives the counts of the filtered
   * shapes: the numbers that reach the extrusion stand one for one, in
   * order, for the shapes that were meant to.
   */
  lemma {:induction false} CountsOfKept(shapes: seq<Shape>)
    ensures DistinctCounts(KeepTriangulable(shapes)) == KeepAtLeastThree(DistinctCounts(shapes))
    decreases |shapes|
  {
    if |shapes| > 0 {
      DistinctCountsTail(shapes);
      CountsOfKept(shapes[1..]);
      if DistinctPoints(shapes[0]) >= 3 {
        DistinctCountsCons(shapes[0], KeepTriangulable(shapes[1..]));
      }
    }
  }

  lemma DistinctCountsTail(shapes: seq<Shape>)
    requires |shapes| > 0
    ensures DistinctCounts(shapes)[0] == DistinctPoints(shapes[0])
    ensures DistinctCounts(shapes)[1..] == DistinctCounts(shapes[1..])
  {
    assert forall i :: 1 <= i < |shapes| ==> shapes[1..][i - 1] == shapes[i];
  }

  lemma DistinctCountsCons(x: Shape, rest: seq<Shape>)
    ensures DistinctCounts([x] + rest) == [DistinctPoints(x)] + DistinctCounts(rest)
  {
    assert forall i :: 1 <= i < |[x] + rest| ==> ([x] + rest)[i] == rest[i - 1];
  }

  /**
   * A feature with a sliver `[p, q, p]` and a closed triangle `[p, q, r, p]`
   * is kept, yet the extrusion receives the number 3 instead of the triangle.
   */
  lemma CountsReachExtrusion(p: Point, q: Point, r: Point)
    requires p != q && q != r && p != r
    ensures !Skipped([[p, q, p], [p, q, r, p]])
    ensures ExtrudeArgumentAsWritten([[p, q, p], [p, q, r, p]]) == CountList([3])
    ensures ExtrudedShapes([[p, q, p], [p, q, r, p]]) == [[p, q, r, p]]
  {
    var sliver, tri := [p, q, p], [p, q, r, p];
    var shapes := [sliver, tri];
    assert shapes[0] == sliver && shapes[1] == tri;
    SliverPoints(p, q);
    TrianglePoints(p, q, r);
    assert HasSmallShape(shapes) by {
      assert |shapes[0]| <= 3;
    }
    var counts := DistinctCounts(shapes);
    assert counts == [2, 3];
    assert counts[1..] == [3] && counts[1..][1..] == [];
    assert KeepAtLeastThree(counts) == [3];
    assert shapes[1..] == [tri] && [tri][1..] == [];
    assert KeepTriangulable([tri]) == [tri] + KeepTriangulable([]);
    assert KeepTriangulable(shapes) == KeepTriangulable([tri]);
  }

  lemma SliverPoints(p: Point, q: Point)
    requires p != q
    ensures DistinctPoints([p, q, p]) == 2
  {
    var s := [p, q, p];
    assert (set i | 0 <= i < |s| :: s[i]) == {p, q} by {
      assert s[0] == p && s[1] == q;
    }
  }

  lemma TrianglePoints(p: Point, q: Point, r: Point)
    requires p != q && q != r && p != r
    ensures DistinctPoints([p, q, r, p]) == 3
  {
    var s := [p, q, r, p];
    assert (set i | 0 <= i < |s| :: s[i]) == {p, q, r} by {
      assert s[0] == p && s[1] == q && s[2] == r;
    }
  }

  /** `toVertices(height)`: the outline lifted to the extrusion height. */
  function Lift(outline: seq<Point>, h: real): (vs: seq<Vertex>)
    ensures |vs| == |outline|
    ensures forall i :: 0 <= i < |outline| ==> vs[i] == Vertex(outline[i].x, outline[i].y, h)
  {
    seq(|outline|, i requires 0 <= i < |outline| => Vertex(outline[i].x, outline[i].y, h))
  }

  /** Merging into the group for `c`: appended if the colour has a group, a new group otherwise. */
  function MergeInto(groups: map<Color, seq<Extrusion>>, c: Color, g: Extrusion): (r: map<Color, seq<Extrusion>>)
    ensures r.Keys == groups.Keys + {c}
    ensures r[c] == (if c in groups then groups[c] else []) + [g]
    ensures forall d :: d in groups && d != c ==> r[d] == groups[d]
  {
    if c in groups then groups[c := groups[c] + [g]] else groups[c := [g]]
  }

  /**
   * One iteration of the loop for a joined feature. A skipped feature leaves
   * the accumulator as it was; a kept one appends its lifted outline and adds
   * its extrusion at the end of its colour's group, leaving the other groups
   * alone.
   */
  function Contribute(ctx: Context, acc: Accumulator, f: Feature): (r: Accumulator)
    requires ValidContext(ctx) && f.id in ctx.index
    ensures Skipped(f.shapes) ==> r == acc
    ensures !Skipped(f.shapes) ==>
      && r.outline == acc.outline + Lift(f.outline, FeatureHeight(ctx, f))
      && r.groups.Keys == acc.groups.Keys + {FeatureColor(ctx, f)}
      && r.groups[FeatureColor(ctx, f)]
           == (if FeatureColor(ctx, f) in acc.groups then acc.groups[FeatureColor(ctx, f)] else [])
              + [Extrusion(f.id, ExtrudedShapes(f.shapes), FeatureHeight(ctx, f))]
      && (forall c :: c in acc.groups && c != FeatureColor(ctx, f) ==> r.groups[c] == acc.groups[c])
  {
    if Skipped(f.shapes) then acc
    else
      var h := FeatureHeight(ctx, f);
      Accumulator(MergeInto(acc.groups, FeatureColor(ctx, f), Extrusion(f.id, ExtrudedShapes(f.shapes), h)), acc.outline + Lift(f.outline, h))
  }

  /**
   * The loop over the features, in order. The first feature whose id has no
   * record aborts the pass with an error naming it; otherwise the result is
   * the accumulator after every feature.
   */
  function Render(ctx: Context, fs: seq<Feature>): (r: Result<Accumulator, RenderError>)
    requires ValidContext(ctx)
    ensures r.Err? <==> exists i :: 0 <= i < |fs| && fs[i].id !in ctx.index
    ensures r.Err? ==> exists i :: (0 <= i < |fs| && fs[i].id == r.error.id && fs[i].id !in ctx.index
      && forall j :: 0 <= j < i ==> fs[j].id in ctx.index)
    decreases |fs|
  {
    if |fs| == 0 then Ok(Accumulator(map[], []))
    else
      var prefix := fs[..|fs| - 1];
      var f := fs[|fs| - 1];
      assert forall i :: 0 <= i < |prefix| ==> prefix[i] == fs[i];
      match Render(ctx, prefix)
      case Err(e) => Err(e)
      case Ok(acc) =>
        if f.id !in ctx.index then Err(MissingRecord(f.id)) else Ok(Contribute(ctx, acc, f))
  }

  // ----- Reference definitions: what each part of the output should hold -----

  /** Every feature has a record. */
  predicate AllJoined(ctx: Context, fs: seq<Feature>)
  {
    forall i :: 0 <= i < |fs| ==> fs[i].id in ctx.index
  }

  /** The features that are not skipped, in order. */
  function KeptFeatures(fs: seq<Feature>): seq<Feature>
    decreases |fs|
  {
    if |fs| == 0 then []
    else KeptFeatures(fs[..|fs| - 1]) + (if Skipped(fs[|fs| - 1].shapes) then [] else [fs[|fs| - 1]])
  }

  /** What one feature puts into the group of colour `c`. */
  function Single(ctx: Context, f: Feature, c: Color): seq<Extrusion>
    requires ValidContext(ctx) && f.id in ctx.index
  {
    if !Skipped(f.shapes) && FeatureColor(ctx, f) == c then [Extrusion(f.id, ExtrudedShapes(f.shapes), FeatureHeight(ctx, f))] else []
  }

  /** The extrusions of the kept features of colour `c`, in feature order. */
  function GroupOf(ctx: Context, fs: seq<Feature>, c: Color): seq<Extrusion>
    requires ValidContext(ctx) && AllJoined(ctx, fs)
    decreases |fs|
  {
    if |fs| == 0 then []
    else GroupOf(ctx, fs[..|fs| - 1], c) + Single(ctx, fs[|fs| - 1], c)
  }

  /** The lifted outlines of the kept features, in feature order. */
  function OutlineOf(ctx: Context, fs: seq<Feature>): seq<Vertex>
    requires ValidContext(ctx) && AllJoined(ctx, fs)
    decreases |fs|
  {
    if |fs| == 0 then []
    else
      var f := fs[|fs| - 1];
      OutlineOf(ctx, fs[..|fs| - 1]) + (if Skipped(f.shapes) then [] else Lift(f.outline, FeatureHeight(ctx, f)))
  }

  /** The accumulator after the loop agrees with the reference definitions. */
  ghost predicate Agrees(ctx: Context, fs: seq<Feature>, acc: Accumulator)
    requires ValidContext(ctx) && AllJoined(ctx, fs)
  {
    && (forall c :: c in acc.groups <==> GroupOf(ctx, fs, c) != [])
    && (forall c :: c in acc.groups ==> acc.groups[c] == GroupOf(ctx, fs, c))
    && acc.outline == OutlineOf(ctx, fs)
  }

  /**
   * When every feature has a record the pass succeeds; every colour key holds
   * exactly the kept features of that colour in feature order, no key exists
   * for a colour without kept features, and the outline is the kept features'
   * lifted outlines in feature order.
   */
  lemma {:induction false} RenderGroupsByColor(ctx: Context, fs: seq<Feature>)
    requires ValidContext(ctx) && AllJoined(ctx, fs)
    ensures Render(ctx, fs).Ok?
    ensures Agrees(ctx, fs, Render(ctx, fs).value)
    decreases |fs|
  {
    if |fs| > 0 {
      var prefix := fs[..|fs| - 1];
      var f := fs[|fs| - 1];
      assert forall i :: 0 <= i < |prefix| ==> prefix[i] == fs[i];
      RenderGroupsByColor(ctx, prefix);
      ContributeAgrees(ctx, fs, Render(ctx, prefix).value);
    }
  }

  /** One loop step keeps the accumulator in agreement with the reference definitions. */
  lemma ContributeAgrees(ctx: Context, fs: seq<Feature>, acc: Accumulator)
    requires ValidContext(ctx) && AllJoined(ctx, fs) && |fs| > 0
    requires AllJoined(ctx, fs[..|fs| - 1]) && Agrees(ctx, fs[..|fs| - 1], acc)
    ensures Agrees(ctx, fs, Contribute(ctx, acc, fs[|fs| - 1]))
  {
    var prefix, f := fs[..|fs| - 1], fs[|fs| - 1];
    var r := Contribute(ctx, acc, f);
    forall c
      ensures c in r.groups <==> GroupOf(ctx, fs, c) != []
      ensures c in r.groups ==> r.groups[c] == GroupOf(ctx, fs, c)
    {
      ContributeGroup(ctx, fs, acc, c);
    }
    ContributeOutline(ctx, fs, acc);
  }

  /** The step for the outline: it grows to the reference outline of `fs`. */
  lemma ContributeOutline(ctx: Context, fs: seq<Feature>, acc: Accumulator)
    requires ValidContext(ctx) && AllJoined(ctx, fs) && |fs| > 0
    requires AllJoined(ctx, fs[..|fs| - 1]) && acc.outline == OutlineOf(ctx, fs[..|fs| - 1])
    ensures Contribute(ctx, acc, fs[|fs| - 1]).outline == OutlineOf(ctx, fs)
  {
  }

  /** The step for one colour: its group after the step is the reference group of `fs`. */
  lemma ContributeGroup(ctx: Context, fs: seq<Feature>, acc: Accumulator, c: Color)
    requires ValidContext(ctx) && AllJoined(ctx, fs) && |fs| > 0
    requires AllJoined(ctx, fs[..|fs| - 1])
    requires c in acc.groups <==> GroupOf(ctx, fs[..|fs| - 1], c) != []
    requires c in acc.groups ==> acc.groups[c] == GroupOf(ctx, fs[..|fs| - 1], c)
    ensures c in Contribute(ctx, acc, fs[|fs| - 1]).groups <==> GroupOf(ctx, fs, c) != []
    ensures c in Contribute(ctx, acc, fs[|fs| - 1]).groups ==>
      Contribute(ctx, acc, fs[|fs| - 1]).groups[c] == GroupOf(ctx, fs, c)
  {
    var prefix, f := fs[..|fs| - 1], fs[|fs| - 1];
    assert GroupOf(ctx, fs, c) == GroupOf(ctx, prefix, c) + Single(ctx, f, c);
    if Skipped(f.shapes) || c != FeatureColor(ctx, f) {
      assert Single(ctx, f, c) == [];
      assert GroupOf(ctx, fs, c) == GroupOf(ctx, prefix, c);
    } else {
      assert Single(ctx, f, c) == [Extrusion(f.id, ExtrudedShapes(f.shapes), FeatureHeight(ctx, f))];
    }
  }

  // ----- Group sizes -----

  /** The sizes of the groups of the colours `cs`, summed (0 for a colour without a group). */
  function SumSizes(groups: map<Color, seq<Extrusion>>, cs: seq<Color>): nat
    decreases |cs|
  {
    if |cs| == 0 then 0
    else (if cs[0] in groups then |groups[cs[0]]| else 0) + SumSizes(groups, cs[1..])
  }

  /** The reference group sizes of the colours `cs`, summed. */
  function SumGroupOf(ctx: Context, fs: seq<Feature>, cs: seq<Color>): nat
    requires ValidContext(ctx) && AllJoined(ctx, fs)
    decreases |cs|
  {
    if |cs| == 0 then 0 else |GroupOf(ctx, fs, cs[0])| + SumGroupOf(ctx, fs, cs[1..])
  }

  /** What one feature adds to the groups of the colours `cs`, summed. */
  function SumSingle(ctx: Context, f: Feature, cs: seq<Color>): nat
    requires ValidContext(ctx) && f.id in ctx.index
    decreases |cs|
  {
    if |cs| == 0 then 0 else |Single(ctx, f, cs[0])| + SumSingle(ctx, f, cs[1..])
  }

  predicate NoDuplicates(cs: seq<Color>)
  {
    forall i, j :: 0 <= i < j < |cs| ==> cs[i] != cs[j]
  }

  lemma PaletteHasNoDuplicates()
    ensures NoDuplicates(Palette)
  {
  }

  lemma {:induction false} SumGroupOfStep(ctx: Context, fs: seq<Feature>, cs: seq<Color>)
    requires ValidContext(ctx) && AllJoined(ctx, fs) && |fs| > 0
    ensures AllJoined(ctx, fs[..|fs| - 1])
    ensures SumGroupOf(ctx, fs, cs) == SumGroupOf(ctx, fs[..|fs| - 1], cs) + SumSingle(ctx, fs[|fs| - 1], cs)
    decreases |cs|
  {
    assert forall i :: 0 <= i < |fs| - 1 ==> fs[..|fs| - 1][i] == fs[i];
    if |cs| > 0 {
      SumGroupOfStep(ctx, fs, cs[1..]);
    }
  }

  /** A kept feature adds exactly one extrusion over a duplicate-free list holding its colour. */
  lemma {:induction false} SumSingleCounts(ctx: Context, f: Feature, cs: seq<Color>)
    requires ValidContext(ctx) && f.id in ctx.index && NoDuplicates(cs)
    ensures SumSingle(ctx, f, cs) == if !Skipped(f.shapes) && FeatureColor(ctx, f) in cs then 1 else 0
    decreases |cs|
  {
    if |cs| > 0 {
      assert NoDuplicates(cs[1..]);
      SumSingleCounts(ctx, f, cs[1..]);
      if cs[0] == FeatureColor(ctx, f) {
        assert FeatureColor(ctx, f) !in cs[1..];
      }
    }
  }

  lemma {:induction false} SumGroupOfPalette(ctx: Context, fs: seq<Feature>)
    requires ValidContext(ctx) && AllJoined(ctx, fs)
    ensures SumGroupOf(ctx, fs, Palette) == |KeptFeatures(fs)|
    decreases |fs|
  {
    if |fs| == 0 {
      SumGroupOfEmpty(ctx, fs, Palette);
    } else {
      SumGroupOfStep(ctx, fs, Palette);
      SumGroupOfPalette(ctx, fs[..|fs| - 1]);
      PaletteHasNoDuplicates();
      SumSingleCounts(ctx, fs[|fs| - 1], Palette);
    }
  }

  lemma {:induction false} SumGroupOfEmpty(ctx: Context, fs: seq<Feature>, cs: seq<Color>)
    requires ValidContext(ctx) && fs == []
    ensures SumGroupOf(ctx, fs, cs) == 0
    decreases |cs|
  {
    if |cs| > 0 {
      SumGroupOfEmpty(ctx, fs, cs[1..]);
    }
  }

  lemma {:induction false} SumSizesAgree(ctx: Context, fs: seq<Feature>, acc: Accumulator, cs: seq<Color>)
    requires ValidContext(ctx) && AllJoined(ctx, fs) && Agrees(ctx, fs, acc)
    ensures SumSizes(acc.groups, cs) == SumGroupOf(ctx, fs, cs)
    decreases |cs|
  {
    if |cs| > 0 {
      SumSizesAgree(ctx, fs, acc, cs[1..]);
    }
  }

  /**
   * Every colour key is a palette colour, and the group sizes sum to the
   * number of kept features.
   */
  lemma GroupSizesSumToKept(ctx: Context, fs: seq<Feature>)
    requires ValidContext(ctx) && AllJoined(ctx, fs)
    ensures Render(ctx, fs).Ok?
    ensures forall c :: c in Render(ctx, fs).value.groups ==> c in Palette
    ensures SumSizes(Render(ctx, fs).value.groups, Palette) == |KeptFeatures(fs)|
  {
    RenderGroupsByColor(ctx, fs);
    var acc := Render(ctx, fs).value;
    forall c | c in acc.groups
      ensures c in Palette
    {
      GroupColors(ctx, fs, c);
    }
    SumSizesAgree(ctx, fs, acc, Palette);
    SumGroupOfPalette(ctx, fs);
  }

  /** Only palette colours have non-empty reference groups. */
  lemma {:induction false} GroupColors(ctx: Context, fs: seq<Feature>, c: Color)
    requires ValidContext(ctx) && AllJoined(ctx, fs)
    requires GroupOf(ctx, fs, c) != []
    ensures c in Palette
    decreases |fs|
  {
    var prefix := fs[..|fs| - 1];
    assert forall i :: 0 <= i < |prefix| ==> prefix[i] == fs[i];
    if GroupOf(ctx, prefix, c) != [] {
      GroupColors(ctx, prefix, c);
    }
  }

  // ----- Feature order -----

  lemma {:induction false} GroupOfConcat(ctx: Context, a: seq<Feature>, b: seq<Feature>, c: Color)
    requires ValidContext(ctx) && AllJoined(ctx, a) && AllJoined(ctx, b)
    ensures AllJoined(ctx, a + b)
    ensures GroupOf(ctx, a + b, c) == GroupOf(ctx, a, c) + GroupOf(ctx, b, c)
    decreases |b|
  {
    if |b| == 0 {
      assert a + b == a;
    } else {
      PrefixJoined(ctx, b);
      GroupOfConcat(ctx, a, b[..|b| - 1], c);
      GroupOfConcatCons(ctx, a, b, c);
    }
  }

  /** The inductive step of `GroupOfConcat`: appending one feature to `b` keeps the split. */
  lemma GroupOfConcatCons(ctx: Context, a: seq<Feature>, b: seq<Feature>, c: Color)
    requires ValidContext(ctx) && AllJoined(ctx, a) && AllJoined(ctx, b) && |b| > 0
    requires AllJoined(ctx, b[..|b| - 1]) && AllJoined(ctx, a + b[..|b| - 1])
    requires GroupOf(ctx, a + b[..|b| - 1], c) == GroupOf(ctx, a, c) + GroupOf(ctx, b[..|b| - 1], c)
    ensures AllJoined(ctx, a + b)
    ensures GroupOf(ctx, a + b, c) == GroupOf(ctx, a, c) + GroupOf(ctx, b, c)
  {
    ConcatJoined(ctx, a, b);
    GroupOfConcatStep(ctx, a, b, c);
    assert GroupOf(ctx, b, c) == GroupOf(ctx, b[..|b| - 1], c) + Single(ctx, b[|b| - 1], c);
  }

  lemma ConcatJoined(ctx: Context, a: seq<Feature>, b: seq<Feature>)
    requires AllJoined(ctx, a) && AllJoined(ctx, b)
    ensures AllJoined(ctx, a + b)
  {
    forall i | 0 <= i < |a + b|
      ensures (a + b)[i].id in ctx.index
    {
      if i >= |a| {
        assert (a + b)[i] == b[i - |a|];
      }
    }
  }

  /** The last feature of `a + b` is that of `b`, after `a + b'` where `b'` drops it. */
  lemma GroupOfConcatStep(ctx: Context, a: seq<Feature>, b: seq<Feature>, c: Color)
    requires ValidContext(ctx) && AllJoined(ctx, a + b) && |b| > 0
    requires AllJoined(ctx, a + b[..|b| - 1]) && b[|b| - 1].id in ctx.index
    ensures GroupOf(ctx, a + b, c) == GroupOf(ctx, a + b[..|b| - 1], c) + Single(ctx, b[|b| - 1], c)
  {
    assert (a + b)[..|a + b| - 1] == a + b[..|b| - 1];
  }

  lemma PrefixJoined(ctx: Context, fs: seq<Feature>)
    requires AllJoined(ctx, fs) && |fs| > 0
    ensures AllJoined(ctx, fs[..|fs| - 1]) && fs[|fs| - 1].id in ctx.index
  {
    assert forall i :: 0 <= i < |fs| - 1 ==> fs[..|fs| - 1][i] == fs[i];
  }

  lemma SplitJoined(ctx: Context, gs: seq<Feature>, j: nat)
    requires AllJoined(ctx, gs) && j < |gs|
    ensures AllJoined(ctx, gs[..j]) && AllJoined(ctx, gs[j + 1..]) && gs[j].id in ctx.index
  {
    assert forall i :: 0 <= i < j ==> gs[..j][i] == gs[i];
    var right := gs[j + 1..];
    assert forall i :: 0 <= i < |right| ==> right[i] == gs[j + 1 + i];
  }

  /** A reordering of joined features is joined. */
  lemma PermutationJoined(ctx: Context, fs: seq<Feature>, gs: seq<Feature>)
    requires AllJoined(ctx, fs) && multiset(fs) == multiset(gs)
    ensures AllJoined(ctx, gs)
  {
    forall i | 0 <= i < |gs|
      ensures gs[i].id in ctx.index
    {
      assert gs[i] in multiset(fs);
      var j :| 0 <= j < |fs| && fs[j] == gs[i];
    }
  }

  /** Removing the last element of `fs` and its occurrence at `j` in `gs` keeps the two a permutation. */
  lemma RemoveMatching(fs: seq<Feature>, gs: seq<Feature>, j: nat)
    requires |fs| > 0 && j < |gs| && gs[j] == fs[|fs| - 1]
    requires multiset(fs) == multiset(gs)
    ensures multiset(fs[..|fs| - 1]) == multiset(gs[..j] + gs[j + 1..])
  {
    var x := fs[|fs| - 1];
    assert fs == fs[..|fs| - 1] + [x];
    assert multiset(fs) == multiset(fs[..|fs| - 1]) + multiset{x};
    assert gs == gs[..j] + [x] + gs[j + 1..];
    assert multiset(gs) == multiset(gs[..j]) + multiset{x} + multiset(gs[j + 1..]);
    assert multiset(gs[..j] + gs[j + 1..]) == multiset(gs[..j]) + multiset(gs[j + 1..]);
    assert multiset(fs[..|fs| - 1]) == multiset(fs) - multiset{x};
    assert multiset(gs) - multiset{x} == multiset(gs[..j]) + multiset(gs[j + 1..]);
  }

  lemma MultisetAround(gp: seq<Extrusion>, sx: seq<Extrusion>, gl: seq<Extrusion>, gr: seq<Extrusion>)
    requires multiset(gp) == multiset(gl + gr)
    ensures multiset(gp + sx) == multiset(gl + sx + gr)
  {
    calc {
      multiset(gl + sx + gr);
      multiset(gl) + multiset(sx) + multiset(gr);
      multiset(gl + gr) + multiset(sx);
      multiset(gp + sx);
    }
  }

  /** The group of `left + [x] + right` is the group of `left`, then `x`'s part, then `right`'s. */
  lemma GroupOfAround(ctx: Context, left: seq<Feature>, x: Feature, right: seq<Feature>, c: Color)
    requires ValidContext(ctx) && AllJoined(ctx, left) && x.id in ctx.index && AllJoined(ctx, right)
    ensures AllJoined(ctx, left + [x] + right) && AllJoined(ctx, left + right)
    ensures GroupOf(ctx, left + [x] + right, c) == GroupOf(ctx, left, c) + Single(ctx, x, c) + GroupOf(ctx, right, c)
    ensures GroupOf(ctx, left + right, c) == GroupOf(ctx, left, c) + GroupOf(ctx, right, c)
  {
    assert GroupOf(ctx, [x], c) == GroupOf(ctx, [], c) + Single(ctx, x, c);
    GroupOfConcat(ctx, left, [x], c);
    GroupOfConcat(ctx, left + [x], right, c);
    GroupOfConcat(ctx, left, right, c);
  }

  /**
   * Reordering the features does not change what any colour group holds,
   * only the order in which it holds it: in particular each colour's number
   * of extrusions is the same.
   */
  lemma {:induction false} GroupsIgnoreFeatureOrder(ctx: Context, fs: seq<Feature>, gs: seq<Feature>, c: Color)
    requires ValidContext(ctx) && AllJoined(ctx, fs)
    requires multiset(fs) == multiset(gs)
    ensures AllJoined(ctx, gs)
    ensures multiset(GroupOf(ctx, fs, c)) == multiset(GroupOf(ctx, gs, c))
    decreases |fs|
  {
    PermutationJoined(ctx, fs, gs);
    if |fs| == 0 {
      assert gs == [];
    } else {
      var prefix := fs[..|fs| - 1];
      var x := fs[|fs| - 1];
      assert x in multiset(gs);
      var j :| 0 <= j < |gs| && gs[j] == x;
      var left, right := gs[..j], gs[j + 1..];
      RemoveMatching(fs, gs, j);
      PrefixJoined(ctx, fs);
      PermutationJoined(ctx, prefix, left + right);
      GroupsIgnoreFeatureOrder(ctx, prefix, left + right, c);
      InsertKeepsGroups(ctx, fs, gs, j, c);
    }
  }

  /** `gs` is its part before `j`, its element at `j`, and its part after `j`. */
  lemma SplitAt(gs: seq<Feature>, j: nat)
    requires j < |gs|
    ensures gs == gs[..j] + [gs[j]] + gs[j + 1..]
  {
  }

  /**
   * Adding the last feature of `fs` back, at the end of `fs`'s prefix and at
   * position `j` of `gs`, keeps the groups reordered.
   */
  lemma InsertKeepsGroups(ctx: Context, fs: seq<Feature>, gs: seq<Feature>, j: nat, c: Color)
    requires ValidContext(ctx) && AllJoined(ctx, fs) && AllJoined(ctx, gs)
    requires |fs| > 0 && j < |gs| && gs[j] == fs[|fs| - 1]
    requires AllJoined(ctx, gs[..j] + gs[j + 1..])
    requires AllJoined(ctx, fs[..|fs| - 1])
    requires multiset(GroupOf(ctx, fs[..|fs| - 1], c)) == multiset(GroupOf(ctx, gs[..j] + gs[j + 1..], c))
    ensures multiset(GroupOf(ctx, fs, c)) == multiset(GroupOf(ctx, gs, c))
  {
    var x, left, right := gs[j], gs[..j], gs[j + 1..];
    SplitJoined(ctx, gs, j);
    GroupOfAround(ctx, left, x, right, c);
    SplitAt(gs, j);
    var gl, sx, gr := GroupOf(ctx, left, c), Single(ctx, x, c), GroupOf(ctx, right, c);
    assert GroupOf(ctx, fs, c) == GroupOf(ctx, fs[..|fs| - 1], c) + sx;
    MultisetAround(GroupOf(ctx, fs[..|fs| - 1], c), sx, gl, gr);
  }

  // ----- Height limit -----

  /** Extrusions with every depth multiplied by `k`. */
  function ScaleDepths(es: seq<Extrusion>, k: real): (r: seq<Extrusion>)
    ensures |r| == |es|
    ensures forall i :: 0 <= i < |es| ==> r[i] == Extrusion(es[i].featureId, es[i].shapes, k * es[i].depth)
  {
    seq(|es|, i requires 0 <= i < |es| => Extrusion(es[i].featureId, es[i].shapes, k * es[i].depth))
  }

  lemma ScaleDepthsConcat(a: seq<Extrusion>, b: seq<Extrusion>, k: real)
    ensures ScaleDepths(a + b, k) == ScaleDepths(a, k) + ScaleDepths(b, k)
  {
    var l, r := ScaleDepths(a + b, k), ScaleDepths(a, k) + ScaleDepths(b, k);
    assert |l| == |r|;
    forall i | 0 <= i < |l|
      ensures l[i] == r[i]
    {
      if i < |a| {
        assert (a + b)[i] == a[i];
      } else {
        assert (a + b)[i] == b[i - |a|];
      }
    }
  }

  lemma {:induction false} GroupOfScales(ctx: Context, fs: seq<Feature>, c: Color, k: real)
    requires ValidContext(ctx) && AllJoined(ctx, fs)
    ensures var ctx' := ctx.(maxExtrudeHeight := k * ctx.maxExtrudeHeight);
      ValidContext(ctx') && AllJoined(ctx', fs)
      && GroupOf(ctx', fs, c) == ScaleDepths(GroupOf(ctx, fs, c), k)
    decreases |fs|
  {
    var ctx' := ctx.(maxExtrudeHeight := k * ctx.maxExtrudeHeight);
    if |fs| > 0 {
      var prefix := fs[..|fs| - 1];
      var f := fs[|fs| - 1];
      assert forall i :: 0 <= i < |prefix| ==> prefix[i] == fs[i];
      GroupOfScales(ctx, prefix, c, k);
      SingleScales(ctx, f, c, k);
      ScaleDepthsConcat(GroupOf(ctx, prefix, c), Single(ctx, f, c), k);
    }
  }

  /** One feature's part of a group, under a height limit scaled by `k`. */
  lemma SingleScales(ctx: Context, f: Feature, c: Color, k: real)
    requires ValidContext(ctx) && f.id in ctx.index
    ensures ValidContext(ctx.(maxExtrudeHeight := k * ctx.maxExtrudeHeight))
    ensures Single(ctx.(maxExtrudeHeight := k * ctx.maxExtrudeHeight), f, c) == ScaleDepths(Single(ctx, f, c), k)
  {
    var ctx' := ctx.(maxExtrudeHeight := k * ctx.maxExtrudeHeight);
    ExtrudeHeightScales(ctx.popExtent.value, ctx.maxExtrudeHeight, k,
      ctx.index[f.id].popEstimate[ctx.year] as real);
    assert FeatureHeight(ctx', f) == k * FeatureHeight(ctx, f);
    assert FeatureColor(ctx', f) == FeatureColor(ctx, f);
    var b := Single(ctx, f, c);
    if b != [] {
      assert ScaleDepths(b, k)[0] == Extrusion(f.id, ExtrudedShapes(f.shapes), k * FeatureHeight(ctx, f));
    }
  }

  /**
   * Scaling `maxExtrudeHeight` by `k` leaves every feature in the same
   * colour group, in the same order, with its depth scaled by `k`.
   */
  lemma ScalingHeightLimit(ctx: Context, fs: seq<Feature>, k: real)
    requires ValidContext(ctx) && AllJoined(ctx, fs)
    ensures var ctx' := ctx.(maxExtrudeHeight := k * ctx.maxExtrudeHeight);
      && ValidContext(ctx')
      && Render(ctx, fs).Ok? && Render(ctx', fs).Ok?
      && Render(ctx', fs).value.groups.Keys == Render(ctx, fs).value.groups.Keys
      && forall c :: c in Render(ctx, fs).value.groups ==>
           Render(ctx', fs).value.groups[c] == ScaleDepths(Render(ctx, fs).value.groups[c], k)
  {
    var ctx' := ctx.(maxExtrudeHeight := k * ctx.maxExtrudeHeight);
    GroupOfScales(ctx, fs, "", k);
    RenderGroupsByColor(ctx, fs);
    RenderGroupsByColor(ctx', fs);
    var r := Render(ctx, fs).value;
    var r' := Render(ctx', fs).value;
    forall c
      ensures c in r'.groups <==> c in r.groups
      ensures c in r.groups ==> r'.groups[c] == ScaleDepths(r.groups[c], k)
    {
      GroupOfScales(ctx, fs, c, k);
    }
  }
}
