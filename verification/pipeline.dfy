/**
 * The glue of the component: the CSV handler that turns rows into records,
 * the index and the two extents, and the render context built from the
 * loaded state and the current options. A worked example with two counties
 * closes the module.
 */
module Pipeline {
  import opened Wrappers
  import opened Records
  import opened PopulationIndex
  import opened Extents
  import opened Scales
  import opened Render
  import opened Gate

  /** What the CSV handler stores on the component. */
  datatype Loaded = Loaded(
    records: seq<PopRecord>,
    index: map<string, PopRecord>,
    popExtent: Option<Interval>,
    deltaExtent: Option<Interval>)

  predicate AllValid(rows: seq<CsvRow>)
  {
    forall i :: 0 <= i < |rows| ==> ValidRow(rows[i])
  }

  /**
   * The CSV handler: derive a record per row, index them by id, and take the
   * global extents of the estimates and of the changes. There are records
   * for exactly the rows' ids; both extents exist exactly when there is a
   * row, and each is the least and greatest value its column takes over
   * every record and year.
   */
  function Load(rows: seq<CsvRow>): (m: Loaded)
    requires AllValid(rows)
    ensures |m.records| == |rows| && AllWellFormed(m.records)
    ensures m.records == DeriveRecords(rows)
    ensures forall id :: id in m.index <==> exists i :: 0 <= i < |rows| && rows[i].id == id
    ensures forall id :: id in m.index ==> m.index[id].id == id && m.index[id] in m.records
    ensures m.popExtent.None? <==> |rows| == 0
    ensures m.deltaExtent.None? <==> |rows| == 0
    ensures m.popExtent.Some? ==> BoundsColumn(m.records, PopEstimateColumn, m.popExtent.value)
    ensures m.deltaExtent.Some? ==> BoundsColumn(m.records, PopChangeColumn, m.deltaExtent.value)
    ensures m.popExtent.Some? ==> (Attained(m.records, PopEstimateColumn, m.popExtent.value.lo) && Attained(m.records, PopEstimateColumn, m.popExtent.value.hi))
    ensures m.deltaExtent.Some? ==> (Attained(m.records, PopChangeColumn, m.deltaExtent.value.lo) && Attained(m.records, PopChangeColumn, m.deltaExtent.value.hi))
  {
    var records := DeriveRecords(rows);
    RecordIds(rows, records);
    Loaded(records, BuildIndex(records),
      MinMaxExtent(records, PopEstimateColumn), MinMaxExtent(records, PopChangeColumn))
  }

  /** One record per row, in row order. */
  function DeriveRecords(rows: seq<CsvRow>): (rs: seq<PopRecord>)
    requires AllValid(rows)
    ensures |rs| == |rows| && AllWellFormed(rs)
    ensures forall i :: 0 <= i < |rows| ==> rs[i] == ProcessRow(rows[i])
  {
    seq(|rows|, i requires 0 <= i < |rows| => ProcessRow(rows[i]))
  }

  /** The ids of the derived records are the ids of the rows. */
  lemma RecordIds(rows: seq<CsvRow>, records: seq<PopRecord>)
    requires |records| == |rows|
    requires forall i :: 0 <= i < |rows| ==> records[i].id == rows[i].id
    ensures forall id :: id in Ids(records) <==> exists i :: 0 <= i < |rows| && rows[i].id == id
  {
    forall id
      ensures id in Ids(records) <==> exists i :: 0 <= i < |rows| && rows[i].id == id
    {
      if id in Ids(records) {
        var i :| 0 <= i < |records| && records[i].id == id;
        assert rows[i].id == id;
      }
      if exists i :: 0 <= i < |rows| && rows[i].id == id {
        var i :| 0 <= i < |rows| && rows[i].id == id;
        assert records[i].id == id;
      }
    }
  }

  /** No row after `rows[i]` carries its id. */
  predicate LastWithId(rows: seq<CsvRow>, i: nat)
    requires i < |rows|
  {
    forall j :: i < j < |rows| ==> rows[j].id != rows[i].id
  }

  /**
   * When ids repeat, the record indexed under an id is the one derived from
   * the last row carrying it.
   */
  lemma LoadKeepsLastRow(rows: seq<CsvRow>, i: nat)
    requires AllValid(rows) && i < |rows| && LastWithId(rows, i)
    ensures rows[i].id in Load(rows).index
    ensures Load(rows).index[rows[i].id] == ProcessRow(rows[i])
  {
    var records := DeriveRecords(rows);
    assert Load(rows).index == BuildIndex(records);
    forall j | i < j < |records|
      ensures records[j].id != records[i].id
    {
      assert records[j].id == rows[j].id;
    }
    LaterRecordWins(records, i);
  }

  /** The boundaries handed to the legend, once there is a change extent. */
  function Legend(m: Loaded): (b: Option<seq<real>>)
    ensures b.Some? <==> m.deltaExtent.Some?
    ensures b.Some? ==> |b.value| == |Palette| + 1
    ensures b.Some? ==> (b.value[0] == m.deltaExtent.value.lo && b.value[|b.value| - 1] == m.deltaExtent.value.hi && b.value[1..|b.value| - 1] == Thresholds)
  {
    match m.deltaExtent
    case None => None
    case Some(delta) => Some(LegendBoundaries(delta))
  }

  /** What `render` reads: the loaded state and the current options. */
  function ContextFor(m: Loaded, p: Params): Context
  {
    Context(m.index, m.popExtent, p.year, p.maxExtrudeHeight)
  }

  /** Whatever the options, the state the loader leaves satisfies what `render` relies on. */
  lemma LoadedContextValid(rows: seq<CsvRow>, p: Params)
    requires AllValid(rows)
    ensures ValidContext(ContextFor(Load(rows), p))
    ensures forall id :: id in Load(rows).index ==>
      (Load(rows).popExtent.Some?
       && Load(rows).popExtent.value.lo <= Load(rows).index[id].popEstimate[p.year] as real <= Load(rows).popExtent.value.hi)
  {
    var m := Load(rows);
    forall id | id in m.index
      ensures m.popExtent.Some?
      ensures m.popExtent.value.lo <= m.index[id].popEstimate[p.year] as real <= m.popExtent.value.hi
    {
      var i :| 0 <= i < |rows| && rows[i].id == id;
      var j :| 0 <= j < |m.records| && m.records[j] == m.index[id];
      assert ColumnValue(m.records[j], PopEstimateColumn, p.year) == m.index[id].popEstimate[p.year] as real;
    }
  }

  /**
   * After a load, every county with a record is extruded to a height between
   * 0 and the height limit, whatever the year.
   */
  lemma LoadedHeightsInRange(rows: seq<CsvRow>, p: Params, f: Feature)
    requires AllValid(rows) && 0.0 <= p.maxExtrudeHeight && f.id in Load(rows).index
    ensures ValidContext(ContextFor(Load(rows), p))
    ensures 0.0 <= FeatureHeight(ContextFor(Load(rows), p), f) <= p.maxExtrudeHeight
  {
    LoadedContextValid(rows, p);
    HeightFromBounds(Load(rows), p, f);
  }

  lemma HeightFromBounds(m: Loaded, p: Params, f: Feature)
    requires ValidContext(ContextFor(m, p)) && 0.0 <= p.maxExtrudeHeight && f.id in m.index
    requires m.popExtent.Some? && m.popExtent.value.lo <= m.index[f.id].popEstimate[p.year] as real <= m.popExtent.value.hi
    ensures 0.0 <= FeatureHeight(ContextFor(m, p), f) <= p.maxExtrudeHeight
  {
  }

  // ----- A worked example -----

  /** A row whose estimate is `pop` in every year, against the 2010 base `base`. */
  predicate Steady(row: CsvRow, base: int, pop: int)
    requires ValidRow(row)
  {
    row.estimatesBase2010 == base && forall y :: MinYear <= y <= MaxYear ==> row.popEstimate[y] == pop
  }

  /**
   * Two counties: A, steady at 100 against a 2010 base of 95 (a 5% rise in
   * 2010), and B, steady at 200 against a base of 230 (a 15% fall).
   */
  predicate TwoCounties(rows: seq<CsvRow>)
  {
    && AllValid(rows) && |rows| == 2 && rows[0].id == "A" && rows[1].id == "B"
    && Steady(rows[0], 95, 100) && Steady(rows[1], 230, 200)
  }

  /** An id with a record is the id of one of the two rows. */
  lemma ExampleIndexedId(rows: seq<CsvRow>, id: string)
    requires TwoCounties(rows)
    requires id in Load(rows).index
    ensures id == "A" || id == "B"
  {
    var i :| 0 <= i < |rows| && rows[i].id == id;
  }

  /** The example's records are indexed under exactly the two ids. */
  lemma ExampleKeys(rows: seq<CsvRow>)
    requires TwoCounties(rows)
    ensures forall id :: id in Load(rows).index <==> id == "A" || id == "B"
  {
    var m := Load(rows);
    forall id | id in m.index
      ensures id == "A" || id == "B"
    {
      ExampleIndexedId(rows, id);
    }
    assert rows[0].id == "A" && rows[1].id == "B";
    assert "A" in m.index && "B" in m.index;
  }

  /** No id other than the two has a record. */
  lemma ExampleLacksId(rows: seq<CsvRow>, h: real, id: string)
    requires TwoCounties(rows)
    requires id != "A" && id != "B"
    ensures id !in ExampleContext(rows, h).index
  {
    if id in ExampleContext(rows, h).index {
      ExampleIndexedId(rows, id);
    }
  }

  /** Every estimate of county A is 100 and every estimate of county B is 200. */
  lemma ExampleEstimates(rows: seq<CsvRow>, i: nat, y: Year)
    requires TwoCounties(rows) && i < 2
    ensures ColumnValue(Load(rows).records[i], PopEstimateColumn, y) == if i == 0 then 100.0 else 200.0
  {
    assert Load(rows).records[i].popEstimate[y] == rows[i].popEstimate[y];
  }

  /** The population extent of the example runs from the smaller estimate to the larger. */
  lemma ExamplePopExtent(rows: seq<CsvRow>)
    requires TwoCounties(rows)
    ensures Load(rows).popExtent == Some(Interval(100.0, 200.0))
  {
    var m := Load(rows);
    var e := m.popExtent.value;
    ExampleEstimates(rows, 0, MinYear);
    ExampleEstimates(rows, 1, MinYear);
    assert e.lo <= 100.0 && 200.0 <= e.hi;
    assert Attained(m.records, PopEstimateColumn, e.lo);
    var i, y :| 0 <= i < 2 && MinYear <= y <= MaxYear && ColumnValue(m.records[i], PopEstimateColumn, y) == e.lo;
    ExampleEstimates(rows, i, y);
    assert Attained(m.records, PopEstimateColumn, e.hi);
    var j, z :| 0 <= j < 2 && MinYear <= z <= MaxYear && ColumnValue(m.records[j], PopEstimateColumn, z) == e.hi;
    ExampleEstimates(rows, j, z);
  }

  /** In 2010 county A grew by 5% and county B shrank by 15%. */
  lemma ExampleChanges(rows: seq<CsvRow>)
    requires TwoCounties(rows)
    ensures ProcessRow(rows[0]).popChange[2010] == 0.05
    ensures ProcessRow(rows[1]).popChange[2010] == -0.15
  {
    assert ProcessRow(rows[0]).popChange[2010] == ChangeRatio(95, 100);
    assert ProcessRow(rows[1]).popChange[2010] == ChangeRatio(230, 200);
  }

  /** The 2010 render context of the example, with height limit `h`. */
  function ExampleContext(rows: seq<CsvRow>, h: real): (ctx: Context)
    requires TwoCounties(rows)
    ensures ValidContext(ctx)
  {
    LoadedContextValid(rows, Params(2010, h));
    ContextFor(Load(rows), Params(2010, h))
  }

  /** The indexed records carry the example's 2010 changes and estimates. */
  lemma ExampleIndexedValues(rows: seq<CsvRow>, h: real, i: nat)
    requires TwoCounties(rows) && i < 2
    ensures rows[i].id in ExampleContext(rows, h).index
    ensures ExampleContext(rows, h).index[rows[i].id].popChange[2010] == if i == 0 then 0.05 else -0.15
    ensures ExampleContext(rows, h).index[rows[i].id].popEstimate[2010] == if i == 0 then 100 else 200
  {
    LoadKeepsLastRow(rows, i);
    ExampleChanges(rows);
  }

  /** In 2010, county A (+5%) is classified light green and county B (-15%) deep pink. */
  lemma ExampleColor(rows: seq<CsvRow>, h: real, i: nat, f: Feature)
    requires TwoCounties(rows) && i < 2 && f.id == rows[i].id
    ensures f.id in ExampleContext(rows, h).index
    ensures FeatureColor(ExampleContext(rows, h), f) == if i == 0 then Palette[3] else Palette[0]
  {
    ExampleIndexedValues(rows, h, i);
    if i == 0 {
      BucketInterval(3, 0.05);
    } else {
      BucketInterval(0, -0.15);
    }
  }

  /**
   * County A, holding the smallest population, stays flat; county B, holding
   * the largest, reaches the height limit.
   */
  lemma ExampleHeight(rows: seq<CsvRow>, h: real, i: nat, f: Feature)
    requires TwoCounties(rows) && i < 2 && f.id == rows[i].id
    ensures f.id in ExampleContext(rows, h).index
    ensures FeatureHeight(ExampleContext(rows, h), f) == if i == 0 then 0.0 else h
  {
    ExampleIndexedValues(rows, h, i);
    ExamplePopExtent(rows);
    ExtrudeHeightEndpoints(Interval(100.0, 200.0), h);
  }

  /**
   * Two kept features of different colours `ca` and `cb`, at heights `ha`
   * and `hb`, form two one-element groups, and no other colour gets a group.
   */
  lemma RenderPair(ctx: Context, a: Feature, b: Feature, ca: Color, cb: Color, ha: real, hb: real)
    requires ValidContext(ctx) && a.id in ctx.index && b.id in ctx.index
    requires !Skipped(a.shapes) && !Skipped(b.shapes)
    requires FeatureColor(ctx, a) == ca && FeatureColor(ctx, b) == cb && ca != cb
    requires FeatureHeight(ctx, a) == ha && FeatureHeight(ctx, b) == hb
    ensures Render.Render(ctx, [a, b]).Ok?
    ensures forall c :: (c in Render.Render(ctx, [a, b]).value.groups <==> c == ca || c == cb)
    ensures Render.Render(ctx, [a, b]).value.groups[ca] == [Extrusion(a.id, ExtrudedShapes(a.shapes), ha)]
    ensures Render.Render(ctx, [a, b]).value.groups[cb] == [Extrusion(b.id, ExtrudedShapes(b.shapes), hb)]
  {
    assert [a, b][..1] == [a];
    assert [a][..0] == [];
    var empty := Accumulator(map[], []);
    assert Render.Render(ctx, []) == Ok(empty);
    var first := Contribute(ctx, empty, a);
    assert Render.Render(ctx, [a]) == Ok(first);
    assert Render.Render(ctx, [a, b]) == Ok(Contribute(ctx, first, b));
  }

  /** The colours and heights of the two example features in 2010. */
  lemma ExampleFeatures(rows: seq<CsvRow>, a: Feature, b: Feature, h: real)
    requires TwoCounties(rows)
    requires a.id == "A" && b.id == "B"
    ensures a.id in ExampleContext(rows, h).index && b.id in ExampleContext(rows, h).index
    ensures FeatureColor(ExampleContext(rows, h), a) == Palette[3]
    ensures FeatureColor(ExampleContext(rows, h), b) == Palette[0]
    ensures FeatureHeight(ExampleContext(rows, h), a) == 0.0
    ensures FeatureHeight(ExampleContext(rows, h), b) == h
  {
    ExampleColor(rows, h, 0, a);
    ExampleColor(rows, h, 1, b);
    ExampleHeight(rows, h, 0, a);
    ExampleHeight(rows, h, 1, b);
  }

  /**
   * In 2010, with any height limit `h`, for kept features of the two
   * counties: the pass succeeds with exactly two colour groups, light
   * green for county A and deep pink for county B.
   */
  lemma ExampleRenderGroups(rows: seq<CsvRow>, a: Feature, b: Feature, h: real)
    requires TwoCounties(rows)
    requires a.id == "A" && b.id == "B" && !Skipped(a.shapes) && !Skipped(b.shapes)
    ensures Render.Render(ExampleContext(rows, h), [a, b]).Ok?
    ensures forall c ::
      (c in Render.Render(ExampleContext(rows, h), [a, b]).value.groups <==> c == Palette[3] || c == Palette[0])
  {
    ExampleFeatures(rows, a, b, h);
    RenderPair(ExampleContext(rows, h), a, b, Palette[3], Palette[0], 0.0, h);
  }

  /**
   * In the same pass county A's extrusion is flat and county B's reaches the
   * height limit `h`.
   */
  lemma ExampleRenderDepths(rows: seq<CsvRow>, a: Feature, b: Feature, h: real)
    requires TwoCounties(rows)
    requires a.id == "A" && b.id == "B" && !Skipped(a.shapes) && !Skipped(b.shapes)
    ensures Render.Render(ExampleContext(rows, h), [a, b]).Ok?
    ensures Palette[3] in Render.Render(ExampleContext(rows, h), [a, b]).value.groups
    ensures Palette[0] in Render.Render(ExampleContext(rows, h), [a, b]).value.groups
    ensures Render.Render(ExampleContext(rows, h), [a, b]).value.groups[Palette[3]] == [Extrusion("A", ExtrudedShapes(a.shapes), 0.0)]
    ensures Render.Render(ExampleContext(rows, h), [a, b]).value.groups[Palette[0]] == [Extrusion("B", ExtrudedShapes(b.shapes), h)]
  {
    ExampleFeatures(rows, a, b, h);
    RenderPair(ExampleContext(rows, h), a, b, Palette[3], Palette[0], 0.0, h);
  }

  /**
   * A feature whose only shape is a triangle with a repeated corner has two
   * distinct points and is skipped: it adds neither geometry nor outline.
   */
  lemma ExampleSliverSkipped(ctx: Context, acc: Accumulator, f: Feature, p: Point, q: Point)
    requires ValidContext(ctx) && f.id in ctx.index
    requires f.shapes == [[p, q, p]]
    ensures Contribute(ctx, acc, f) == acc
  {
    var s := [p, q, p];
    assert f.shapes[0] == s;
    var pts := set i | 0 <= i < |s| :: s[i];
    assert pts <= {p, q} by {
      forall x | x in pts
        ensures x == p || x == q
      {
        var i :| 0 <= i < |s| && s[i] == x;
      }
    }
    SetSizeAtMost(pts, {p, q});
    assert DistinctPoints(s) < 3;
    assert HasSmallShape(f.shapes) by {
      assert |f.shapes[0]| <= 3;
    }
    SkipRule(f.shapes);
  }

  lemma SetSizeAtMost<T>(a: set<T>, b: set<T>)
    requires a <= b
    ensures |a| <= |b|
  {
    assert b == a + (b - a);
  }

  /** A feature without a record aborts the pass with an error naming it. */
  lemma ExampleMissingRecord(rows: seq<CsvRow>, a: Feature, z: Feature, h: real)
    requires TwoCounties(rows)
    requires a.id == "A" && z.id == "Z"
    ensures Render.Render(ExampleContext(rows, h), [a, z]) == Err(MissingRecord("Z"))
  {
    assert rows[0].id == "A";
    ExampleLacksId(rows, h, "Z");
    MissingAfterJoined(ExampleContext(rows, h), a, z);
  }

  /** A joined feature followed by one without a record: the pass fails naming the second. */
  lemma MissingAfterJoined(ctx: Context, a: Feature, z: Feature)
    requires ValidContext(ctx) && a.id in ctx.index && z.id !in ctx.index
    ensures Render.Render(ctx, [a, z]) == Err(MissingRecord(z.id))
  {
    assert [a, z][..1] == [a];
    assert [a][..0] == [];
  }
}
