# Extrude-by-population: a Dafny model

This project models the pure core of the `extrude-by-population` A-Frame component. The component draws US counties as a 3D map:

- Each county is extruded to a height linear in its population estimate for a chosen year (2010..2016), from flat at the smallest estimate to `maxExtrudeHeight` at the largest.
- Each county is coloured by its normalised population change for that year.

The model covers:

- **Record derivation.** `processPopDataFile` turns one CSV row into yearly estimates and change ratios.
- **Index.** The id -> record index is built with a reduce.
- **Extents.** `calculateMinMaxExtent` gives the global extent over all years of a column.
- **Scales.** The threshold colour classifier (d3 `scaleThreshold` over `schemePiYG[5]`) and the linear extrusion scale (d3 `scaleLinear`).
- **Legend.** The boundary list sent to the legend.
- **Readiness gate.** `init`/`update` wait for both loads, then re-render only when `year` or `maxExtrudeHeight` changes.
- **Feature loop of `render`.** Each feature is joined to its record, checked against the degenerate-shape skip rule, then contributes its lifted outline and its extrusion to the group of its colour.
- **Publishing.** The colour groups and the outline are placed on the entity.

Modules:

- `Records` (records.dfy): CSV rows, derived records, change ratios.
- `PopulationIndex` (population_index.dfy): the reduce into an id -> record map.
- `Extents` (extents.dfy): d3 `extent` and `calculateMinMaxExtent`.
- `Scales` (scales.dfy): thresholds, palette, `bisectRight`, the legend boundaries and the extrusion scale.
- `Render` (render.dfy): the per-feature loop. It also gives reference definitions of each colour group and of the outline, with lemmas about grouping, order independence and the height limit.
- `Gate` (gate.dfy): the two-flag readiness gate as a state machine over event traces.
- `Pipeline` (pipeline.dfy): the CSV handler (`Load`), the render context, and a worked two-county example.
- `Scene` (scene.dfy): publishing a pass with `setObject3D`.
- `Wrappers` (wrappers.dfy): `Option` and `Result`.

Geometry is kept abstract. A feature's extruded geometry is an `Extrusion(featureId, shapes, depth)` token, and merging geometries is list concatenation. A feature's shapes are the point lists `toShapes` returns, and its outline is lifted to the extrusion height in place of `toVertices`.

Two behaviours of the code are easy to miss, and the model follows them:

- **Feature without a record.** Indexing `populationData[feature.id]` with an unknown id throws (src/index.ts:126). The whole pass therefore aborts rather than skipping the county. `Render.Render` returns `Err(MissingRecord(id))` for the first such feature.
- **CSV failure.** The CSV promise has a rejection handler that only logs (src/index.ts:92), so the joined promise still resolves and the component becomes ready. The gate therefore waits for the CSV to *settle*, not to succeed.

## Model

| member | source | states |
|---|---|---|
| Records.ProcessRow | src/index.ts:30-49 | The record keeps the row's id and county. It has an estimate and a change for exactly the years 2010..2016. Each estimate is the row's. Each change is (this year - previous) / this year, where 2010 is compared with `estimatesbase2010`. |
| Records.ChangeRatioSign | src/index.ts:41-47 | The change times the current estimate is the difference. Equal estimates give 0. For a positive current estimate, the change is positive exactly on growth and negative exactly on decline. |
| PopulationIndex.BuildIndex | src/index.ts:79-82 | The index has exactly the records' ids as keys. Every entry is one of the records and carries its key as id. |
| PopulationIndex.LaterRecordWins | src/index.ts:79-82 | When an id occurs more than once, the entry is the last record with that id. |
| Extents.ExtentOf | src/index.ts:58 | There are no bounds exactly when the input is empty. Otherwise lo <= hi, both bounds occur in the input, and every element lies between them. |
| Extents.MinMaxExtent | src/index.ts:54-62 | Pooling the per-year min/max and taking their extent equals the extent of all values of the column over all years. There are no bounds exactly when there are no records. Otherwise the bounds contain every record's value in every year, and each bound is some record's value in some year. |
| Extents.ExtentAttained | src/index.ts:54-62 | Each bound of the global extent is the value of some record in some year. |
| Scales.BisectRight | src/index.ts:87-88 | The binary search behind `scaleThreshold` returns the split point of the sorted thresholds: entries before it are <= x, entries from it on are > x. The split point is the number of thresholds <= x. |
| Scales.Bucket | src/index.ts:87-88 | The chosen palette index is a valid index of the five-colour palette. |
| Scales.ColorOf | src/index.ts:87-88 | Every change is classified to one of the five palette colours, the one at its bucket. |
| Scales.BucketMonotone | src/index.ts:87-88 | A larger change never gets a lower colour index. |
| Scales.BucketInterval | src/index.ts:87-88 | A change gets colour i exactly when it lies in the half-open interval [threshold i-1, threshold i). A value equal to a threshold goes up. |
| Scales.LegendBoundaries | src/index.ts:86-89 | The legend receives six boundaries: the smallest change, the four thresholds, and the largest change. |
| Scales.LegendIntervalsClassify | src/index.ts:86-90 | Every value between two consecutive legend boundaries is classified to the palette colour at the same position. |
| Scales.ExtrudeHeightEndpoints | src/index.ts:116 | For a proper extent (lo < hi), the smallest population is flat and the largest reaches `maxExtrudeHeight`. |
| Scales.ExtrudeHeight | src/index.ts:116 | The linear scale: for a proper extent, the height times the extent's width is `maxExtrudeHeight` times the population's distance above the bottom of the extent. A degenerate extent gives 0. A population inside the extent gets a height in [0, maxExtrudeHeight] when the limit is non-negative. |
| Scales.ExtrudeHeightMonotone | src/index.ts:116 | For a non-negative height limit (and an extent with lo <= hi), a larger population never gets a lower extrusion. |
| Render.FeatureHeight | src/index.ts:116-129 | A county whose estimate lies inside the population extent gets an extrusion height between 0 and a non-negative `maxExtrudeHeight`. |
| Render.FeatureColor | src/index.ts:127-128 | A county's colour is a palette colour. |
| Render.KeepAtLeastThree | src/index.ts:140-142 | Only counts of at least three survive the filter, and each count of at least three survives as often as it occurs. The filtered list is empty exactly when every count is below three. |
| Render.SkipRule | src/index.ts:138-146 | A county is skipped exactly when some shape has at most three points and no shape has three distinct points. |
| Render.ExtrudedShapes | src/index.ts:138-154 | The shapes handed to the extrusion are the feature's own shapes. Once some shape is small, only shapes with at least three distinct points remain, and each such shape remains exactly as often as it occurs, neither dropped nor doubled. Otherwise all shapes are kept. The list is empty exactly when the feature is skipped or has no shapes. |
| Render.ExtrudeArgumentAsWritten | src/index.ts:138-154 | As written, the extrusion receives a list of numbers exactly when some shape is small. Those numbers are, one for one and in order, the distinct-point counts of the shapes that were meant to be extruded. Otherwise it receives the shapes. |
| Render.KeepTriangulableMultiplicity | src/index.ts:138-154 | The intended filter keeps every shape with at least three distinct points exactly as many times as the feature has it. |
| Render.CountsOfKept | src/index.ts:140-142 | Counting the shapes' distinct points and then keeping the counts of at least three gives the counts of the shapes with at least three distinct points. |
| Render.CountsReachExtrusion | src/index.ts:138-154 | A county with a sliver and a triangle is kept, but the extrusion receives the number 3 where the triangle was intended. |
| Render.Lift | src/index.ts:150 | The lifted outline has one vertex per outline point, at the same x and y and at the extrusion height. |
| Render.MergeInto | src/index.ts:156-160 | The colour's group gains the new geometry at its end, or is created with it. Other groups are unchanged. |
| Render.Contribute | src/index.ts:125-160 | A skipped county changes nothing. A kept county appends its lifted outline and adds its extrusion (the shapes meant to be extruded, at its height) to the end of its colour's group, leaving other colours alone. |
| Render.Render | src/index.ts:122-161 | The pass fails exactly when some feature has no record, and the error names the first such feature. |
| Render.RenderGroupsByColor | src/index.ts:125-161 | When every feature has a record, each colour's group holds exactly the kept counties of that colour, in feature order. Colours without kept counties get no group. The outline is the kept counties' lifted outlines in order. |
| Render.GroupSizesSumToKept | src/index.ts:155-160 | Every group key is a palette colour, and the group sizes add up to the number of kept counties. |
| Render.GroupsIgnoreFeatureOrder | src/index.ts:125-161 | Reordering the features changes no group's contents, only their order within the group. |
| Render.ScalingHeightLimit | src/index.ts:116-131 | Multiplying `maxExtrudeHeight` by k keeps the same colour groups in the same order and multiplies every depth by k. |
| Gate.Join | src/index.ts:99-101 | The joined promise resolves once: the component becomes ready when both sources have settled, and it renders only on the step that makes it ready. Nothing else in the state changes. |
| Gate.Step | src/index.ts:99-111 | A load event records its source, and it renders exactly when it is the event that makes the component ready. A load event after that renders nothing. `update` takes the new options and renders exactly when ready and the year or height limit changed. |
| Gate.Run | src/index.ts:99-111 | After any sequence of events, the component is ready exactly when both sources have settled, and there are at most as many renders as events. |
| Gate.NoRenderUntilBothLoaded | src/index.ts:94-107 | From `init`, the component is ready exactly when both loads have happened. Nothing renders before that. |
| Gate.LoadFlags | src/index.ts:94-102 | A source counts as settled exactly when its event has occurred. |
| Gate.LoadsRenderOnce | src/index.ts:99-102 | Without option changes, the loads render exactly once, with the initial options, in any order and with repeats. |
| Pipeline.Load | src/index.ts:78-86 | The CSV handler derives one record per row and indexes exactly the rows' ids. Both extents exist exactly when there is a row. Each is the column's actual minimum and maximum: it bounds the column for every record and year, and both its ends are values some record takes. |
| Pipeline.LoadKeepsLastRow | src/index.ts:79-82 | For a row that is the last with its id, the indexed record is the one derived from that row. |
| Pipeline.Legend | src/index.ts:86-90 | The legend gets boundaries exactly when there is a change extent: six of them, the smallest change first, then the four thresholds in order, then the largest change. |
| Pipeline.LoadedContextValid | src/index.ts:78-116 | The state the loader leaves satisfies everything `render` relies on, whatever the options. Every indexed county's estimate for any year lies inside the population extent. |
| Pipeline.LoadedHeightsInRange | src/index.ts:84-129 | After a load, every county with a record is extruded to a height between 0 and `maxExtrudeHeight`, for any year and any non-negative limit. |
| Pipeline.ExampleKeys | src/index.ts:79-82 | With two rows for counties A and B, the index has a record for exactly those two ids. |
| Pipeline.ExamplePopExtent | src/index.ts:54-62 | With two counties steady at 100 and 200, the population extent is [100, 200]. |
| Pipeline.ExampleColor | src/index.ts:87-88 | In 2010, the county growing 5% is light green and the one shrinking 15% is deep pink. |
| Pipeline.ExampleHeight | src/index.ts:116-129 | The smaller county is flat and the larger one reaches the height limit. |
| Pipeline.RenderPair | src/index.ts:125-160 | Two kept counties of different colours form two one-element groups, and no other colour gets a group. |
| Pipeline.ExampleRenderGroups | src/index.ts:125-160 | The two-county 2010 pass succeeds with exactly the light green and deep pink groups. |
| Pipeline.ExampleRenderDepths | src/index.ts:125-160 | In that pass, county A's extrusion is at depth 0 and county B's is at the full height limit. |
| Pipeline.ExampleSliverSkipped | src/index.ts:138-146 | A county whose only shape is a triangle with a repeated corner is skipped. |
| Pipeline.ExampleMissingRecord | src/index.ts:126 | A feature with no record aborts the pass with an error naming it. |
| Scene.PublishAsWritten | src/index.ts:163-176 | Every group of the pass is shown under its colour and the outline under `lines`. Names the pass does not set keep their old object, and no name other than these appears. |
| Scene.StaleGroupSurvives | src/index.ts:163-170 | A colour that had a group in the previous pass but none in this one keeps showing the previous mesh. |
| Scene.Publish | src/index.ts:163-176 | A palette colour is shown exactly when this pass has a group for it. `lines` holds this pass's outline. Other names are untouched. |
| Scene.LatestRenderWins | src/index.ts:163-176 | What a pass shows does not depend on what earlier passes showed. |
| Scene.PublishFromCleanAgrees | src/index.ts:163-176 | On an entity with no colour meshes yet, both ways of publishing agree. |

## Left out

- **Fetching and parsing the CSV:** the file path, the promise machinery, and `+x` string-to-number conversion are I/O. A row enters the model as already-parsed integers.
- **Geographic features:** the geo-projection component, its renderer and `toShapes`/`toVertices` are foreign code. Features enter as point lists, and an outline is lifted by setting every vertex's z to the height.
- **three.js:** `ExtrudeGeometry`, `merge`, materials, meshes and `setObject3D` are foreign code. Geometry is a token recording the feature, the shapes it is built from and its depth; merging is concatenation, and the entity's objects are a map from names to tokens.
- **Events and logging:** the legend events (`set-legend-color-scale`, `update-legend-year`), `console.warn` and `console.error` have no effect on the model's state. The legend component (src/legend.ts) and the build configuration are not part of this model.
- **Year type:** the schema's `year` option is a string, and `update` compares strings. The model uses the integer years 2010..2016. Years outside that range are not modelled, because the source has no columns for them.
- Records.ProcessRow: requires every estimate to be non-zero. In the source, a zero estimate divides by zero and gives an infinite or NaN change, and IEEE floating point is not modelled. Estimates and changes are exact integers and reals.
- Extents.ExtentOf: d3's `extent` also skips `undefined` and NaN values. The model has no such values, so an empty input is the only case without bounds.
- Scales.ExtrudeHeight: d3's `scaleLinear` is modelled on exact reals, without its floating-point rounding and without its behaviour on an undefined domain. The model never needs that case: a context with records always has an extent.
- Scales.ExtrudeHeight: the height for a degenerate extent (every estimate equal) depends on the d3-scale version, which src/index.ts does not fix. The model gives 0, as d3-scale 2.x does; d3-scale 3.x and later give half the height limit. The choice dates the code by its three.js calls: the `amount` extrusion option (src/index.ts:131), `addAttribute` (line 173) and `Geometry.merge` (line 159) belong to three.js releases from the time of d3 v5, which shipped d3-scale 2.x.
- Render.ExtrudedShapes: the contract states which shapes are extruded and how often, not that they keep their input order. The definition keeps the order of the input.
- Render.KeepAtLeastThree: the contract states which counts survive and how often, not that they keep their input order. The definition keeps the order of the input.
- Render.Contribute: the extrusion records the shapes that were meant to be extruded (`Render.ExtrudedShapes`), not the list of counts the code actually passes (see Findings). As written, a kept county with a small shape hands numbers to `ExtrudeGeometry` at src/index.ts:155. three.js cannot extrude a number, so such a pass probably throws there. The model describes the pass the code was meant to make.
- Pipeline.Legend: with no rows, the source still sends a boundary list, with undefined ends. The model returns no list.
- **Concurrency:** there is none beyond the two loads, and their ordering is covered by the event traces of `Gate`.

## Findings

| source | as written | input that shows it | evidently intended | confidence | as-written member | corrected member |
|---|---|---|---|---|---|---|
| src/index.ts:163-170 | Each pass sets one mesh per colour that has kept counties. A colour mesh from an earlier pass is never removed. | First render a year in which some county is deep pink. Then render a year with no deep pink county: the old deep pink mesh stays, at the old year's heights. | The colour meshes shown are exactly the groups of the latest pass. | low (with the full county data every colour may occur in every year); not executed | Scene.StaleGroupSurvives | Scene.LatestRenderWins |
| src/index.ts:138-154 | When some shape has at most three points, `countyShapes` is overwritten with the distinct-point counts that are at least three. That list of numbers is then passed to `ExtrudeGeometry` in place of the shapes. | A county whose shapes are a sliver `[p, q, p]` and a closed triangle `[p, q, r, p]`: it is kept, and the extrusion receives `[3]` instead of the triangle. | The extrusion receives the county's shapes that have at least three distinct points. | medium (a number is not a shape three.js can extrude); not executed | Render.CountsReachExtrusion | Render.ExtrudedShapes |
