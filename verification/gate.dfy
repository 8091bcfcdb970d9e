/**
 * The readiness gate of the component: rendering waits until both the
 * geographic source and the population CSV have settled, and after that
 * `update` re-renders only when `year` or `maxExtrudeHeight` changed.
 */
module Gate {
  import opened Records

  /** The component's two options. */
  datatype Params = Params(year: Year, maxExtrudeHeight: real)

  /** The component state the gate reads and writes. */
  datatype GateState = GateState(geoLoaded: bool, csvSettled: bool, ready: bool, data: Params)

  /**
   * What can happen to the component: the geographic source reports it is
   * loaded, the CSV promise settles, or A-Frame calls `update` with new data.
   */
  datatype Event = GeoSrcLoaded | CsvSettled | Update(data: Params)

  /** The next state, and whether `render` ran. */
  datatype Transition = Transition(next: GateState, rendered: bool)

  /** The state right after `init`. */
  function Start(data: Params): GateState
  {
    GateState(false, false, false, data)
  }

  /** `ready` is set exactly when both loads have settled. */
  predicate Consistent(g: GateState)
  {
    g.ready <==> g.geoLoaded && g.csvSettled
  }

  /** `Promise.all` resolving: the first time both loads have settled, become ready and render. */
  function Join(g: GateState): (t: Transition)
    ensures t.next.ready <==> g.ready || (g.geoLoaded && g.csvSettled)
    ensures t.rendered <==> !g.ready && t.next.ready
    ensures t.next == g.(ready := t.next.ready)
  {
    if !g.ready && g.geoLoaded && g.csvSettled then Transition(g.(ready := true), true)
    else Transition(g, false)
  }

  /**
   * One event. A load marks its source as settled and may complete the join;
   * `update` takes the new data and renders when the gate is ready and the
   * year or the height limit differs from the old data.
   */
  function Step(g: GateState, e: Event): (t: Transition)
    requires Consistent(g)
    ensures Consistent(t.next)
    ensures t.rendered ==> t.next.ready
    ensures !g.ready ==> (t.rendered <==> t.next.ready)
    ensures e.Update? ==> t.next.data == e.data
    ensures e.Update? ==>
      (t.rendered <==> g.ready && (e.data.year != g.data.year || e.data.maxExtrudeHeight != g.data.maxExtrudeHeight))
    ensures !e.Update? ==> t.next.data == g.data
    ensures !e.Update? ==> (t.rendered <==> !g.ready && t.next.ready)
    ensures t.next.geoLoaded == (g.geoLoaded || e == GeoSrcLoaded)
    ensures t.next.csvSettled == (g.csvSettled || e == CsvSettled)
  {
    match e
    case GeoSrcLoaded => Join(g.(geoLoaded := true))
    case CsvSettled => Join(g.(csvSettled := true))
    case Update(d) =>
      Transition(g.(data := d), g.ready && (d.maxExtrudeHeight != g.data.maxExtrudeHeight || d.year != g.data.year))
  }

  /** A run: the final state and the options of every render, in order. */
  datatype Trace = Trace(final: GateState, renders: seq<Params>)

  /** The events applied one after another; every render is recorded with the options it used. */
  function Run(g: GateState, es: seq<Event>): (r: Trace)
    requires Consistent(g)
    ensures Consistent(r.final)
    ensures |r.renders| <= |es|
    decreases |es|
  {
    if |es| == 0 then Trace(g, [])
    else
      var before := Run(g, es[..|es| - 1]);
      var t := Step(before.final, es[|es| - 1]);
      Trace(t.next, before.renders + if t.rendered then [t.next.data] else [])
  }

  /**
   * From `init`, the gate is ready exactly when both loads are among the
   * events, and nothing has been rendered while it is not ready.
   */
  lemma {:induction false} NoRenderUntilBothLoaded(p: Params, es: seq<Event>)
    ensures Run(Start(p), es).final.ready <==> GeoSrcLoaded in es && CsvSettled in es
    ensures !(GeoSrcLoaded in es && CsvSettled in es) ==> Run(Start(p), es).renders == []
    decreases |es|
  {
    if |es| > 0 {
      var prefix := es[..|es| - 1];
      var e := es[|es| - 1];
      assert es == prefix + [e];
      NoRenderUntilBothLoaded(p, prefix);
      assert GeoSrcLoaded in es <==> GeoSrcLoaded in prefix || e == GeoSrcLoaded;
      assert CsvSettled in es <==> CsvSettled in prefix || e == CsvSettled;
      LoadFlags(p, prefix);
    }
  }

  /** From `init`, a source is marked settled exactly when its event has occurred. */
  lemma {:induction false} LoadFlags(p: Params, es: seq<Event>)
    ensures Run(Start(p), es).final.geoLoaded <==> GeoSrcLoaded in es
    ensures Run(Start(p), es).final.csvSettled <==> CsvSettled in es
    decreases |es|
  {
    if |es| > 0 {
      var prefix := es[..|es| - 1];
      var e := es[|es| - 1];
      assert es == prefix + [e];
      LoadFlags(p, prefix);
    }
  }

  /**
   * Without option changes, the loads render exactly once, with the initial
   * options, in whichever order they arrive and however often they repeat.
   */
  lemma {:induction false} LoadsRenderOnce(p: Params, es: seq<Event>)
    requires forall k :: 0 <= k < |es| ==> !es[k].Update?
    ensures Run(Start(p), es).renders == if GeoSrcLoaded in es && CsvSettled in es then [p] else []
    ensures Run(Start(p), es).final.data == p
    decreases |es|
  {
    if |es| > 0 {
      var prefix := es[..|es| - 1];
      var e := es[|es| - 1];
      assert es == prefix + [e];
      LoadsRenderOnce(p, prefix);
      NoRenderUntilBothLoaded(p, prefix);
      LoadFlags(p, prefix);
    }
  }
}
