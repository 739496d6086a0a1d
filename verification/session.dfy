/** The simulation session kept by the dashboard driver (app.py, lines 27-36
    and 72-95): a history of records that starts with the initial record and
    grows by one record per refresh until the stepper is exhausted.
 */
module Session {
  import opened Outcomes
  import opened Kinetics
  import opened Stepper
  import opened Dosing

  /** Initial values the driver leaves at the defaults of `init_sim`. */
  const InitialCells: real := 2e5
  const InitialVolume: real := 1000.0

  /** Number of records in a completed run: times 0, 1, ..., 250. */
  const RunLength: nat := 251

  /** The history created on the first refresh: one `init_sim` record with the
      operator's initial glucose and glutamine. */
  function Start(glc0: real, gln0: real): (r: Checked<seq<State>>)
    ensures glc0 >= 0.0 && gln0 >= 0.0 ==> r.Ok? && |r.value| == 1 && Physical(r.value[0])
    ensures r.Ok? ==>
      && |r.value| == 1
      && r.value[0].t == 0.0
      && r.value[0].c == Culture(InitialCells, glc0, gln0, 0.0, 0.0, 0.0, InitialVolume)
      && r.value[0].flows == NoFlow
      && Consistent(r.value[0])
  {
    InitialCultureDefined(glc0, gln0);
    match Init(InitialCells, glc0, gln0, 0.0, 0.0, 0.0, InitialVolume)
    case Ok(s) => Ok([s])
    case DivisionByZero => DivisionByZero
  }

  /** Non-negative initial concentrations give defined initial rates. */
  lemma InitialCultureDefined(glc0: real, gln0: real)
    ensures glc0 >= 0.0 && gln0 >= 0.0 ==>
      RatesDefined(Culture(InitialCells, glc0, gln0, 0.0, 0.0, 0.0, InitialVolume), Default)
  {
    if glc0 >= 0.0 && gln0 >= 0.0 {
      DefaultValid();
      NonnegativeMediumDefined(Culture(InitialCells, glc0, gln0, 0.0, 0.0, 0.0, InitialVolume), Default);
    }
  }

  /** What one refresh of a running session does to the history. */
  datatype Tick =
    | Appended(history: seq<State>)  // the stepper produced a record
    | Completed                      // the stepper is exhausted: running stops
    | Crashed                        // a division by zero escaped the driver

  /** One refresh: choose the flows from the last record's time, step once
      with the fixed feed, and append the new record. */
  function Advance(plan: Plan, h: seq<State>): (r: Tick)
    requires |h| > 0
    ensures r.Completed? <==> h[|h| - 1].t >= DefaultHorizon
    ensures r.Crashed? <==>
      && h[|h| - 1].t < DefaultHorizon
      && (|| h[|h| - 1].c.V == 0.0
          || !RatesDefined(Balance(h[|h| - 1], FixedFeed, WindowFlows(plan, h[|h| - 1].t), DefaultStep), Default))
    ensures r.Appended? ==>
      && |r.history| == |h| + 1
      && r.history[..|h|] == h
      && r.history[|h|].t == h[|h| - 1].t + DefaultStep
      && r.history[|h|].flows == WindowFlows(plan, h[|h| - 1].t)
      && h[|h| - 1].c.V != 0.0
      && r.history[|h|].c == Balance(h[|h| - 1], FixedFeed, WindowFlows(plan, h[|h| - 1].t), DefaultStep)
      && Consistent(r.history[|h|])
  {
    var last := h[|h| - 1];
    match Step(last, FixedFeed, WindowFlows(plan, last.t), DefaultHorizon, DefaultStep)
    case Ok(None) => Completed
    case Ok(Some(s)) => Appended(h + [s])
    case DivisionByZero => Crashed
  }

  /** The driver's run flag together with the history it guards. */
  datatype Driver = Driver(history: seq<State>, running: bool)

  /** One rerun of the dashboard script: a paused driver does nothing; a
      running one advances, clearing its run flag when the stepper is
      exhausted. A division error escapes as `DivisionByZero`. */
  function Refresh(d: Driver, plan: Plan): (r: Checked<Driver>)
    requires |d.history| > 0
    ensures !d.running ==> r == Ok(d)
    ensures d.running && d.history[|d.history| - 1].t >= DefaultHorizon ==> r == Ok(Driver(d.history, false))
    ensures r.Ok? ==> |d.history| <= |r.value.history| && r.value.history[..|d.history|] == d.history
    ensures r.Ok? ==> (r.value.history == d.history <==> !r.value.running)
    ensures r.Ok? && r.value.running ==> |r.value.history| == |d.history| + 1
    ensures r == DivisionByZero ==> d.running
    ensures d.running ==> (r == DivisionByZero <==> Advance(plan, d.history).Crashed?)
    ensures d.running && r.Ok? && d.history[|d.history| - 1].t < DefaultHorizon ==> r.value.running
    ensures d.running && r.Ok? && r.value.running ==> Advance(plan, d.history) == Appended(r.value.history)
  {
    if !d.running then Ok(d)
    else
      match Advance(plan, d.history)
      case Appended(h) => Ok(Driver(h, true))
      case Completed => Ok(Driver(d.history, false))
      case Crashed => DivisionByZero
  }

  /** Record `i` of the history is at time `i` hours. */
  predicate Timeline(h: seq<State>) {
    forall i :: 0 <= i < |h| ==> h[i].t == i as real
  }

  /** Flow settings the sidebar admits, with room to spare: non-negative
      rates whose sum dilutes less than 90 % of the initial volume per hour. */
  predicate SafePlan(plan: Plan) {
    plan.glcRate >= 0.0 && plan.glnRate >= 0.0 && plan.glcRate + plan.glnRate <= 900.0
  }

  /** On a timeline, the session completes exactly once it holds 251
      records, and an appended record keeps the timeline. */
  lemma {:induction false} AdvanceKeepsTimeline(plan: Plan, h: seq<State>)
    requires |h| > 0 && Timeline(h)
    ensures Advance(plan, h).Completed? <==> |h| >= RunLength
    ensures Advance(plan, h).Appended? ==> Timeline(Advance(plan, h).history)
  {
    var r := Advance(plan, h);
    assert h[|h| - 1].t == (|h| - 1) as real;
    if r.Appended? {
      var h' := r.history;
      forall i | 0 <= i < |h'|
        ensures h'[i].t == i as real
      {
        if i < |h| {
          assert h'[i] == h'[..|h|][i];
        }
      }
    }
  }

  /** An inflow of at most 900 L/h into at least 1000 L keeps one step's
      death plus dilution below the whole culture. */
  lemma DilutionBound(F: real, V: real)
    requires 0.0 <= F <= 900.0 && V >= InitialVolume
    ensures DefaultStep * (StarvationDeath + F / V) <= 1.0
  {
    assert F / V <= 0.9 by {
      assert F <= 0.9 * V;
      assert F / V * V == F;
    }
  }

  /** `s` is the record the stepper makes from `prev` under the fixed feed
      and the flows `s` stores. */
  predicate Follows(prev: State, s: State) {
    prev.c.V != 0.0 && s.c == Balance(prev, FixedFeed, s.flows, DefaultStep)
  }

  /** One refresh under the conditions a safe run maintains: it never
      crashes, it completes exactly at the horizon, and otherwise it appends
      one physical record after the unchanged history, at the next hour,
      with the flows chosen from the previous record's time and the culture
      the stepper makes from that record. */
  method SafeRefresh(plan: Plan, h: seq<State>) returns (tick: Tick)
    requires |h| > 0 && Timeline(h) && SafePlan(plan)
    requires Physical(h[|h| - 1]) && h[|h| - 1].c.V >= InitialVolume
    ensures !tick.Crashed?
    ensures tick.Completed? <==> |h| >= RunLength
    ensures tick.Appended? ==>
      && |tick.history| == |h| + 1
      && (forall i :: 0 <= i < |h| ==> tick.history[i] == h[i])
      && Timeline(tick.history)
      && Physical(tick.history[|h|])
      && tick.history[|h|].c.V >= h[|h| - 1].c.V
      && tick.history[|h|].flows == WindowFlows(plan, h[|h| - 1].t)
      && Follows(h[|h| - 1], tick.history[|h|])
  {
    tick := Advance(plan, h);
    AdvanceKeepsTimeline(plan, h);
    var last := h[|h| - 1];
    var f := WindowFlows(plan, last.t);
    if last.t < DefaultHorizon {
      DilutionBound(f.Total(), last.c.V);
      StepPreservesPhysical(last, FixedFeed, f, DefaultHorizon, DefaultStep);
      VolumeMonotone(last.c.V, f, DefaultStep);
    }
    if tick.Appended? {
      forall i | 0 <= i < |h| ensures tick.history[i] == h[i] {
        assert tick.history[i] == tick.history[..|h|][i];
      }
    }
  }

  /** What a run of the driver maintains after every refresh: a non-empty
      timeline of at most 251 physical records, the volume never below the
      initial volume and never decreasing, and every record after the first
      carrying the flows chosen from its predecessor's time and the culture
      the stepper makes from it. */
  predicate RunSoFar(plan: Plan, h: seq<State>) {
    && 1 <= |h| <= RunLength && Timeline(h)
    && (forall i :: 0 <= i < |h| ==> Physical(h[i]))
    && h[|h| - 1].c.V >= InitialVolume
    && (forall i :: 0 < i < |h| ==> h[i].flows == WindowFlows(plan, h[i - 1].t))
    && (forall i :: 0 < i < |h| ==> h[i - 1].c.V <= h[i].c.V)
    && (forall i :: 0 < i < |h| ==> Follows(h[i - 1], h[i]))
  }

  /** Appending one refresh's record keeps a run a run. */
  lemma ExtendRun(plan: Plan, h: seq<State>, h': seq<State>)
    requires RunSoFar(plan, h) && |h'| == |h| + 1 && |h'| <= RunLength
    requires forall i :: 0 <= i < |h| ==> h'[i] == h[i]
    requires Timeline(h') && Physical(h'[|h|])
    requires h'[|h|].c.V >= h[|h| - 1].c.V
    requires h'[|h|].flows == WindowFlows(plan, h[|h| - 1].t)
    requires Follows(h[|h| - 1], h'[|h|])
    ensures RunSoFar(plan, h')
  {
    forall i | 0 < i < |h'|
      ensures h'[i].flows == WindowFlows(plan, h'[i - 1].t)
      ensures h'[i - 1].c.V <= h'[i].c.V
      ensures Follows(h'[i - 1], h'[i])
    {
      if i < |h| {
        assert h'[i - 1] == h[i - 1] && h'[i] == h[i];
      }
    }
  }

  /** A whole run of the driver with a fixed plan, from the first refresh
      until the stepper is exhausted: 251 records at hours 0 to 250, the
      last one at the horizon, each physical (so glucose and glutamine are
      never negative), each after the first carrying the flows chosen from
      its predecessor's time and the culture the stepper makes from its
      predecessor, and the volume never decreasing. */
  method Simulate(glc0: real, gln0: real, plan: Plan) returns (h: seq<State>)
    requires glc0 >= 0.0 && gln0 >= 0.0 && SafePlan(plan)
    ensures |h| == RunLength && Timeline(h)
    ensures h[|h| - 1].t == DefaultHorizon
    ensures forall i :: 0 <= i < |h| ==> Physical(h[i])
    ensures forall i :: 0 < i < |h| ==> h[i].flows == WindowFlows(plan, h[i - 1].t)
    ensures forall i :: 0 < i < |h| ==> h[i - 1].c.V <= h[i].c.V
    ensures h[0] == Start(glc0, gln0).value[0]
    ensures forall i :: 0 < i < |h| ==> Follows(h[i - 1], h[i])
  {
    h := Start(glc0, gln0).value;
    ghost var h0 := h[0];
    var done := false;
    while !done
      invariant RunSoFar(plan, h)
      invariant done ==> |h| == RunLength
      invariant h[0] == h0
      decreases RunLength - |h| + (if done then 0 else 1)
    {
      var tick := SafeRefresh(plan, h);
      if tick.Appended? {
        ExtendRun(plan, h, tick.history);
        h := tick.history;
      } else {
        done := true;
      }
    }
  }
}
