/** The continuous dosing-window feed policy of the dashboard driver
    (app.py, lines 38-43 and 72-85).

    Each of the two feed streams runs at its configured rate exactly while
    the time of the last record lies in that stream's closed dosing window,
    and is off otherwise. The buffer stream is never switched on, and the
    feed concentrations are fixed.
 */
module Dosing {
  import opened Stepper

  /** Glucose and glutamine concentrations of the feed streams (mM). */
  const GlucoseFeed: real := 2500.0
  const GlutamineFeed: real := 100.0
  /** Flow of the buffer stream, which no policy switches on. */
  const BufferFlow: real := 0.0

  /** The fixed feed the driver passes to every step. */
  const FixedFeed: Feed := Feed(GlucoseFeed, GlutamineFeed)

  /** A closed dosing interval `[start, stop]` in hours. */
  datatype Window = Window(start: real, stop: real) {
    predicate Contains(t: real) {
      start <= t <= stop
    }
  }

  /** The operator's settings: a flow rate and a dosing window per stream. */
  datatype Plan = Plan(glcRate: real, glnRate: real, glcWindow: Window, glnWindow: Window)

  /** Flows applied to the step that follows a record at time `tLast`. */
  function WindowFlows(plan: Plan, tLast: real): (f: Flows)
    ensures f.fB == BufferFlow
    ensures plan.glcWindow.Contains(tLast) ==> f.fGlc == plan.glcRate
    ensures !plan.glcWindow.Contains(tLast) ==> f.fGlc == 0.0
    ensures plan.glnWindow.Contains(tLast) ==> f.fGln == plan.glnRate
    ensures !plan.glnWindow.Contains(tLast) ==> f.fGln == 0.0
  {
    Flows(
      if plan.glcWindow.Contains(tLast) then plan.glcRate else 0.0,
      if plan.glnWindow.Contains(tLast) then plan.glnRate else 0.0,
      BufferFlow)
  }

  /** With positive rates, a stream is on exactly inside its window. */
  lemma StreamOnExactlyInWindow(plan: Plan, tLast: real)
    requires plan.glcRate > 0.0 && plan.glnRate > 0.0
    ensures WindowFlows(plan, tLast).fGlc != 0.0 <==> plan.glcWindow.Contains(tLast)
    ensures WindowFlows(plan, tLast).fGln != 0.0 <==> plan.glnWindow.Contains(tLast)
  {
  }

  /** Each stream depends only on its own rate and window: changing the
      other stream's settings leaves it untouched. */
  lemma StreamsIndependent(p1: Plan, p2: Plan, tLast: real)
    ensures p1.glcRate == p2.glcRate && p1.glcWindow == p2.glcWindow ==>
      WindowFlows(p1, tLast).fGlc == WindowFlows(p2, tLast).fGlc
    ensures p1.glnRate == p2.glnRate && p1.glnWindow == p2.glnWindow ==>
      WindowFlows(p1, tLast).fGln == WindowFlows(p2, tLast).fGln
  {
  }

  /** A glucose window [10, 20] with a 2 L/h rate: off at 9 h, on at both
      closed ends and inside, off again at 21 h. */
  lemma ClosedWindowExample(glnRate: real, glnWindow: Window)
    ensures
      var plan := Plan(2.0, glnRate, Window(10.0, 20.0), glnWindow);
      && WindowFlows(plan, 9.0).fGlc == 0.0
      && WindowFlows(plan, 10.0).fGlc == 2.0
      && WindowFlows(plan, 15.0).fGlc == 2.0
      && WindowFlows(plan, 20.0).fGlc == 2.0
      && WindowFlows(plan, 21.0).fGlc == 0.0
  {
  }
}
